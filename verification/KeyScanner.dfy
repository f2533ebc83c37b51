/** The strict key scanner: a recursive-descent pass over raw bytes, and why it is exact. */
module KeyScanner {
  import opened Wrappers
  import opened Bytes
  import opened Text
  import opened Json

  // ----- the scan as functions of the unread suffix; `None` is a rejection -----

  function SkipBlanks(s: seq<byte>): (r: seq<byte>)
    ensures |r| <= |s|
  {
    if s != [] && IsBlank(s[0]) then SkipBlanks(s[1..]) else s
  }

  function Expect(s: seq<byte>, b: byte): (r: Option<seq<byte>>)
    ensures r.Some? ==> |r.value| < |s|
  {
    var t := SkipBlanks(s);
    if t != [] && t[0] == b then Some(t[1..]) else None
  }

  /** The rest of a string after its opening quote: its raw bytes and what follows the closing quote. */
  function StringBody(s: seq<byte>): (r: Option<(seq<byte>, seq<byte>)>)
    ensures r.Some? ==> |r.value.1| < |s|
  {
    if s == [] then None
    else if s[0] == QUOTE then Some(([], s[1..]))
    else if s[0] == BACKSLASH then
      if |s| == 1 then None
      else
        var r := StringBody(s[2..]);
        if r.None? then None else Some((s[..2] + r.value.0, r.value.1))
    else if s[0] < 0x20 then None
    else
      var r := StringBody(s[1..]);
      if r.None? then None else Some((s[..1] + r.value.0, r.value.1))
  }

  function ScanString(s: seq<byte>): (r: Option<(seq<byte>, seq<byte>)>)
    ensures r.Some? ==> |r.value.1| < |s|
  {
    var body := Expect(s, QUOTE);
    if body.None? then None else StringBody(body.value)
  }

  /** The longest delimiter-free front of `s`. */
  function Word(s: seq<byte>): (r: seq<byte>)
    ensures r <= s
    ensures s != [] && !IsDelimiter(s[0]) ==> r != []
  {
    if s == [] || IsDelimiter(s[0]) then [] else [s[0]] + Word(s[1..])
  }

  function ScanScalar(s: seq<byte>): (r: Option<seq<byte>>)
    ensures r.Some? ==> |r.value| < |s|
  {
    var token := Word(s);
    if ScalarToken(token) then Some(s[|token|..]) else None
  }

  function ScanValue(s: seq<byte>, depth: nat): (r: Option<seq<byte>>)
    ensures r.Some? ==> |r.value| < |s|
    decreases |s|, 3
  {
    if depth >= MAX_JSON_DEPTH then None
    else
      var t := SkipBlanks(s);
      if t == [] then None
      else if t[0] == LBRACE then ScanObject(t, depth)
      else if t[0] == LBRACKET then ScanArray(t, depth)
      else if t[0] == QUOTE then
        var str := ScanString(t);
        if str.None? then None else Some(str.value.1)
      else ScanScalar(t)
  }

  function ScanObject(s: seq<byte>, depth: nat): (r: Option<seq<byte>>)
    ensures r.Some? ==> |r.value| < |s|
    decreases |s|, 2
  {
    var body := Expect(s, LBRACE);
    if body.None? then None
    else
      var t := SkipBlanks(body.value);
      if t != [] && t[0] == RBRACE then Some(t[1..]) else ScanMembers(t, depth + 1, {})
  }

  function ScanMembers(s: seq<byte>, depth: nat, keys: set<seq<byte>>): (r: Option<seq<byte>>)
    ensures r.Some? ==> |r.value| < |s|
    decreases |s|, 4
  {
    var key := ScanString(SkipBlanks(s));
    if key.None? || key.value.0 in keys then None else
    var colon := Expect(key.value.1, COLON);
    if colon.None? then None else
    var value := ScanValue(colon.value, depth);
    if value.None? then None else
    var t := SkipBlanks(value.value);
    if t != [] && t[0] == COMMA then ScanMembers(t[1..], depth, keys + {key.value.0})
    else if t != [] && t[0] == RBRACE then Some(t[1..])
    else None
  }

  function ScanArray(s: seq<byte>, depth: nat): (r: Option<seq<byte>>)
    ensures r.Some? ==> |r.value| < |s|
    decreases |s|, 2
  {
    var body := Expect(s, LBRACKET);
    if body.None? then None
    else
      var t := SkipBlanks(body.value);
      if t != [] && t[0] == RBRACKET then Some(t[1..]) else ScanItems(t, depth + 1)
  }

  function ScanItems(s: seq<byte>, depth: nat): (r: Option<seq<byte>>)
    ensures r.Some? ==> |r.value| < |s|
    decreases |s|, 4
  {
    var value := ScanValue(s, depth);
    if value.None? then None else
    var t := SkipBlanks(value.value);
    if t != [] && t[0] == COMMA then ScanItems(t[1..], depth)
    else if t != [] && t[0] == RBRACKET then Some(t[1..])
    else None
  }

  /** `reject_duplicate_object_keys`: one value and nothing after it. */
  predicate Accepts(bytes: seq<byte>) { ScanValue(bytes, 0) == Some([]) }

  // ----- blanks, strings and words -----

  lemma {:induction false} SkipsBlanks(pad: seq<byte>, s: seq<byte>)
    requires Blank(pad) && (s == [] || !IsBlank(s[0]))
    ensures SkipBlanks(pad + s) == s
  {
    if pad == [] {
      assert pad + s == s;
    } else {
      assert (pad + s)[1..] == pad[1..] + s;
      SkipsBlanks(pad[1..], s);
    }
  }

  lemma {:induction false} SkipBlanksSplits(s: seq<byte>) returns (pad: seq<byte>)
    ensures Blank(pad) && s == pad + SkipBlanks(s)
    ensures SkipBlanks(s) == [] || !IsBlank(SkipBlanks(s)[0])
  {
    if s != [] && IsBlank(s[0]) {
      var tail := SkipBlanksSplits(s[1..]);
      pad := [s[0]] + tail;
      assert s == [s[0]] + s[1..];
    } else {
      pad := [];
    }
  }

  lemma SkipTwice(s: seq<byte>)
    ensures SkipBlanks(SkipBlanks(s)) == SkipBlanks(s)
  {
    var _ := SkipBlanksSplits(s);
  }

  lemma ExpectPadded(pad: seq<byte>, b: byte, rest: seq<byte>)
    requires Blank(pad) && !IsBlank(b)
    ensures Expect(pad + [b] + rest, b) == Some(rest)
  {
    assert pad + [b] + rest == pad + ([b] + rest);
    SkipsBlanks(pad, [b] + rest);
    assert ([b] + rest)[1..] == rest;
  }

  lemma ExpectSplits(s: seq<byte>, b: byte) returns (pad: seq<byte>)
    requires Expect(s, b).Some?
    ensures Blank(pad) && s == pad + [b] + Expect(s, b).value
  {
    pad := SkipBlanksSplits(s);
    var t := SkipBlanks(s);
    assert t == [t[0]] + t[1..];
  }

  lemma {:induction false} StringBodyComplete(raw: seq<byte>, rest: seq<byte>)
    requires RawString(raw)
    ensures StringBody(raw + [QUOTE] + rest) == Some((raw, rest))
  {
    var s := raw + [QUOTE] + rest;
    if raw == [] {
      assert s[1..] == rest;
    } else {
      var n := if raw[0] == BACKSLASH then 2 else 1;
      assert s[n..] == raw[n..] + [QUOTE] + rest;
      StringBodyComplete(raw[n..], rest);
      assert s[..n] == raw[..n] && raw == raw[..n] + raw[n..];
    }
  }

  lemma {:induction false} StringBodySound(s: seq<byte>)
    requires StringBody(s).Some?
    ensures var (raw, rest) := StringBody(s).value; RawString(raw) && s == raw + [QUOTE] + rest
  {
    var (raw, rest) := StringBody(s).value;
    if s[0] == QUOTE {
      assert s == [] + [QUOTE] + s[1..];
    } else {
      var n := if s[0] == BACKSLASH then 2 else 1;
      StringBodySound(s[n..]);
      var tail := StringBody(s[n..]).value.0;
      assert raw == s[..n] + tail && raw[n..] == tail;
      assert s == s[..n] + s[n..];
    }
  }

  lemma ScanStringComplete(pad: seq<byte>, raw: seq<byte>, rest: seq<byte>)
    requires Blank(pad) && RawString(raw)
    ensures ScanString(pad + [QUOTE] + raw + [QUOTE] + rest) == Some((raw, rest))
  {
    assert pad + [QUOTE] + raw + [QUOTE] + rest == pad + [QUOTE] + (raw + [QUOTE] + rest);
    ExpectPadded(pad, QUOTE, raw + [QUOTE] + rest);
    StringBodyComplete(raw, rest);
  }

  lemma ScanStringSound(s: seq<byte>) returns (pad: seq<byte>)
    requires ScanString(s).Some?
    ensures var (raw, rest) := ScanString(s).value;
            Blank(pad) && RawString(raw) && s == pad + [QUOTE] + raw + [QUOTE] + rest
  {
    hide StringBody, Expect;
    pad := ExpectSplits(s, QUOTE);
    var body := Expect(s, QUOTE).value;
    StringBodySound(body);
    var (raw, rest) := ScanString(s).value;
    assert pad + [QUOTE] + (raw + [QUOTE] + rest) == pad + [QUOTE] + raw + [QUOTE] + rest;
  }

  /** What may follow a value: anything after a bracketed or quoted one, a delimiter or the end after a scalar. */
  ghost predicate Follows(v: Value, rest: seq<byte>) {
    v.Scalar? ==> rest == [] || IsDelimiter(rest[0])
  }

  lemma {:induction false} WordComplete(token: seq<byte>, rest: seq<byte>)
    requires forall i :: 0 <= i < |token| ==> !IsDelimiter(token[i])
    requires rest == [] || IsDelimiter(rest[0])
    ensures Word(token + rest) == token
  {
    if token == [] {
      assert token + rest == rest;
    } else {
      assert (token + rest)[1..] == token[1..] + rest;
      WordComplete(token[1..], rest);
    }
  }

  lemma {:induction false} WordSound(s: seq<byte>)
    ensures var rest := s[|Word(s)|..]; rest == [] || IsDelimiter(rest[0])
  {
    if s != [] && !IsDelimiter(s[0]) {
      WordSound(s[1..]);
      assert s[|Word(s)|..] == s[1..][|Word(s[1..])|..];
    }
  }

  lemma TokenBytes(token: seq<byte>)
    requires ScalarToken(token)
    ensures forall i :: 0 <= i < |token| ==> !IsDelimiter(token[i])
    ensures token[0] !in {LBRACE, LBRACKET, QUOTE}
  {
  }

  lemma ScalarComplete(token: seq<byte>, rest: seq<byte>)
    requires ScalarToken(token) && (rest == [] || IsDelimiter(rest[0]))
    ensures ScanScalar(token + rest) == Some(rest)
  {
    TokenBytes(token);
    WordComplete(token, rest);
  }

  lemma ScalarSound(s: seq<byte>) returns (token: seq<byte>)
    requires ScanScalar(s).Some?
    ensures ScalarToken(token) && s == token + ScanScalar(s).value && Follows(Scalar(token), ScanScalar(s).value)
  {
    token := Word(s);
    WordSound(s);
    assert s == token + s[|token|..];
  }

  // ----- what the scan does with a printed tree -----

  lemma FirstByte(v: Value)
    requires WellFormed(v)
    ensures Print(v) != [] && !IsDelimiter(Print(v)[0])
  {
    if v.Scalar? { TokenBytes(v.token); }
  }

  lemma DelimiterAfter(post: seq<byte>, b: byte, rest: seq<byte>)
    requires Blank(post) && (b == COMMA || b == RBRACE || b == RBRACKET)
    ensures IsDelimiter((post + [b] + rest)[0])
    ensures SkipBlanks(post + [b] + rest) == [b] + rest
  {
    assert post + [b] + rest == post + ([b] + rest);
    SkipsBlanks(post, [b] + rest);
  }

  /** Scanning a value after blanks looks only at the value. */
  lemma ValueAfterBlanks(lead: seq<byte>, v: Value, rest: seq<byte>)
    requires Blank(lead) && WellFormed(v)
    ensures SkipBlanks(lead + Print(v) + rest) == Print(v) + rest
  {
    FirstByte(v);
    assert lead + Print(v) + rest == lead + (Print(v) + rest);
    SkipsBlanks(lead, Print(v) + rest);
  }

  /** The result of scanning something clean or not, with `rest` behind it. */
  ghost function Outcome(clean: bool, rest: seq<byte>): Option<seq<byte>> { if clean then Some(rest) else None }

  /** A printed tree is consumed exactly if it is clean, and refused if it is not. */
  lemma {:induction false} ValueScanned(v: Value, lead: seq<byte>, rest: seq<byte>, depth: nat)
    requires Blank(lead) && WellFormed(v) && Follows(v, rest)
    ensures ScanValue(lead + Print(v) + rest, depth) == Outcome(Clean(v, depth), rest)
    decreases v
  {
    hide SkipBlanks, ScanScalar, ScanString, ScanMembers, ScanItems, Expect, Blank, RawString, ScalarToken, Distinct;
    ValueAfterBlanks(lead, v, rest);
    var t := Print(v) + rest;
    match v
    case Str(raw) =>
      assert Blank([]) by { NoBlanks(); }
      ScanStringComplete([], raw, rest);
      assert [] + [QUOTE] + raw + [QUOTE] + rest == t;
    case Scalar(token) =>
      FirstByte(v);
      TokenBytes(token);
      ScalarComplete(token, rest);
    case EmptyObject(pad) =>
      EmptyComplete(pad, LBRACE, RBRACE, rest);
    case EmptyArray(pad) =>
      EmptyComplete(pad, LBRACKET, RBRACKET, rest);
    case Object(members) =>
      var body := PrintMembers(members) + rest;
      assert t == [LBRACE] + body;
      OpeningByte(LBRACE, body);
      MembersOpen(members, rest);
      MembersScanned(members, rest, depth + 1, {});
      MembersSkip(body, depth + 1);
    case Array(items) =>
      var body := PrintItems(items) + rest;
      assert t == [LBRACKET] + body;
      OpeningByte(LBRACKET, body);
      ItemsOpen(items, rest);
      ItemsScanned(items, rest, depth + 1);
      ItemsSkip(body, depth + 1);
  }

  lemma NoBlanks()
    ensures Blank([])
  {
  }

  lemma OpeningByte(b: byte, body: seq<byte>)
    requires !IsBlank(b)
    ensures Expect([b] + body, b) == Some(body)
  {
    ExpectPadded([], b, body);
    assert [] + [b] + body == [b] + body;
  }

  lemma EmptyComplete(pad: seq<byte>, open: byte, close: byte, rest: seq<byte>)
    requires Blank(pad) && !IsBlank(open) && !IsBlank(close)
    ensures Expect([open] + pad + [close] + rest, open) == Some(pad + [close] + rest)
    ensures SkipBlanks(pad + [close] + rest) == [close] + rest && ([close] + rest)[1..] == rest
  {
    assert [open] + pad + [close] + rest == [open] + (pad + [close] + rest);
    OpeningByte(open, pad + [close] + rest);
    assert pad + [close] + rest == pad + ([close] + rest);
    SkipsBlanks(pad, [close] + rest);
  }

  /** After its opening brace a non-empty object continues with a quote. */
  lemma MembersOpen(ms: Members, rest: seq<byte>)
    requires WellFormedMembers(ms)
    ensures var t := SkipBlanks(PrintMembers(ms) + rest); t != [] && t[0] == QUOTE
  {
    var m := ms.m;
    var after := if ms.OneMember? then [RBRACE] + rest else [COMMA] + PrintMembers(ms.rest) + rest;
    var tail := [QUOTE] + m.key + [QUOTE] + m.mid + [COLON] + m.lead + Print(m.value) + m.post + after;
    assert PrintMembers(ms) + rest == PrintMember(m) + after;
    assert PrintMember(m) + after == m.pre + tail;
    SkipsBlanks(m.pre, tail);
  }

  lemma ItemsOpen(items: Items, rest: seq<byte>)
    requires WellFormedItems(items)
    ensures var t := SkipBlanks(PrintItems(items) + rest); t != [] && t[0] != RBRACKET
  {
    var lead, v := items.item.lead, items.item.value;
    var after := if items.OneItem? then [RBRACKET] + rest else [COMMA] + PrintItems(items.rest) + rest;
    var tail := items.item.post + after;
    assert PrintItems(items) + rest == PrintItem(items.item) + after;
    assert PrintItem(items.item) + after == lead + Print(v) + tail;
    ValueAfterBlanks(lead, v, tail);
    FirstByte(v);
  }

  lemma MembersSkip(s: seq<byte>, depth: nat)
    ensures ScanMembers(SkipBlanks(s), depth, {}) == ScanMembers(s, depth, {})
  {
    hide SkipBlanks, ScanString, ScanValue, Expect;
    SkipTwice(s);
  }

  lemma ItemsSkip(s: seq<byte>, depth: nat)
    ensures ScanItems(SkipBlanks(s), depth) == ScanItems(s, depth)
  {
    hide SkipBlanks, ScanString, ScanObject, ScanArray, ScanScalar;
    SkipTwice(s);
  }

  /** One member up to its value: the key is read back and the value scan starts at the blanks before it. */
  lemma MemberComplete(m: Member, tail: seq<byte>)
    requires WellFormedMember(m)
    ensures var s := PrintMember(m) + tail;
            var after := m.lead + Print(m.value) + (m.post + tail);
            && ScanString(SkipBlanks(s)) == Some((m.key, m.mid + [COLON] + after))
            && Expect(m.mid + [COLON] + after, COLON) == Some(after)
  {
    var after := m.lead + Print(m.value) + (m.post + tail);
    var quoted := [QUOTE] + m.key + [QUOTE] + (m.mid + [COLON] + after);
    assert PrintMember(m) + tail == m.pre + quoted;
    SkipsBlanks(m.pre, quoted);
    ScanStringComplete([], m.key, m.mid + [COLON] + after);
    assert [] + [QUOTE] + m.key + [QUOTE] + (m.mid + [COLON] + after) == quoted;
    ExpectPadded(m.mid, COLON, after);
  }

  ghost predicate NoneIn(keys: seq<seq<byte>>, seen: set<seq<byte>>) {
    forall i :: 0 <= i < |keys| ==> keys[i] !in seen
  }

  lemma {:induction false} MembersScanned(ms: Members, rest: seq<byte>, depth: nat, seen: set<seq<byte>>)
    requires WellFormedMembers(ms)
    ensures ScanMembers(PrintMembers(ms) + rest, depth, seen)
         == Outcome(CleanMembers(ms, depth) && Distinct(Keys(ms)) && NoneIn(Keys(ms), seen), rest)
    decreases ms
  {
    hide SkipBlanks, ScanString, ScanValue, Expect, PrintMember, Print, Blank, RawString, Clean, Distinct, NoneIn;
    var m := ms.m;
    match ms
    case OneMember(_) =>
      var tail := [RBRACE] + rest;
      assert PrintMembers(ms) + rest == PrintMember(m) + tail;
      MemberComplete(m, tail);
      MemberValueScanned(m, RBRACE, rest, depth);
      assert tail[1..] == rest;
      KeysSplit(m.key, [], seen);
      assert Keys(ms) == [m.key] + [];
      NoKeys(seen + {m.key});
    case MoreMembers(_, more) =>
      var tail := [COMMA] + (PrintMembers(more) + rest);
      assert PrintMembers(ms) + rest == PrintMember(m) + tail;
      MemberComplete(m, tail);
      MemberValueScanned(m, COMMA, PrintMembers(more) + rest, depth);
      assert tail[1..] == PrintMembers(more) + rest;
      KeysSplit(m.key, Keys(more), seen);
      MembersScanned(more, rest, depth, seen + {m.key});
  }

  lemma NoKeys(seen: set<seq<byte>>)
    ensures Distinct<seq<byte>>([]) && NoneIn([], seen)
  {
  }

  /** The growing key set finds exactly the repetitions. */
  lemma KeysSplit(key: seq<byte>, rest: seq<seq<byte>>, seen: set<seq<byte>>)
    ensures Distinct([key] + rest) && NoneIn([key] + rest, seen)
       <==> key !in seen && Distinct(rest) && NoneIn(rest, seen + {key})
  {
    var all := [key] + rest;
    assert all[0] == key && forall i :: 0 <= i < |rest| ==> rest[i] == all[i + 1];
  }

  /** A member's value is scanned up to the blanks before the separator `b`. */
  lemma {:induction false} MemberValueScanned(m: Member, b: byte, rest: seq<byte>, depth: nat)
    requires WellFormedMember(m) && (b == COMMA || b == RBRACE)
    ensures ScanValue(m.lead + Print(m.value) + (m.post + ([b] + rest)), depth)
         == Outcome(Clean(m.value, depth), m.post + ([b] + rest))
    ensures SkipBlanks(m.post + ([b] + rest)) == [b] + rest
    decreases m
  {
    hide SkipBlanks, ScanValue, Print, WellFormed, Clean;
    assert m.post + ([b] + rest) == m.post + [b] + rest;
    DelimiterAfter(m.post, b, rest);
    ValueScanned(m.value, m.lead, m.post + ([b] + rest), depth);
  }

  lemma {:induction false} ItemValueScanned(item: Item, b: byte, rest: seq<byte>, depth: nat)
    requires WellFormedItem(item) && (b == COMMA || b == RBRACKET)
    ensures ScanValue(PrintItem(item) + ([b] + rest), depth) == Outcome(Clean(item.value, depth), item.post + ([b] + rest))
    ensures SkipBlanks(item.post + ([b] + rest)) == [b] + rest
    decreases item
  {
    hide SkipBlanks, ScanValue, Print, WellFormed, Clean;
    var tail := item.post + ([b] + rest);
    assert tail == item.post + [b] + rest;
    DelimiterAfter(item.post, b, rest);
    ValueScanned(item.value, item.lead, tail, depth);
    assert PrintItem(item) + ([b] + rest) == item.lead + Print(item.value) + tail;
  }

  lemma {:induction false} ItemsScanned(items: Items, rest: seq<byte>, depth: nat)
    requires WellFormedItems(items)
    ensures ScanItems(PrintItems(items) + rest, depth) == Outcome(CleanItems(items, depth), rest)
    decreases items
  {
    hide SkipBlanks, ScanValue, PrintItem, WellFormedItem, Clean;
    var item := items.item;
    match items
    case OneItem(_) =>
      assert PrintItems(items) + rest == PrintItem(item) + ([RBRACKET] + rest);
      ItemValueScanned(item, RBRACKET, rest, depth);
      assert ([RBRACKET] + rest)[1..] == rest;
    case MoreItems(_, more) =>
      var tail := PrintItems(more) + rest;
      assert PrintItems(items) + rest == PrintItem(item) + ([COMMA] + tail);
      ItemValueScanned(item, COMMA, tail, depth);
      assert ([COMMA] + tail)[1..] == tail;
      ItemsScanned(more, rest, depth);
  }

  // ----- soundness: whatever is accepted is a valid printed tree -----

  /** Blanks in front of a non-blank byte are empty. */
  lemma NoPad(pad: seq<byte>, t: seq<byte>)
    requires Blank(pad) && t != [] && !IsBlank(t[0]) && pad <= t
    ensures pad == []
  {
  }

  lemma {:induction false} ValueSound(s: seq<byte>, depth: nat) returns (lead: seq<byte>, v: Value)
    requires ScanValue(s, depth).Some?
    ensures Blank(lead) && WellFormed(v) && Clean(v, depth)
    ensures s == lead + Print(v) + ScanValue(s, depth).value && Follows(v, ScanValue(s, depth).value)
    decreases |s|, 3
  {
    hide SkipBlanks, ScanScalar, ScanString, ScanObject, ScanArray, Blank, RawString, ScalarToken;
    lead := SkipBlanksSplits(s);
    var t := SkipBlanks(s);
    var rest := ScanValue(s, depth).value;
    if t[0] == LBRACE {
      v := ObjectSound(t, depth);
    } else if t[0] == LBRACKET {
      v := ArraySound(t, depth);
    } else if t[0] == QUOTE {
      var pad := ScanStringSound(t);
      NoPad(pad, t);
      v := Str(ScanString(t).value.0);
    } else {
      var token := ScalarSound(t);
      v := Scalar(token);
    }
    assert t == Print(v) + rest;
    assert s == lead + (Print(v) + rest);
  }

  lemma {:induction false} ObjectSound(s: seq<byte>, depth: nat) returns (v: Value)
    requires s != [] && s[0] == LBRACE && depth < MAX_JSON_DEPTH && ScanObject(s, depth).Some?
    ensures WellFormed(v) && Clean(v, depth) && !v.Scalar? && s == Print(v) + ScanObject(s, depth).value
    decreases |s|, 2
  {
    hide SkipBlanks, ScanMembers, Expect, Blank, Distinct;
    var rest := ScanObject(s, depth).value;
    var none := ExpectSplits(s, LBRACE);
    NoPad(none, s);
    var body := Expect(s, LBRACE).value;
    assert s == [LBRACE] + body;
    var pad := SkipBlanksSplits(body);
    var t := SkipBlanks(body);
    if t != [] && t[0] == RBRACE {
      v := EmptyObject(pad);
      assert t == [RBRACE] + rest;
      assert s == [LBRACE] + pad + [RBRACE] + rest;
    } else {
      MembersSkip(body, depth + 1);
      var members := MembersSound(body, depth + 1, {});
      v := Object(members);
    }
  }

  lemma {:induction false} ArraySound(s: seq<byte>, depth: nat) returns (v: Value)
    requires s != [] && s[0] == LBRACKET && depth < MAX_JSON_DEPTH && ScanArray(s, depth).Some?
    ensures WellFormed(v) && Clean(v, depth) && !v.Scalar? && s == Print(v) + ScanArray(s, depth).value
    decreases |s|, 2
  {
    hide SkipBlanks, ScanItems, Expect, Blank;
    var rest := ScanArray(s, depth).value;
    var none := ExpectSplits(s, LBRACKET);
    NoPad(none, s);
    var body := Expect(s, LBRACKET).value;
    assert s == [LBRACKET] + body;
    var pad := SkipBlanksSplits(body);
    var t := SkipBlanks(body);
    if t != [] && t[0] == RBRACKET {
      v := EmptyArray(pad);
      assert t == [RBRACKET] + rest;
      assert s == [LBRACKET] + pad + [RBRACKET] + rest;
    } else {
      ItemsSkip(body, depth + 1);
      var items := ItemsSound(body, depth + 1);
      v := Array(items);
    }
  }

  /** One member: what was read up to the blanks after its value is a printed member. */
  lemma {:induction false} MemberSound(s: seq<byte>, depth: nat) returns (m: Member)
    requires ScanString(SkipBlanks(s)).Some?
    requires Expect(ScanString(SkipBlanks(s)).value.1, COLON).Some?
    requires ScanValue(Expect(ScanString(SkipBlanks(s)).value.1, COLON).value, depth).Some?
    ensures WellFormedMember(m) && Clean(m.value, depth) && m.key == ScanString(SkipBlanks(s)).value.0
    ensures s == PrintMember(m) + SkipBlanks(ScanValue(Expect(ScanString(SkipBlanks(s)).value.1, COLON).value, depth).value)
    decreases |s|, 3
  {
    hide SkipBlanks, ScanString, Expect, ScanValue, Print, Blank, RawString, WellFormed, Clean;
    var pre := SkipBlanksSplits(s);
    var t := SkipBlanks(s);
    var none := ScanStringSound(t);
    var (key, afterKey) := ScanString(t).value;
    assert none <= t;
    NoPad(none, t);
    var mid := ExpectSplits(afterKey, COLON);
    var afterColon := Expect(afterKey, COLON).value;
    var lead, v := ValueSound(afterColon, depth);
    var afterValue := ScanValue(afterColon, depth).value;
    var post := SkipBlanksSplits(afterValue);
    var tail := SkipBlanks(afterValue);
    m := Member(pre, key, mid, lead, v, post);
    MemberAssembled(s, m, t, afterKey, afterColon, afterValue, tail);
  }

  lemma MemberAssembled(s: seq<byte>, m: Member, t: seq<byte>, afterKey: seq<byte>, afterColon: seq<byte>,
                        afterValue: seq<byte>, tail: seq<byte>)
    requires s == m.pre + t && t == [] + [QUOTE] + m.key + [QUOTE] + afterKey
    requires afterKey == m.mid + [COLON] + afterColon && afterColon == m.lead + Print(m.value) + afterValue
    requires afterValue == m.post + tail
    ensures s == PrintMember(m) + tail
  {
    hide Print;
    assert t == [QUOTE] + m.key + [QUOTE] + m.mid + [COLON] + m.lead + Print(m.value) + m.post + tail;
  }

  lemma {:induction false} MembersSound(s: seq<byte>, depth: nat, keys: set<seq<byte>>) returns (ms: Members)
    requires ScanMembers(s, depth, keys).Some?
    ensures WellFormedMembers(ms) && CleanMembers(ms, depth) && Distinct(Keys(ms))
    ensures NoneIn(Keys(ms), keys)
    ensures s == PrintMembers(ms) + ScanMembers(s, depth, keys).value
    decreases |s|, 4
  {
    hide SkipBlanks, ScanString, Expect, ScanValue, PrintMember, WellFormedMember, Clean, Distinct, NoneIn;
    var rest := ScanMembers(s, depth, keys).value;
    var m := MemberSound(s, depth);
    var tail := SkipBlanks(ScanValue(Expect(ScanString(SkipBlanks(s)).value.1, COLON).value, depth).value);
    assert |tail| < |s| by { TailShorter(s, depth); }
    if tail[0] == RBRACE {
      ms := OneMember(m);
      KeysSplit(m.key, [], keys);
      NoKeys(keys + {m.key});
      assert Keys(ms) == [m.key] + [];
      assert tail == [RBRACE] + rest;
    } else {
      assert tail == [COMMA] + tail[1..];
      var more := MembersSound(tail[1..], depth, keys + {m.key});
      ms := MoreMembers(m, more);
      KeysSplit(m.key, Keys(more), keys);
      assert s == PrintMember(m) + [COMMA] + PrintMembers(more) + rest;
    }
  }

  lemma TailShorter(s: seq<byte>, depth: nat)
    requires ScanString(SkipBlanks(s)).Some?
    requires Expect(ScanString(SkipBlanks(s)).value.1, COLON).Some?
    requires ScanValue(Expect(ScanString(SkipBlanks(s)).value.1, COLON).value, depth).Some?
    ensures |SkipBlanks(ScanValue(Expect(ScanString(SkipBlanks(s)).value.1, COLON).value, depth).value)| < |s|
  {
    hide SkipBlanks, ScanString, Expect, ScanValue;
  }

  lemma {:induction false} ItemsSound(s: seq<byte>, depth: nat) returns (items: Items)
    requires ScanItems(s, depth).Some?
    ensures WellFormedItems(items) && CleanItems(items, depth) && s == PrintItems(items) + ScanItems(s, depth).value
    decreases |s|, 4
  {
    hide SkipBlanks, ScanValue, Print, Blank, WellFormed, Clean;
    var rest := ScanItems(s, depth).value;
    var lead, v := ValueSound(s, depth);
    var afterValue := ScanValue(s, depth).value;
    var post := SkipBlanksSplits(afterValue);
    var tail := SkipBlanks(afterValue);
    var item := Item(lead, v, post);
    assert s == PrintItem(item) + tail;
    if tail[0] == RBRACKET {
      items := OneItem(item);
      assert tail == [RBRACKET] + rest;
    } else {
      assert tail == [COMMA] + tail[1..];
      var more := ItemsSound(tail[1..], depth);
      items := MoreItems(item, more);
      assert s == PrintItem(item) + [COMMA] + PrintItems(more) + rest;
    }
  }

  // ----- the scanner is exact -----

  /**
   A byte string is accepted exactly when it is optional blanks followed by one printed
   value in which no object, at any depth, repeats a raw member name and nesting stays
   within the limit. Blanks after the value are refused.
   */
  lemma Exact(bytes: seq<byte>)
    ensures Accepts(bytes) <==> Document(bytes)
  {
    hide ScanValue, Print, WellFormed, Clean, Blank;
    if Accepts(bytes) {
      var lead, v := ValueSound(bytes, 0);
      assert bytes == lead + Print(v);
    }
    if Document(bytes) {
      var lead, v :| Blank(lead) && WellFormed(v) && Clean(v, 0) && bytes == lead + Print(v);
      ValueScanned(v, lead, [], 0);
      assert lead + Print(v) + [] == bytes;
    }
  }

  /**
   On a document whose syntax is right, whatever its tree, the verdict is exactly whether
   some object repeats a raw member name or nesting passes the limit.
   */
  lemma VerdictOnTree(lead: seq<byte>, v: Value)
    requires Blank(lead) && WellFormed(v)
    ensures Accepts(lead + Print(v)) <==> Clean(v, 0)
  {
    hide ScanValue, Print, WellFormed, Clean, Blank;
    ValueScanned(v, lead, [], 0);
    assert lead + Print(v) + [] == lead + Print(v);
  }

  /** `n` arrays, one inside the other. */
  function Nest(n: nat): (v: Value)
    ensures v.EmptyArray? || v.Array?
  {
    if n <= 1 then EmptyArray([]) else Array(OneItem(Item([], Nest(n - 1), [])))
  }

  lemma {:induction false} NestMeaning(n: nat, depth: nat)
    requires n >= 1
    ensures WellFormed(Nest(n))
    ensures Clean(Nest(n), depth) <==> depth + n <= 64
  {
    if n > 1 { NestMeaning(n - 1, depth + 1); }
  }

  /** Nesting is refused exactly past 64 levels. */
  lemma NestingLimit(n: nat)
    requires n >= 1
    ensures Accepts(Print(Nest(n))) <==> n <= 64
  {
    hide Accepts, Print, WellFormed, Clean;
    NestMeaning(n, 0);
    VerdictOnTree([], Nest(n));
    assert [] + Print(Nest(n)) == Print(Nest(n));
  }

  // ----- the scanner as it runs -----

  /** The result of a string scan whose first raw bytes were already read. */
  function Prepended(read: seq<byte>, r: Option<(seq<byte>, seq<byte>)>): Option<(seq<byte>, seq<byte>)> {
    if r.None? then None else Some((read + r.value.0, r.value.1))
  }

  lemma PrependNothing(r: Option<(seq<byte>, seq<byte>)>)
    ensures Prepended([], r) == r
  {
    if r.Some? { assert [] + r.value.0 == r.value.0; }
  }

  /** One turn of the string loop. */
  lemma StringBodyStep(bytes: seq<byte>, start: nat, offset: nat)
    requires start <= offset < |bytes|
    ensures var r := Prepended(bytes[start..offset], StringBody(bytes[offset..]));
      var b := bytes[offset];
      if b == QUOTE then r == Some((bytes[start..offset], bytes[offset + 1..]))
      else if b == BACKSLASH then
        if offset + 1 == |bytes| then r.None?
        else r == Prepended(bytes[start..offset + 2], StringBody(bytes[offset + 2..]))
      else if b < 0x20 then r.None?
      else r == Prepended(bytes[start..offset + 1], StringBody(bytes[offset + 1..]))
  {
    var s := bytes[offset..];
    assert s[1..] == bytes[offset + 1..];
    if s[0] == QUOTE {
      assert bytes[start..offset] + [] == bytes[start..offset];
    } else {
      var n := if s[0] == BACKSLASH then 2 else 1;
      if n <= |s| {
        assert s[n..] == bytes[offset + n..];
        assert bytes[start..offset + n] == bytes[start..offset] + s[..n];
        if StringBody(s[n..]).Some? {
          var tail := StringBody(s[n..]).value.0;
          assert bytes[start..offset] + (s[..n] + tail) == bytes[start..offset] + s[..n] + tail;
        }
      }
    }
  }

  lemma NoString()
    ensures StringBody([]).None?
  {
  }

  /** One turn of the scalar loop. */
  lemma WordStep(bytes: seq<byte>, start: nat, offset: nat)
    requires start <= offset < |bytes| && !IsDelimiter(bytes[offset])
    ensures bytes[start..offset] + Word(bytes[offset..]) == bytes[start..offset + 1] + Word(bytes[offset + 1..])
  {
    var s := bytes[offset..];
    assert s[1..] == bytes[offset + 1..];
    assert bytes[start..offset + 1] == bytes[start..offset] + [s[0]];
    assert bytes[start..offset] + ([s[0]] + Word(s[1..])) == bytes[start..offset] + [s[0]] + Word(s[1..]);
  }

  lemma WordEnds(s: seq<byte>)
    requires s == [] || IsDelimiter(s[0])
    ensures Word(s) == []
  {
  }

  /** Where the scalar loop stops, the bytes passed over are the whole token. */
  lemma ScalarEnds(bytes: seq<byte>, start: nat, offset: nat)
    requires start <= offset <= |bytes| && (offset == |bytes| || IsDelimiter(bytes[offset]))
    requires Word(bytes[start..]) == bytes[start..offset] + Word(bytes[offset..])
    ensures ScanScalar(bytes[start..]) ==
            if ScalarToken(bytes[start..offset]) then Some(bytes[offset..]) else None
  {
    hide ScalarToken, IsDelimiter;
    WordEnds(bytes[offset..]);
    assert Word(bytes[start..]) == bytes[start..offset];
    assert bytes[start..][offset - start..] == bytes[offset..];
  }

  class StrictKeyScanner {
    const bytes: seq<byte>
    var offset: nat
    var depth: nat

    ghost predicate Valid()
      reads this
    {
      offset <= |bytes|
    }

    /** The unread bytes. */
    ghost function Rest(): seq<byte>
      requires Valid()
      reads this
    {
      bytes[offset..]
    }

    constructor (bytes: seq<byte>)
      ensures this.bytes == bytes && Valid() && offset == 0 && depth == 0
    {
      this.bytes, offset, depth := bytes, 0, 0;
    }

    method SkipWhitespace()
      requires Valid()
      modifies `offset
      ensures Valid() && old(offset) <= offset
      ensures Rest() == SkipBlanks(old(Rest()))
    {
      while offset < |bytes| && IsBlank(bytes[offset])
        invariant Valid() && old(offset) <= offset
        invariant SkipBlanks(Rest()) == SkipBlanks(old(Rest()))
      {
        assert bytes[offset..][1..] == bytes[offset + 1..];
        offset := offset + 1;
      }
    }

    method ExpectByte(b: byte) returns (ok: bool)
      requires Valid()
      modifies `offset
      ensures Valid() && old(offset) <= offset
      ensures ok == Expect(old(Rest()), b).Some?
      ensures ok ==> Rest() == Expect(old(Rest()), b).value
    {
      hide SkipBlanks;
      SkipWhitespace();
      ok := offset < |bytes| && bytes[offset] == b;
      if ok {
        assert bytes[offset..][1..] == bytes[offset + 1..];
        offset := offset + 1;
      }
    }

    method StringToken() returns (key: Option<seq<byte>>)
      requires Valid()
      modifies `offset
      ensures Valid() && old(offset) <= offset
      ensures key.Some? == ScanString(old(Rest())).Some?
      ensures key.Some? ==> ScanString(old(Rest())).value == (key.value, Rest())
    {
      hide Expect, StringBody;
      var ok := ExpectByte(QUOTE);
      if !ok { return None; }
      var start := offset;
      ghost var goal := StringBody(Rest());
      assert goal == Prepended(bytes[start..start], goal) by {
        assert bytes[start..start] == [];
        PrependNothing(goal);
      }
      while offset < |bytes|
        invariant Valid() && start <= offset && old(offset) <= offset
        invariant goal == Prepended(bytes[start..offset], StringBody(Rest()))
      {
        var byte := bytes[offset];
        StringBodyStep(bytes, start, offset);
        if byte == QUOTE {
          key := Some(bytes[start..offset]);
          offset := offset + 1;
          return;
        } else if byte == BACKSLASH {
          offset := offset + 1;
          if offset == |bytes| { return None; }
          offset := offset + 1;
        } else if byte < 0x20 {
          return None;
        } else {
          offset := offset + 1;
        }
      }
      assert StringBody([]).None? by { NoString(); }
      return None;
    }

    method ScalarWord() returns (ok: bool)
      requires Valid()
      modifies `offset
      ensures Valid() && old(offset) <= offset
      ensures ok == ScanScalar(old(Rest())).Some?
      ensures ok ==> Rest() == ScanScalar(old(Rest())).value
    {
      hide ScalarToken, Word, IsDelimiter, ScanScalar;
      var start := offset;
      while offset < |bytes| && !IsDelimiter(bytes[offset])
        invariant Valid() && start <= offset
        invariant Word(bytes[start..]) == bytes[start..offset] + Word(bytes[offset..])
      {
        WordStep(bytes, start, offset);
        offset := offset + 1;
      }
      var literal := bytes[start..offset];
      ScalarEnds(bytes, start, offset);
      if offset == start {
        assert !ScalarToken([]) by { NoEmptyToken(); }
        return false;
      }
      return ScalarToken(literal);
    }

    method Value() returns (ok: bool)
      requires Valid()
      modifies this
      ensures Valid() && old(offset) <= offset
      ensures ok == ScanValue(old(Rest()), old(depth)).Some?
      ensures ok ==> Rest() == ScanValue(old(Rest()), old(depth)).value && depth == old(depth)
      decreases |bytes| - offset, 3
    {
      hide SkipBlanks, ScanString, ScanScalar, ScanObject, ScanArray;
      if depth >= MAX_JSON_DEPTH { return false; }
      SkipWhitespace();
      if offset == |bytes| { return false; }
      if bytes[offset] == LBRACE {
        ok := ObjectValue();
      } else if bytes[offset] == LBRACKET {
        ok := ArrayValue();
      } else if bytes[offset] == QUOTE {
        var key := StringToken();
        ok := key.Some?;
      } else {
        ok := ScalarWord();
      }
    }

    method ObjectValue() returns (ok: bool)
      requires Valid()
      modifies this
      ensures Valid() && old(offset) <= offset
      ensures ok == ScanObject(old(Rest()), old(depth)).Some?
      ensures ok ==> Rest() == ScanObject(old(Rest()), old(depth)).value && depth == old(depth)
      decreases |bytes| - offset, 2
    {
      hide SkipBlanks, Expect, ScanString, ScanValue, ScanMembers;
      ghost var whole := Rest();
      ok := ExpectByte(LBRACE);
      if !ok { return false; }
      depth := depth + 1;
      SkipWhitespace();
      if offset < |bytes| && bytes[offset] == RBRACE {
        assert Rest()[1..] == bytes[offset + 1..];
        offset, depth := offset + 1, depth - 1;
        return true;
      }
      ok := MemberLoop();
      if ok { depth := depth - 1; }
    }

    /** The member loop, with the set of names seen so far. */
    method MemberLoop() returns (ok: bool)
      requires Valid()
      modifies this
      ensures Valid() && old(offset) <= offset
      ensures ok == ScanMembers(old(Rest()), old(depth), {}).Some?
      ensures ok ==> Rest() == ScanMembers(old(Rest()), old(depth), {}).value && depth == old(depth)
      decreases |bytes| - offset, 4
    {
      hide SkipBlanks, Expect, ScanString, ScanValue;
      var keys: set<seq<byte>> := {};
      ghost var goal := ScanMembers(Rest(), depth, {});
      while true
        invariant Valid() && old(offset) <= offset && depth == old(depth)
        invariant goal == ScanMembers(Rest(), depth, keys)
        decreases |bytes| - offset
      {
        SkipWhitespace();
        var key := StringToken();
        if key.None? || key.value in keys { return false; }
        keys := keys + {key.value};
        ok := ExpectByte(COLON);
        if !ok { return false; }
        ok := Value();
        if !ok { return false; }
        SkipWhitespace();
        if offset == |bytes| { return false; }
        assert Rest()[1..] == bytes[offset + 1..];
        if bytes[offset] == COMMA {
          offset := offset + 1;
        } else if bytes[offset] == RBRACE {
          offset := offset + 1;
          return true;
        } else {
          return false;
        }
      }
    }

    method ArrayValue() returns (ok: bool)
      requires Valid()
      modifies this
      ensures Valid() && old(offset) <= offset
      ensures ok == ScanArray(old(Rest()), old(depth)).Some?
      ensures ok ==> Rest() == ScanArray(old(Rest()), old(depth)).value && depth == old(depth)
      decreases |bytes| - offset, 2
    {
      hide SkipBlanks, Expect, ScanValue, ScanItems;
      ok := ExpectByte(LBRACKET);
      if !ok { return false; }
      depth := depth + 1;
      SkipWhitespace();
      if offset < |bytes| && bytes[offset] == RBRACKET {
        assert Rest()[1..] == bytes[offset + 1..];
        offset, depth := offset + 1, depth - 1;
        return true;
      }
      ok := ItemLoop();
      if ok { depth := depth - 1; }
    }

    method ItemLoop() returns (ok: bool)
      requires Valid()
      modifies this
      ensures Valid() && old(offset) <= offset
      ensures ok == ScanItems(old(Rest()), old(depth)).Some?
      ensures ok ==> Rest() == ScanItems(old(Rest()), old(depth)).value && depth == old(depth)
      decreases |bytes| - offset, 4
    {
      hide SkipBlanks, ScanValue;
      ghost var goal := ScanItems(Rest(), depth);
      while true
        invariant Valid() && old(offset) <= offset && depth == old(depth)
        invariant goal == ScanItems(Rest(), depth)
        decreases |bytes| - offset
      {
        ok := Value();
        if !ok { return false; }
        SkipWhitespace();
        if offset == |bytes| { return false; }
        assert Rest()[1..] == bytes[offset + 1..];
        if bytes[offset] == COMMA {
          offset := offset + 1;
        } else if bytes[offset] == RBRACKET {
          offset := offset + 1;
          return true;
        } else {
          return false;
        }
      }
    }
  }

  lemma NoEmptyToken()
    ensures !ScalarToken([])
  {
  }

  /** The whole pass: it accepts exactly the documents of the grammar. */
  method RejectDuplicateObjectKeys(bytes: seq<byte>) returns (ok: bool)
    ensures ok <==> Document(bytes)
  {
    hide ScanValue, Document;
    var scanner := new StrictKeyScanner(bytes);
    assert scanner.Rest() == bytes;
    ok := scanner.Value();
    ok := ok && scanner.offset == |bytes|;
    assert ok == Accepts(bytes);
    Exact(bytes);
  }
}
