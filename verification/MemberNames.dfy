/**
 The names that raw member spellings denote, and what a scan that compares raw spellings says
 about repeated names.
 */
module MemberNames {
  import opened Wrappers
  import opened Bytes
  import opened Text
  import opened Json
  import opened KeyScanner

  // ----- the name of a spelling (section 7 of RFC 8259), as UTF-8 bytes -----

  function HexDigit(b: byte): Option<nat> {
    if 0x30 <= b <= 0x39 then Some(b - 0x30)
    else if 0x41 <= b <= 0x46 then Some(b - 0x41 + 10)
    else if 0x61 <= b <= 0x66 then Some(b - 0x61 + 10)
    else None
  }

  /** The code unit of `\uXXXX` at the front. */
  function CodeUnit(raw: seq<byte>): (r: Option<nat>)
    ensures r.Some? ==> |raw| >= 6 && r.value < 0x1_0000
  {
    if |raw| < 6 || raw[0] != BACKSLASH || raw[1] != 0x75 then None
    else
      var a, b, c, d := HexDigit(raw[2]), HexDigit(raw[3]), HexDigit(raw[4]), HexDigit(raw[5]);
      if a.None? || b.None? || c.None? || d.None? then None
      else Some(((a.value * 16 + b.value) * 16 + c.value) * 16 + d.value)
  }

  predicate HighSurrogate(unit: nat) { 0xd800 <= unit < 0xdc00 }

  predicate LowSurrogate(unit: nat) { 0xdc00 <= unit < 0xe000 }

  function Utf8(c: nat): seq<byte>
    requires c < 0x11_0000
  {
    if c < 0x80 then [c]
    else if c < 0x800 then [0xc0 + c / 0x40, 0x80 + c % 0x40]
    else if c < 0x1_0000 then [0xe0 + c / 0x1000, 0x80 + c / 0x40 % 0x40, 0x80 + c % 0x40]
    else [0xf0 + c / 0x4_0000, 0x80 + c / 0x1000 % 0x40, 0x80 + c / 0x40 % 0x40, 0x80 + c % 0x40]
  }

  /** The two-character escapes. */
  function ShortEscape(b: byte): Option<byte> {
    if b == QUOTE || b == BACKSLASH || b == 0x2f then Some(b)
    else if b == 0x62 then Some(0x08)
    else if b == 0x66 then Some(0x0c)
    else if b == 0x6e then Some(0x0a)
    else if b == 0x72 then Some(0x0d)
    else if b == 0x74 then Some(0x09)
    else None
  }

  /** The first character of a spelling: its bytes, and how much of the spelling it takes. */
  function FirstCharacter(raw: seq<byte>): (r: Option<(seq<byte>, nat)>)
    requires raw != []
    ensures r.Some? ==> 0 < r.value.1 <= |raw|
  {
    if raw[0] != BACKSLASH then Some(([raw[0]], 1))
    else if |raw| < 2 then None
    else if raw[1] != 0x75 then
      if ShortEscape(raw[1]).Some? then Some(([ShortEscape(raw[1]).value], 2)) else None
    else
      var unit := CodeUnit(raw);
      if unit.None? || LowSurrogate(unit.value) then None
      else if !HighSurrogate(unit.value) then Some((Utf8(unit.value), 6))
      else
        var low := CodeUnit(raw[6..]);
        if low.None? || !LowSurrogate(low.value) then None
        else Some((Utf8(0x1_0000 + (unit.value - 0xd800) * 0x400 + (low.value - 0xdc00)), 12))
  }

  /** The name a spelling denotes; `None` for one with a malformed escape. */
  function Name(raw: seq<byte>): Option<seq<byte>> {
    if raw == [] then Some([])
    else
      var first := FirstCharacter(raw);
      if first.None? then None
      else
        var rest := Name(raw[first.value.1..]);
        if rest.None? then None else Some(first.value.0 + rest.value)
  }

  /** Two spellings of one name; a spelling is always one of its own. */
  predicate SameName(a: seq<byte>, b: seq<byte>) { a == b || (Name(a).Some? && Name(a) == Name(b)) }

  // ----- trees -----

  ghost predicate NamesDistinct(keys: seq<seq<byte>>) {
    forall i, j :: 0 <= i < j < |keys| ==> !SameName(keys[i], keys[j])
  }

  /** No two different spellings of one name. */
  ghost predicate NoRespelling(keys: seq<seq<byte>>) {
    forall i, j :: 0 <= i < j < |keys| && SameName(keys[i], keys[j]) ==> keys[i] == keys[j]
  }

  ghost predicate NoBackslash(keys: seq<seq<byte>>) {
    forall i :: 0 <= i < |keys| ==> BACKSLASH !in keys[i]
  }

  /** The member names of every object in `v`, at any depth, satisfy `p`. */
  ghost predicate EveryObject(v: Value, p: seq<seq<byte>> -> bool) {
    match v
    case Object(members) => p(Keys(members)) && EveryMember(members, p)
    case Array(items) => EveryItem(items, p)
    case _ => true
  }

  ghost predicate EveryMember(ms: Members, p: seq<seq<byte>> -> bool) {
    match ms
    case OneMember(m) => EveryObject(m.value, p)
    case MoreMembers(m, rest) => EveryObject(m.value, p) && EveryMember(rest, p)
  }

  ghost predicate EveryItem(items: Items, p: seq<seq<byte>> -> bool) {
    match items
    case OneItem(item) => EveryObject(item.value, p)
    case MoreItems(item, rest) => EveryObject(item.value, p) && EveryItem(rest, p)
  }

  /** Nesting stays within the limit. */
  ghost predicate Shallow(v: Value, depth: nat) {
    depth < MAX_JSON_DEPTH &&
    match v
    case Object(members) => ShallowMembers(members, depth + 1)
    case Array(items) => ShallowItems(items, depth + 1)
    case _ => true
  }

  ghost predicate ShallowMembers(ms: Members, depth: nat) {
    match ms
    case OneMember(m) => Shallow(m.value, depth)
    case MoreMembers(m, rest) => Shallow(m.value, depth) && ShallowMembers(rest, depth)
  }

  ghost predicate ShallowItems(items: Items, depth: nat) {
    match items
    case OneItem(item) => Shallow(item.value, depth)
    case MoreItems(item, rest) => Shallow(item.value, depth) && ShallowItems(rest, depth)
  }

  /** What the scanner is for: nesting within the limit, and no object that repeats a name. */
  ghost predicate RepeatsNoName(v: Value) { Shallow(v, 0) && EveryObject(v, NamesDistinct) }

  lemma {:induction false} CleanSplits(v: Value, depth: nat)
    ensures Clean(v, depth) <==> Shallow(v, depth) && EveryObject(v, Distinct)
    decreases v
  {
    hide Distinct;
    match v
    case Object(members) => CleanMembersSplits(members, depth + 1);
    case Array(items) => CleanItemsSplits(items, depth + 1);
    case _ =>
  }

  lemma {:induction false} CleanMembersSplits(ms: Members, depth: nat)
    ensures CleanMembers(ms, depth) <==> ShallowMembers(ms, depth) && EveryMember(ms, Distinct)
    decreases ms
  {
    hide Distinct;
    CleanSplits(ms.m.value, depth);
    if ms.MoreMembers? { CleanMembersSplits(ms.rest, depth); }
  }

  lemma {:induction false} CleanItemsSplits(items: Items, depth: nat)
    ensures CleanItems(items, depth) <==> ShallowItems(items, depth) && EveryItem(items, Distinct)
    decreases items
  {
    hide Distinct;
    CleanSplits(items.item.value, depth);
    if items.MoreItems? { CleanItemsSplits(items.rest, depth); }
  }

  lemma {:induction false} EveryObjectSplits(v: Value, p: seq<seq<byte>> -> bool, q: seq<seq<byte>> -> bool, r: seq<seq<byte>> -> bool)
    requires forall keys :: p(keys) <==> q(keys) && r(keys)
    ensures EveryObject(v, p) <==> EveryObject(v, q) && EveryObject(v, r)
    decreases v
  {
    match v
    case Object(members) => EveryMemberSplits(members, p, q, r);
    case Array(items) => EveryItemSplits(items, p, q, r);
    case _ =>
  }

  lemma {:induction false} EveryMemberSplits(ms: Members, p: seq<seq<byte>> -> bool, q: seq<seq<byte>> -> bool, r: seq<seq<byte>> -> bool)
    requires forall keys :: p(keys) <==> q(keys) && r(keys)
    ensures EveryMember(ms, p) <==> EveryMember(ms, q) && EveryMember(ms, r)
    decreases ms
  {
    EveryObjectSplits(ms.m.value, p, q, r);
    if ms.MoreMembers? { EveryMemberSplits(ms.rest, p, q, r); }
  }

  lemma {:induction false} EveryItemSplits(items: Items, p: seq<seq<byte>> -> bool, q: seq<seq<byte>> -> bool, r: seq<seq<byte>> -> bool)
    requires forall keys :: p(keys) <==> q(keys) && r(keys)
    ensures EveryItem(items, p) <==> EveryItem(items, q) && EveryItem(items, r)
    decreases items
  {
    EveryObjectSplits(items.item.value, p, q, r);
    if items.MoreItems? { EveryItemSplits(items.rest, p, q, r); }
  }

  // ----- names against spellings -----

  lemma NamesAndSpellings(keys: seq<seq<byte>>)
    ensures NamesDistinct(keys) <==> Distinct(keys) && NoRespelling(keys)
  {
    hide Name;
    if Distinct(keys) && NoRespelling(keys) {
      forall i, j | 0 <= i < j < |keys| ensures !SameName(keys[i], keys[j]) {
        assert keys[i] != keys[j];
      }
    }
    if NamesDistinct(keys) {
      forall i, j | 0 <= i < j < |keys| ensures keys[i] != keys[j] {
        assert !SameName(keys[i], keys[j]);
      }
    }
  }

  lemma {:induction false} PlainName(raw: seq<byte>)
    requires BACKSLASH !in raw
    ensures Name(raw) == Some(raw)
  {
    if raw != [] {
      PlainName(raw[1..]);
      assert [raw[0]] + raw[1..] == raw;
    }
  }

  lemma PlainSpellings(keys: seq<seq<byte>>)
    ensures NoBackslash(keys) <==> NoBackslash(keys) && NoRespelling(keys)
  {
    hide Name;
    if NoBackslash(keys) {
      forall i, j | 0 <= i < j < |keys| && SameName(keys[i], keys[j]) ensures keys[i] == keys[j] {
        PlainName(keys[i]);
        PlainName(keys[j]);
      }
    }
  }

  /**
   For every well-formed document: no object repeats a name and nesting fits exactly when
   the scan accepts and no object spells one name in two ways. So an accepted document
   repeats a name exactly where it respells one.
   */
  lemma NamesVerdict(lead: seq<byte>, v: Value)
    requires Blank(lead) && WellFormed(v)
    ensures RepeatsNoName(v) <==> Accepts(lead + Print(v)) && EveryObject(v, NoRespelling)
  {
    hide EveryObject, Shallow, Clean, Accepts, Blank, WellFormed, Distinct, NamesDistinct, NoRespelling;
    VerdictOnTree(lead, v);
    CleanSplits(v, 0);
    forall keys ensures NamesDistinct(keys) <==> Distinct(keys) && NoRespelling(keys) { NamesAndSpellings(keys); }
    EveryObjectSplits(v, NamesDistinct, Distinct, NoRespelling);
  }

  /** Where no member name has a backslash, the scan accepts exactly when no object repeats a name and nesting fits. */
  lemma UnescapedVerdict(lead: seq<byte>, v: Value)
    requires Blank(lead) && WellFormed(v) && EveryObject(v, NoBackslash)
    ensures Accepts(lead + Print(v)) <==> RepeatsNoName(v)
  {
    hide EveryObject, RepeatsNoName, Accepts, Blank, WellFormed, NoBackslash, NoRespelling;
    NamesVerdict(lead, v);
    forall keys ensures NoBackslash(keys) <==> NoBackslash(keys) && NoRespelling(keys) { PlainSpellings(keys); }
    EveryObjectSplits(v, NoBackslash, NoBackslash, NoRespelling);
  }

  // ----- where the scan lets a repeated name through -----

  /** `{"k1":0,"k2":0}`. */
  function TwoMembers(k1: seq<byte>, k2: seq<byte>): Value {
    var zero := Scalar([0x30]);
    Object(MoreMembers(Member([], k1, [], [], zero, []), OneMember(Member([], k2, [], [], zero, []))))
  }

  /** Names are compared as written: this document is refused exactly when the two spellings are equal. */
  lemma RawSpellingsCompared(k1: seq<byte>, k2: seq<byte>)
    requires RawString(k1) && RawString(k2)
    ensures WellFormed(TwoMembers(k1, k2))
    ensures Accepts(Print(TwoMembers(k1, k2))) <==> k1 != k2
    ensures EveryObject(TwoMembers(k1, k2), NamesDistinct) <==> !SameName(k1, k2)
  {
    hide Name;
    var zero := Scalar([0x30]);
    var m1, m2 := Member([], k1, [], [], zero, []), Member([], k2, [], [], zero, []);
    var members := MoreMembers(m1, OneMember(m2));
    var v := TwoMembers(k1, k2);
    assert v == Object(members);
    assert WellFormed(zero) && Clean(zero, 1) && EveryObject(zero, NamesDistinct);
    assert WellFormedMember(m1) && WellFormedMember(m2);
    assert Keys(OneMember(m2)) == [k2] && WellFormedMembers(OneMember(m2)) && CleanMembers(OneMember(m2), 1);
    assert EveryMember(OneMember(m2), NamesDistinct) && EveryMember(members, NamesDistinct);
    var keys := Keys(members);
    assert keys == [k1, k2];
    assert Distinct(keys) <==> k1 != k2 by {
      if Distinct(keys) { assert keys[0] != keys[1]; }
    }
    assert NamesDistinct(keys) <==> !SameName(k1, k2) by {
      if NamesDistinct(keys) { assert !SameName(keys[0], keys[1]); }
    }
    assert CleanMembers(members, 1);
    assert Clean(v, 0) <==> k1 != k2;
    VerdictOnTree([], v);
    assert [] + Print(v) == Print(v);
  }

  function DigitByte(n: nat): byte
    requires n < 16
  {
    if n < 10 then 0x30 + n else 0x61 + n - 10
  }

  /** A character below 0x80 as `\u00XX`. */
  function Escaped(b: byte): seq<byte>
    requires b < 0x80
  {
    [BACKSLASH, 0x75, 0x30, 0x30, DigitByte(b / 16), DigitByte(b % 16)]
  }

  lemma EscapedFirst(b: byte, rest: seq<byte>)
    requires b < 0x80
    ensures FirstCharacter(Escaped(b) + rest) == Some(([b], 6))
    ensures (Escaped(b) + rest)[6..] == rest
  {
    var raw := Escaped(b) + rest;
    assert raw[0] == BACKSLASH && raw[1] == 0x75 && raw[2] == 0x30 && raw[3] == 0x30;
    assert raw[4] == DigitByte(b / 16) && raw[5] == DigitByte(b % 16);
    assert CodeUnit(raw) == Some(b);
  }

  lemma EscapedRaw(b: byte, rest: seq<byte>)
    requires b < 0x80 && RawString(rest)
    ensures RawString(Escaped(b) + rest)
  {
    var raw := Escaped(b) + rest;
    assert raw[2..][1..][1..][1..][1..] == rest;
    assert RawString(raw[2..][1..][1..][1..]);
    assert RawString(raw[2..][1..][1..]);
    assert RawString(raw[2..][1..]);
  }

  /**
   The promise fails for every member name that starts with an unescaped character below
   0x80: escaping that character spells the same name, and a document with both is accepted.
   */
  lemma RespelledNameAccepted(k: seq<byte>)
    requires RawString(k) && k != [] && k[0] != BACKSLASH && k[0] < 0x80 && Name(k).Some?
    ensures var other := Escaped(k[0]) + k[1..];
      && Name(other) == Name(k) && RawString(other)
      && WellFormed(TwoMembers(k, other)) && Accepts(Print(TwoMembers(k, other)))
      && !RepeatsNoName(TwoMembers(k, other))
  {
    hide Accepts, WellFormed, Print, EveryObject;
    var other := Escaped(k[0]) + k[1..];
    EscapedFirst(k[0], k[1..]);
    EscapedRaw(k[0], k[1..]);
    assert other[0] == BACKSLASH;
    RawSpellingsCompared(k, other);
  }

  /** Concretely: `{"a":0,"\u0061":0}` is accepted and repeats the name `a`. */
  lemma RespelledLetterAccepted()
    ensures Name([0x61]) == Name([BACKSLASH, 0x75, 0x30, 0x30, 0x36, 0x31]) == Some([0x61])
    ensures Accepts(Print(TwoMembers([0x61], [BACKSLASH, 0x75, 0x30, 0x30, 0x36, 0x31])))
  {
    hide Accepts, WellFormed, Print, EveryObject;
    var k: seq<byte> := [0x61];
    assert k[1..] == [];
    assert RawString(k);
    assert Escaped(0x61) + [] == [BACKSLASH, 0x75, 0x30, 0x30, 0x36, 0x31];
    PlainName(k);
    RespelledNameAccepted(k);
  }
}
