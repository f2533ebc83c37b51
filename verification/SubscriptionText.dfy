/** Subscription bodies and URLs as text: which lines are entries, and which URLs are accepted. */
module SubscriptionText {
  import opened Wrappers
  import opened Text
  import opened AddressBookErrors
  import opened Hostname
  import opened Subscription

  // ----- splitting at the first and at the last separator -----

  lemma {:induction false} SplitHead(s: string, c: char)
    ensures var p := Split(s, c)[0];
      && c !in p && p <= s
      && (|Split(s, c)| == 1 <==> c !in s)
      && (c in s ==> |p| < |s| && s[|p|] == c)
      && (c !in s ==> p == s)
  {
    if s != [] { SplitHead(s[1..], c); }
  }

  /** `p` is what follows the last `c` in `s`, or all of `s` when there is none. */
  predicate AfterLast(s: string, c: char, p: string, only: bool) {
    && c !in p && |p| <= |s| && s[|s| - |p|..] == p
    && (if only then p == s else |p| < |s| && s[|s| - |p| - 1] == c)
  }

  lemma AfterLastGrows(s: string, c: char, p: string)
    requires s != [] && AfterLast(s[1..], c, p, false)
    ensures AfterLast(s, c, p, false)
  {
    assert s[|s| - |p|..] == s[1..][|s| - 1 - |p|..];
  }

  /** One character in front of text without the separator. */
  lemma AfterLastStarts(a: char, c: char, p: string)
    requires c !in p
    ensures a == c ==> AfterLast([a] + p, c, p, false)
    ensures a != c ==> AfterLast([a] + p, c, [a] + p, true)
  {
    var s := [a] + p;
    assert s[|s| - |p|..] == p && s[|s| - |s|..] == s;
  }

  lemma {:induction false} SplitLast(s: string, c: char)
    ensures var parts := Split(s, c); AfterLast(s, c, parts[|parts| - 1], |parts| == 1)
  {
    if s == [] {
      assert AfterLast([], c, [], true);
    } else {
      hide AfterLast;
      SplitLast(s[1..], c);
      var rest := Split(s[1..], c);
      var p := rest[|rest| - 1];
      if |rest| > 1 {
        AfterLastGrows(s, c, p);
      } else {
        WholeText(s[1..], c, p);
        AfterLastStarts(s[0], c, p);
        assert s == [s[0]] + p;
      }
    }
  }

  lemma WholeText(s: string, c: char, p: string)
    requires AfterLast(s, c, p, true)
    ensures p == s && c !in p
  {
  }

  lemma EmptyAfterLast(s: string, c: char, p: string)
    requires AfterLast(s, c, p, false)
    ensures p == [] ==> s[|s| - 1] == c
  {
  }

  /** The text before and after the first separator is the only such split. */
  lemma FirstSeparator(s: string, c: char, x: string, y: string)
    requires s == x + [c] + y && c !in x
    ensures Split(s, c)[0] == x && |Split(s, c)| > 1 && s[|x| + 1..] == y
  {
    SplitConcat(x, y, c);
    SplitWhole(x, c);
  }

  // ----- one line -----

  /** `line` is `raw` less one trailing carriage return. */
  predicate IsLine(raw: string, line: string) { raw == line + "\r" || (raw == line && !EndsWith(line, "\r")) }

  lemma UnterminatedExact(raw: string, line: string)
    ensures IsLine(raw, line) <==> line == Unterminated(raw)
  {
    if raw == line + "\r" { assert raw[..|line|] == line && raw[|raw| - 1..] == "\r"; }
    if EndsWith(raw, "\r") { assert raw == raw[..|raw| - 1] + "\r"; }
  }

  predicate IsComment(line: string) { line == "" || line[0] == '#' }

  /** `line` is `name=destination`, within its three limits, and `name` is a spelling of `h`. */
  ghost predicate EntryText(lib: Library, line: string, name: string, h: string, d: string) {
    && line == name + "=" + d && '=' !in name
    && |line| <= 8192 && |name| <= 255 && |d| <= 4096
    && IsUtf8(line)
    && ParseHostname(name) == Ok(h)
    && lib.destination(d)
  }

  ghost predicate IsEntry(lib: Library, raw: string, h: string, d: string) {
    exists line, name :: IsLine(raw, line) && !IsComment(line) && EntryText(lib, line, name, h, d)
  }

  lemma EntryLineRead(lib: Library, raw: string, name: string, h: string, d: string)
    requires !IsComment(Unterminated(raw)) && EntryText(lib, Unterminated(raw), name, h, d)
    ensures ReadLine(lib, raw) == Entry(h, d)
  {
    hide IsUtf8, ParseHostname, Split;
    FirstSeparator(Unterminated(raw), '=', name, d);
  }

  lemma ReadEntryText(lib: Library, raw: string, h: string, d: string)
    requires ReadLine(lib, raw) == Entry(h, d)
    ensures !IsComment(Unterminated(raw)) && EntryText(lib, Unterminated(raw), Split(Unterminated(raw), '=')[0], h, d)
  {
    hide IsUtf8, ParseHostname, Split;
    var line := Unterminated(raw);
    SplitHead(line, '=');
    var name := Split(line, '=')[0];
    assert line == name + "=" + line[|name| + 1..];
  }

  /** A line is read as an entry exactly when it is the text of that entry. */
  lemma ReadLineExact(lib: Library, raw: string, h: string, d: string)
    ensures ReadLine(lib, raw) == Entry(h, d) <==> IsEntry(lib, raw, h, d)
  {
    hide ReadLine, EntryText, Split;
    UnterminatedExact(raw, Unterminated(raw));
    if ReadLine(lib, raw) == Entry(h, d) { ReadEntryText(lib, raw, h, d); }
    if IsEntry(lib, raw, h, d) {
      var line, name :| IsLine(raw, line) && !IsComment(line) && EntryText(lib, line, name, h, d);
      UnterminatedExact(raw, line);
      EntryLineRead(lib, raw, name, h, d);
    }
  }

  /** The line has a name and a destination of bearable length. */
  predicate Splits(line: string, name: string, d: string) {
    line == name + "=" + d && '=' !in name && |name| <= 255 && |d| <= 4096
  }

  /** Which lines contribute nothing, and how the others that are no entry fail. */
  lemma ReadLineOther(lib: Library, raw: string, line: string)
    requires IsLine(raw, line)
    ensures ReadLine(lib, raw) == Skip <==> IsComment(line)
    ensures ReadLine(lib, raw) == Bad(BodyOverBound) <==> !IsComment(line) && |line| > 8192
    ensures ReadLine(lib, raw) == Bad(MalformedField) <==>
      !IsComment(line) && |line| <= 8192 && IsUtf8(line) && '=' !in line
    ensures ReadLine(lib, raw).Bad? ==>
      ReadLine(lib, raw).error in {BodyOverBound, MalformedField, InvalidHostname, InvalidDestination}
  {
    hide IsUtf8, Split, ParseHostname, IsLine;
    UnterminatedExact(raw, line);
    SplitHead(line, '=');
    NameErrors(Split(line, '=')[0]);
  }

  /** A line fails for its name exactly when it splits within bounds into a text that is no hostname and a rest. */
  lemma ReadLineBadName(lib: Library, raw: string, line: string)
    requires IsLine(raw, line) && !IsComment(line) && |line| <= 8192 && IsUtf8(line)
    ensures ReadLine(lib, raw) == Bad(InvalidHostname) <==> exists name, d :: Splits(line, name, d) && ParseHostname(name).Err?
  {
    hide IsUtf8, Split, ParseHostname, IsLine;
    UnterminatedExact(raw, line);
    SplitHead(line, '=');
    var name := Split(line, '=')[0];
    NameErrors(name);
    if ReadLine(lib, raw) == Bad(InvalidHostname) {
      assert Splits(line, name, line[|name| + 1..]);
    }
    forall x, d | Splits(line, x, d) ensures '=' in line && x == name && d == line[|name| + 1..] {
      FirstSeparator(line, '=', x, d);
    }
  }

  lemma NameErrors(name: string)
    ensures ParseHostname(name).Err? ==> ParseHostname(name).error == InvalidHostname
  {
  }

  // ----- a whole body -----

  /** Line `i` of `body` is the entry `h`, `d`. */
  ghost predicate EntryAt(lib: Library, body: string, i: nat, h: string, d: string) {
    i < |Split(body, '\n')| && IsEntry(lib, Split(body, '\n')[i], h, d)
  }

  lemma EntryAtExact(lib: Library, body: string, i: nat, h: string, d: string)
    ensures EntryAt(lib, body, i, h, d) <==> i < |Lines(lib, body)| && Lines(lib, body)[i] == Entry(h, d)
  {
    hide ReadLine, IsEntry, Split;
    if i < |Split(body, '\n')| { ReadLineExact(lib, Split(body, '\n')[i], h, d); }
  }

  /** In an accepted body a name has the destination of the last line that is an entry for it, and no other name occurs. */
  lemma IngestText(lib: Library, body: string, h: string, d: string)
    requires Ingest(lib, body).Ok?
    ensures h in Ingest(lib, body).value && Ingest(lib, body).value[h] == d <==>
      exists i: nat :: EntryAt(lib, body, i, h, d) && forall j: nat, e :: i < j ==> !EntryAt(lib, body, j, h, e)
  {
    hide IngestLines, LastWins, EntryAt, ReadLine, Split;
    var lines := Lines(lib, body);
    IngestMeaning(lines);
    LastWinsMeaning(lines, h);
    forall i: nat, e ensures EntryAt(lib, body, i, h, e) <==> LineNames(lines, i, h) && lines[i].destination == e {
      EntryAtExact(lib, body, i, h, e);
    }
    if h in LastWins(lines) {
      var i := LastNaming(lines, h, |lines|);
      assert EntryAt(lib, body, i, h, lines[i].destination);
    }
  }

  lemma {:induction false} LastNaming(lines: seq<Line>, h: string, n: nat) returns (i: nat)
    requires n <= |lines| && (exists j: nat :: j < n && LineNames(lines, j, h)) && (forall j: nat :: n <= j ==> !LineNames(lines, j, h))
    ensures LineNames(lines, i, h) && forall j: nat :: i < j ==> !LineNames(lines, j, h)
  {
    hide LineNames;
    if LineNames(lines, n - 1, h) { i := n - 1; } else { i := LastNaming(lines, h, n - 1); }
  }

  /** A body is accepted exactly when it is bounded, every line is a comment or an entry, and at most 1000 names occur. */
  lemma IngestAccepts(lib: Library, body: string)
    ensures Ingest(lib, body).Ok? <==>
      && |body| <= 1048576
      && LinesGood(lib, Split(body, '\n'))
      && |LastWins(Lines(lib, body))| <= 1000
    ensures |body| > 1048576 ==> Ingest(lib, body) == Err(BodyOverBound)
  {
    hide IngestLines, LastWins, ReadLine, Split, GoodLine, Lines;
    IngestMeaning(Lines(lib, body));
    AllLinesGood(lib, body);
  }

  lemma AllLinesGood(lib: Library, body: string)
    ensures AllGood(Lines(lib, body)) <==> LinesGood(lib, Split(body, '\n'))
  {
    hide ReadLine, Split, GoodLine;
    var raw, lines := Split(body, '\n'), Lines(lib, body);
    forall i | 0 <= i < |raw| ensures !lines[i].Bad? <==> GoodLine(lib, raw[i]) { GoodLineExact(lib, raw[i]); }
  }

  ghost predicate LinesGood(lib: Library, raw: seq<string>) { forall i :: 0 <= i < |raw| ==> GoodLine(lib, raw[i]) }

  ghost predicate GoodLine(lib: Library, raw: string) {
    || (exists line :: IsLine(raw, line) && IsComment(line))
    || (exists h, d :: IsEntry(lib, raw, h, d))
  }

  lemma GoodLineExact(lib: Library, raw: string)
    ensures !ReadLine(lib, raw).Bad? <==> GoodLine(lib, raw)
  {
    hide ReadLine, IsEntry;
    var line := Unterminated(raw);
    UnterminatedExact(raw, line);
    ReadLineOther(lib, raw, line);
    match ReadLine(lib, raw)
    case Skip =>
    case Entry(h, d) => ReadLineExact(lib, raw, h, d);
    case Bad(_) =>
      forall other | IsLine(raw, other) ensures !IsComment(other) { UnterminatedExact(raw, other); }
      forall h, d ensures !IsEntry(lib, raw, h, d) { ReadLineExact(lib, raw, h, d); }
  }

  /** A refused body reports the first line at fault: a bad line its own error, a name past the thousandth the list bound. */
  lemma IngestError(lib: Library, body: string, i: nat)
    requires |body| <= 1048576 && i < |Lines(lib, body)|
    requires var lines := Lines(lib, body); AllGood(lines[..i]) && |LastWins(lines[..i])| <= 1000
    ensures var line := Lines(lib, body)[i];
      && (line.Bad? ==> Ingest(lib, body) == Err(line.error))
      && (line.Entry? && line.hostname !in LastWins(Lines(lib, body)[..i]) && |LastWins(Lines(lib, body)[..i])| == 1000 ==>
            Ingest(lib, body) == Err(ListOverBound))
  {
    hide Lines;
    var lines := Lines(lib, body);
    IngestMeaning(lines[..i]);
    assert lines[..i + 1][..i] == lines[..i];
    if IngestLines(lines[..i + 1]).Err? { IngestStops(lines, i + 1); }
  }

  // ----- URL lists -----

  /** `picked` is `urls` at `positions`, ascending, each the first occurrence there. */
  ghost predicate FirstOccurrences(urls: seq<string>, picked: seq<string>, positions: seq<nat>) {
    && |picked| == |positions|
    && (forall i, j :: 0 <= i < j < |positions| ==> positions[i] < positions[j])
    && (forall i :: 0 <= i < |positions| ==>
          positions[i] < |urls| && picked[i] == urls[positions[i]] && picked[i] !in urls[..positions[i]])
  }

  lemma InFront(urls: seq<string>, u: string)
    ensures u in Deduplicated(urls) <==> u in urls
  {
    DeduplicatedMeaning(urls);
    assert u in Deduplicated(urls) <==> u in Elements(Deduplicated(urls));
    assert u in urls <==> u in Elements(urls);
  }

  lemma FirstOccurrencesGrow(front: seq<string>, last: string, picked: seq<string>, positions: seq<nat>)
    requires FirstOccurrences(front, picked, positions)
    ensures FirstOccurrences(front + [last], picked, positions)
    ensures last !in front ==> FirstOccurrences(front + [last], picked + [last], positions + [|front|])
  {
    var urls := front + [last];
    forall i | 0 <= i < |positions| ensures urls[..positions[i]] == front[..positions[i]] { }
    assert urls[..|front|] == front;
  }

  /** Deduplication keeps the first occurrence of every URL, in order. */
  lemma {:induction false} DeduplicatedOrder(urls: seq<string>) returns (positions: seq<nat>)
    ensures FirstOccurrences(urls, Deduplicated(urls), positions)
  {
    hide FirstOccurrences;
    if urls == [] {
      positions := [];
      NoOccurrences();
    } else {
      var n := |urls| - 1;
      var front, last := urls[..n], urls[n];
      assert urls == front + [last];
      positions := DeduplicatedOrder(front);
      InFront(front, last);
      FirstOccurrencesGrow(front, last, Deduplicated(front), positions);
      if last !in front { positions := positions + [n]; }
    }
  }

  lemma NoOccurrences()
    ensures FirstOccurrences([], [], [])
  {
  }

  // ----- one URL -----

  predicate NoMark(s: string) { forall c :: c in s ==> c != '/' && c != '?' && c != '#' }

  /** A lower-case URL in its parts: scheme, host, an optional port, and what follows. */
  ghost predicate UrlParts(lower: string, scheme: string, host: string, port: string, tail: string) {
    && lower == scheme + (host + port + tail)
    && (scheme == "http://" || scheme == "https://")
    && NoMark(host + port)
    && (port == "" || (port[0] == ':' && AllDigits(port[1..])))
    && (tail == "" || tail[0] in {'/', '?', '#'})
    && |host| <= 255 && '@' !in host && EndsWith(host, ".i2p")
  }

  lemma {:induction false} AuthorityExact(s: string, a: string)
    ensures Authority(s) == a <==> a <= s && NoMark(a) && (a == s || s[|a|] in {'/', '?', '#'})
  {
    if s == [] || s[0] in {'/', '?', '#'} {
      if a != [] && a <= s { assert a[0] in a; }
    } else {
      if a != [] && a <= s {
        AuthorityExact(s[1..], a[1..]);
        assert a == [a[0]] + a[1..];
        assert NoMark(a) <==> NoMark(a[1..]) by {
          if NoMark(a) { forall c | c in a[1..] ensures c in a { } }
        }
        assert a == s <==> a[1..] == s[1..] by { assert s == [s[0]] + s[1..]; }
      } else if a == [] {
      } else {
        AuthorityExact(s[1..], Authority(s[1..]));
        assert Authority(s) <= s;
      }
    }
  }

  lemma WithoutPortKeeps(host: string)
    requires EndsWith(host, ".i2p")
    ensures WithoutPort(host) == host
  {
    hide Split;
    LastPartNoPort(host);
  }

  lemma LastPartNoPort(host: string)
    requires EndsWith(host, ".i2p")
    ensures var parts := Split(host, ':'); |parts| > 1 ==> !AllDigits(parts[|parts| - 1])
  {
    hide Split;
    SplitLast(host, ':');
    var parts := Split(host, ':');
    var p := parts[|parts| - 1];
    assert host[|host| - 1] == 'p' by { assert host[|host| - 4..][3] == 'p'; }
    if |parts| > 1 {
      EmptyAfterLast(host, ':', p);
      assert p[|p| - 1] == host[|host| - 1];
      assert !IsDigit(p[|p| - 1]);
    }
  }

  lemma WithoutPortDrops(host: string, digits: string)
    requires AllDigits(digits)
    ensures WithoutPort(host + ":" + digits) == host
  {
    SplitConcat(host, digits, ':');
    SplitWhole(digits, ':');
    assert (host + ":" + digits)[..|host|] == host;
  }

  lemma WithoutPortParts(authority: string) returns (port: string)
    ensures authority == WithoutPort(authority) + port
    ensures port == "" || (port[0] == ':' && AllDigits(port[1..]))
  {
    hide Split;
    SplitLast(authority, ':');
    var host := WithoutPort(authority);
    port := authority[|host|..];
    assert authority == host + port;
    if |host| < |authority| {
      var parts := Split(authority, ':');
      assert port[1..] == parts[|parts| - 1];
    }
  }

  /** The host part is found exactly. */
  lemma HostExact(rest: string, host: string)
    requires ValidHost(host)
    ensures WithoutPort(Authority(rest)) == host <==>
      exists port, tail :: HostParts(rest, host, port, tail)
  {
    hide WithoutPort, Authority;
    var a := Authority(rest);
    AuthorityExact(rest, a);
    if WithoutPort(a) == host {
      var port := WithoutPortParts(a);
      var tail := rest[|a|..];
      assert HostParts(rest, host, port, tail);
    }
    if port, tail :| HostParts(rest, host, port, tail) {
      AuthorityExact(rest, host + port);
      if port == "" {
        assert host + port == host;
        WithoutPortKeeps(host);
      } else {
        assert host + port == host + ":" + port[1..];
        WithoutPortDrops(host, port[1..]);
      }
    }
  }

  ghost predicate HostParts(rest: string, host: string, port: string, tail: string) {
    && rest == host + port + tail && NoMark(host + port)
    && (port == "" || (port[0] == ':' && AllDigits(port[1..])))
    && (tail == "" || tail[0] in {'/', '?', '#'})
  }

  lemma ValidHostMeaning(host: string)
    ensures ValidHost(host) <==> |host| <= 255 && '@' !in host && EndsWith(host, ".i2p")
  {
  }

  /** Printable and bounded. */
  ghost predicate UrlText(url: string) { |url| <= 2048 && forall c :: c in url ==> '!' <= c <= '~' || c as int >= 0x80 }

  /** A URL is accepted exactly when it is printable, bounded, and its lower-case form has the parts of an I2P URL. */
  lemma ValidUrlExact(url: string)
    ensures ValidUrl(url) <==> UrlText(url) && exists scheme, host, port, tail :: UrlParts(Lower(url), scheme, host, port, tail)
  {
    hide WithoutPort, Authority, ValidHost;
    assert UrlText(url) <==> |url| <= 2048 && forall i :: 0 <= i < |url| ==> !(url[i] as int <= 0x20 || url[i] as int == 0x7f) by {
      if UrlText(url) {
        forall i | 0 <= i < |url| ensures !(url[i] as int <= 0x20 || url[i] as int == 0x7f) { assert url[i] in url; }
      }
    }
    var lower := Lower(url);
    if ValidUrl(url) {
      var scheme := if StartsWith(lower, "http://") then "http://" else "https://";
      var rest := lower[|scheme|..];
      var host := WithoutPort(Authority(rest));
      ValidHostMeaning(host);
      HostExact(rest, host);
      var port, tail :| HostParts(rest, host, port, tail);
      assert lower == scheme + rest;
      assert UrlParts(lower, scheme, host, port, tail);
    }
    if scheme, host, port, tail :| UrlText(url) && UrlParts(lower, scheme, host, port, tail) {
      var rest := host + port + tail;
      assert lower[..|scheme|] == scheme && lower[|scheme|..] == rest;
      ValidHostMeaning(host);
      assert HostParts(rest, host, port, tail);
      HostExact(rest, host);
      assert url != [];
      if scheme == "https://" { assert lower[4] == 's'; assert !StartsWith(lower, "http://") by { assert "http://"[4] == ':'; } }
    }
  }
}
