/** Subscription URL sets, retained sources and body ingestion. */
module Subscription {
  import opened Wrappers
  import opened Text
  import opened AddressBookErrors
  import Hostname
  import Config

  type Library = Config.Library

  const MAX_SUBSCRIPTION_URLS := 16
  const MAX_SUBSCRIPTION_URL_LEN := 2048
  const MAX_SUBSCRIPTION_BODY_BYTES := 1048576
  const MAX_SUBSCRIBED_ENTRIES := Config.MAX_ENTRIES_PER_BOOK
  const MAX_SUBSCRIPTION_LINE_LEN := 8192
  const MAX_SUBSCRIPTION_VALIDATOR_LEN := 1024
  const MAX_DESTINATION_TEXT_LEN := 4096

  type Table = map<string, string>

  /** Entries and conditional HTTP validators kept for one configured URL. */
  datatype Source = Source(entries: Table, etag: Option<string>, lastModified: Option<string>)

  predicate ValidValidator(value: string) {
    |value| <= MAX_SUBSCRIPTION_VALIDATOR_LEN && forall i :: 0 <= i < |value| ==> !IsControl(value[i])
  }

  // ----- URLs -----

  /** The part of `s` before the first path, query or fragment mark. */
  function Authority(s: string): string {
    if s == [] || s[0] in {'/', '?', '#'} then [] else [s[0]] + Authority(s[1..])
  }

  /** Drops a trailing `:port` when everything after the last colon is a digit. */
  function WithoutPort(authority: string): string {
    var parts := Split(authority, ':');
    var port := parts[|parts| - 1];
    if |parts| > 1 && AllDigits(port) && |port| < |authority|
    then authority[..|authority| - |port| - 1]
    else authority
  }

  predicate ValidHost(host: string) {
    host != [] && |host| <= Hostname.MAX_HOSTNAME_LEN && '@' !in host && EndsWith(host, ".i2p")
  }

  predicate ValidUrl(url: string) {
    && url != [] && |url| <= MAX_SUBSCRIPTION_URL_LEN
    && (forall i :: 0 <= i < |url| ==> !(url[i] as int <= 0x20 || url[i] as int == 0x7f))
    && var lower := Lower(url);
       if StartsWith(lower, "http://") then ValidHost(WithoutPort(Authority(lower[7..])))
       else StartsWith(lower, "https://") && ValidHost(WithoutPort(Authority(lower[8..])))
  }

  /** First occurrences, in order. */
  function Deduplicated(urls: seq<string>): seq<string> {
    if urls == [] then []
    else
      var front, last := Deduplicated(urls[..|urls| - 1]), urls[|urls| - 1];
      if last in front then front else front + [last]
  }

  /** The checked set for a given notion of valid URL. */
  function CheckedBy(valid: string -> bool, urls: seq<string>): Result<seq<string>, Error> {
    if |urls| > MAX_SUBSCRIPTION_URLS then Err(TooManySubscriptions)
    else if exists i :: 0 <= i < |urls| && !valid(urls[i]) then Err(InvalidSubscription)
    else Ok(Deduplicated(urls))
  }

  function CheckedSet(urls: seq<string>): Result<seq<string>, Error> { CheckedBy(u => ValidUrl(u), urls) }

  method RunCheckedBy(valid: string -> bool, urls: seq<string>) returns (r: Result<seq<string>, Error>)
    ensures r == CheckedBy(valid, urls)
  {
    if |urls| > MAX_SUBSCRIPTION_URLS { return Err(TooManySubscriptions); }
    var distinct := [];
    for i := 0 to |urls|
      invariant forall j :: 0 <= j < i ==> valid(urls[j])
      invariant distinct == Deduplicated(urls[..i])
    {
      assert urls[..i + 1][..i] == urls[..i];
      if !valid(urls[i]) { return Err(InvalidSubscription); }
      if urls[i] !in distinct { distinct := distinct + [urls[i]]; }
    }
    assert urls[..|urls|] == urls;
    return Ok(distinct);
  }

  method Checked(urls: seq<string>) returns (r: Result<seq<string>, Error>)
    ensures r == CheckedSet(urls)
  {
    r := RunCheckedBy(u => ValidUrl(u), urls);
  }

  /** A checked set is valid, duplicate-free, no longer than the request, and has the same members. */
  lemma {:induction false} DeduplicatedMeaning(urls: seq<string>)
    ensures Distinct(Deduplicated(urls))
    ensures Elements(Deduplicated(urls)) == Elements(urls)
    ensures |Deduplicated(urls)| <= |urls|
    ensures Distinct(urls) ==> Deduplicated(urls) == urls
  {
    if urls != [] {
      var front, last := urls[..|urls| - 1], urls[|urls| - 1];
      DeduplicatedMeaning(front);
      assert urls == front + [last];
      assert forall u :: u in Deduplicated(front) <==> u in Elements(Deduplicated(front));
      assert forall u :: u in front <==> u in Elements(front);
    }
  }

  // ----- body ingestion -----

  /** What one line contributes: nothing, one entry, or a failure of the whole body. */
  datatype Line = Skip | Entry(hostname: string, destination: string) | Bad(error: Error)

  function Unterminated(line: string): string {
    if EndsWith(line, "\r") then line[..|line| - 1] else line
  }

  function ReadLine(lib: Library, raw: string): Line {
    var line := Unterminated(raw);
    if line == [] || line[0] == '#' then Skip
    else if |line| > MAX_SUBSCRIPTION_LINE_LEN then Bad(BodyOverBound)
    else if !IsUtf8(line) then Bad(InvalidDestination)
    else
      var parts := Split(line, '=');
      if |parts| == 1 then Bad(MalformedField)
      else
        var name := parts[0];
        var destination := if |name| < |line| then line[|name| + 1..] else [];
        if |name| > Hostname.MAX_HOSTNAME_LEN || |destination| > MAX_DESTINATION_TEXT_LEN then Bad(InvalidDestination)
        else if Hostname.ParseHostname(name).Err? then Bad(Hostname.ParseHostname(name).error)
        else if !lib.destination(destination) then Bad(InvalidDestination)
        else Entry(Hostname.ParseHostname(name).value, destination)
  }

  /** Adds one line to the table; a new name beyond the limit fails. */
  function Insert(entries: Table, line: Line): Result<Table, Error> {
    match line
    case Skip => Ok(entries)
    case Bad(error) => Err(error)
    case Entry(hostname, destination) =>
      if |entries| >= MAX_SUBSCRIBED_ENTRIES && hostname !in entries then Err(ListOverBound)
      else Ok(entries[hostname := destination])
  }

  function IngestLines(lines: seq<Line>): Result<Table, Error> {
    if lines == [] then Ok(map[])
    else
      var before := IngestLines(lines[..|lines| - 1]);
      if before.Err? then before else Insert(before.value, lines[|lines| - 1])
  }

  function Lines(lib: Library, body: string): (lines: seq<Line>)
    ensures |lines| == |Split(body, '\n')|
    ensures forall i :: 0 <= i < |lines| ==> lines[i] == ReadLine(lib, Split(body, '\n')[i])
  {
    var raw := Split(body, '\n');
    seq(|raw|, i requires 0 <= i < |raw| => ReadLine(lib, raw[i]))
  }

  function Ingest(lib: Library, body: string): Result<Table, Error> {
    if |body| > MAX_SUBSCRIPTION_BODY_BYTES then Err(BodyOverBound) else IngestLines(Lines(lib, body))
  }

  method IngestSubscriptionBody(lib: Library, body: string) returns (r: Result<Table, Error>)
    ensures r == Ingest(lib, body)
  {
    if |body| > MAX_SUBSCRIPTION_BODY_BYTES { return Err(BodyOverBound); }
    var entries: Table := map[];
    var raw := Split(body, '\n');
    ghost var lines := Lines(lib, body);
    for i := 0 to |raw|
      invariant IngestLines(lines[..i]) == Ok(entries)
    {
      assert lines[..i + 1][..i] == lines[..i];
      var next := Insert(entries, ReadLine(lib, raw[i]));
      if next.Err? {
        IngestStops(lines, i + 1);
        return next;
      }
      entries := next.value;
    }
    assert lines[..|lines|] == lines;
    return Ok(entries);
  }

  lemma {:induction false} IngestStops(lines: seq<Line>, i: nat)
    requires i <= |lines| && IngestLines(lines[..i]).Err?
    ensures IngestLines(lines) == IngestLines(lines[..i])
  {
    if i < |lines| {
      assert lines[..|lines| - 1][..i] == lines[..i];
      IngestStops(lines[..|lines| - 1], i);
    } else {
      assert lines[..i] == lines;
    }
  }

  // ----- what ingestion means -----

  /** All lines' entries, later ones winning, with no limit. */
  function LastWins(lines: seq<Line>): Table {
    if lines == [] then map[]
    else
      var before, last := LastWins(lines[..|lines| - 1]), lines[|lines| - 1];
      if last.Entry? then before[last.hostname := last.destination] else before
  }

  ghost predicate AllGood(lines: seq<Line>) { forall i :: 0 <= i < |lines| ==> !lines[i].Bad? }

  /**
   A body is accepted exactly when no line is bad and at most 1000 distinct names occur,
   and then it is the last-wins table; the limit does not depend on line order.
   */
  lemma {:induction false} IngestMeaning(lines: seq<Line>)
    ensures IngestLines(lines).Ok? <==> AllGood(lines) && |LastWins(lines)| <= MAX_SUBSCRIBED_ENTRIES
    ensures IngestLines(lines).Ok? ==> IngestLines(lines).value == LastWins(lines)
  {
    if lines != [] {
      var front, last := lines[..|lines| - 1], lines[|lines| - 1];
      IngestMeaning(front);
      var table := LastWins(front);
      if last.Entry? {
        assert LastWins(lines).Keys == table.Keys + {last.hostname};
        if last.hostname in table {
          assert LastWins(lines).Keys == table.Keys;
        } else {
          assert |LastWins(lines).Keys| == |table.Keys| + 1;
        }
        assert |LastWins(lines)| >= |table|;
      }
      if AllGood(lines) {
        assert forall i :: 0 <= i < |front| ==> front[i] == lines[i];
      } else if !last.Bad? {
        var i :| 0 <= i < |lines| && lines[i].Bad?;
        assert front[i].Bad?;
      }
    }
  }

  predicate LineNames(lines: seq<Line>, i: nat, h: string) { i < |lines| && lines[i].Entry? && lines[i].hostname == h }

  /** The table line by line: a name is in it exactly when some line names it, with the destination of the last such line. */
  lemma {:induction false} LastWinsMeaning(lines: seq<Line>, h: string)
    ensures h in LastWins(lines) <==> exists i: nat :: LineNames(lines, i, h)
    ensures forall i: nat :: LineNames(lines, i, h) && (forall j: nat :: i < j ==> !LineNames(lines, j, h))
              ==> h in LastWins(lines) && LastWins(lines)[h] == lines[i].destination
  {
    if lines != [] {
      var n := |lines| - 1;
      var front := lines[..n];
      LastWinsMeaning(front, h);
      assert forall i: nat :: LineNames(front, i, h) <==> i < n && LineNames(lines, i, h);
      if LineNames(lines, n, h) {
        forall i: nat | LineNames(lines, i, h) && (forall j: nat :: i < j ==> !LineNames(lines, j, h)) ensures i == n { }
      } else {
        assert forall i: nat :: LineNames(lines, i, h) <==> LineNames(front, i, h);
      }
    }
  }

  lemma {:induction false} LastWinsConcat(x: seq<Line>, y: seq<Line>)
    ensures LastWins(x + y) == LastWins(x) + LastWins(y)
  {
    if y == [] {
      assert x + y == x;
    } else {
      LastWinsConcat(x, y[..|y| - 1]);
      assert (x + y)[..|x + y| - 1] == x + y[..|y| - 1];
    }
  }

  lemma LinesConcat(lib: Library, x: string, y: string)
    ensures Lines(lib, x + "\n" + y) == Lines(lib, x) + Lines(lib, y)
  {
    SplitConcat(x, y, '\n');
  }

  lemma SubTableSmaller(small: Table, large: Table)
    requires small.Keys <= large.Keys
    ensures |small| <= |large|
  {
    var rest := large.Keys - small.Keys;
    assert large.Keys == small.Keys + rest;
    assert |large.Keys| == |small.Keys| + |rest|;
  }

  /**
   Ingestion is compositional: two bodies joined by a newline are accepted exactly when
   each is accepted and the joined length and the number of names in the union are
   within bounds, and the second body's entries override the first's.
   */
  lemma IngestConcat(lib: Library, x: string, y: string)
    ensures Ingest(lib, x + "\n" + y).Ok? <==>
              && Ingest(lib, x).Ok? && Ingest(lib, y).Ok?
              && |x| + 1 + |y| <= MAX_SUBSCRIPTION_BODY_BYTES
              && |Ingest(lib, x).value + Ingest(lib, y).value| <= MAX_SUBSCRIBED_ENTRIES
    ensures Ingest(lib, x + "\n" + y).Ok? ==>
              Ingest(lib, x + "\n" + y).value == Ingest(lib, x).value + Ingest(lib, y).value
  {
    var a, b := Lines(lib, x), Lines(lib, y);
    LinesConcat(lib, x, y);
    IngestMeaning(a);
    IngestMeaning(b);
    IngestMeaning(a + b);
    LastWinsConcat(a, b);
    SubTableSmaller(LastWins(a), LastWins(a + b));
    SubTableSmaller(LastWins(b), LastWins(a + b));
    GoodConcat(a, b);
  }

  lemma GoodConcat(a: seq<Line>, b: seq<Line>)
    ensures AllGood(a + b) <==> AllGood(a) && AllGood(b)
  {
    if AllGood(a + b) {
      forall i | 0 <= i < |a| ensures !a[i].Bad? { assert a[i] == (a + b)[i]; }
      forall i | 0 <= i < |b| ensures !b[i].Bad? { assert b[i] == (a + b)[|a| + i]; }
    }
  }

  /** Every ingested table has canonical names and valid destinations, at most 1000 of them. */
  lemma IngestedEntriesValid(lib: Library, body: string)
    requires Ingest(lib, body).Ok?
    ensures |Ingest(lib, body).value| <= MAX_SUBSCRIBED_ENTRIES
    ensures forall h :: h in Ingest(lib, body).value ==>
              Hostname.IsHostname(h) && lib.destination(Ingest(lib, body).value[h])
  {
    hide LastWins, IngestLines;
    var lines := Lines(lib, body);
    IngestMeaning(lines);
    LinesValid(lib, body, |lines|);
    assert lines[..|lines|] == lines;
  }

  lemma {:induction false} LinesValid(lib: Library, body: string, n: nat)
    requires n <= |Lines(lib, body)|
    ensures forall h :: h in LastWins(Lines(lib, body)[..n]) ==>
              Hostname.IsHostname(h) && lib.destination(LastWins(Lines(lib, body)[..n])[h])
  {
    if n > 0 {
      LinesValid(lib, body, n - 1);
      var lines := Lines(lib, body);
      assert lines[..n][..n - 1] == lines[..n - 1];
      var last := lines[n - 1];
      if last.Entry? { ReadLineValid(lib, Split(body, '\n')[n - 1]); }
    }
  }

  lemma ReadLineValid(lib: Library, raw: string)
    requires ReadLine(lib, raw).Entry?
    ensures Hostname.IsHostname(ReadLine(lib, raw).hostname) && lib.destination(ReadLine(lib, raw).destination)
  {
    Hostname.ParseIdempotent(Split(Unterminated(raw), '=')[0]);
  }
}
