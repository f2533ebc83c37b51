/**
 The address book: four operator books, the subscription-derived table, the retained
 sources, the URL set, the configuration and the revision, with the six control operations.
 */
module Book {
  import opened Wrappers
  import opened Bytes
  import opened OrderedKeys
  import opened AddressBookErrors
  import opened Hostname
  import opened Subscription
  import Config

  const MAX_ENTRIES_PER_BOOK := Config.MAX_ENTRIES_PER_BOOK

  /** The four books in lookup order. */
  datatype BookKind = Private | Local | Router | Published

  function Precedence(k: BookKind): (i: nat)
    ensures i < 4
  {
    match k
    case Private => 0
    case Local => 1
    case Router => 2
    case Published => 3
  }

  datatype Provenance = FromBook(kind: BookKind) | Subscribed

  datatype ResolvedEntry = ResolvedEntry(hostname: string, destination: string, provenance: Provenance)

  datatype EntryMutation = EntryMutation(book: BookKind, hostname: string, destination: Option<string>, delete: bool)

  datatype EntryOutcome = Created | Updated | Deleted

  /** Four tables, indexed by precedence. */
  type Books = b: seq<Table> | |b| == 4 witness [map[], map[], map[], map[]]

  /** Committed state. */
  datatype State = State(
    books: Books, subscribed: Table, sources: map<string, Source>, urls: seq<string>,
    config: Config.Config, revision: u64)

  const EMPTY := State([map[], map[], map[], map[]], map[], map[], [], Config.DEFAULT, 0)

  // ----- lookup -----

  /** The first table, in precedence order, that knows a canonical name. */
  function Find(books: Books, subscribed: Table, h: string): Option<ResolvedEntry>
  {
    if h in books[0] then Some(ResolvedEntry(h, books[0][h], FromBook(Private)))
    else if h in books[1] then Some(ResolvedEntry(h, books[1][h], FromBook(Local)))
    else if h in books[2] then Some(ResolvedEntry(h, books[2][h], FromBook(Router)))
    else if h in books[3] then Some(ResolvedEntry(h, books[3][h], FromBook(Published)))
    else if h in subscribed then Some(ResolvedEntry(h, subscribed[h], Subscribed))
    else None
  }

  function LookupIn(books: Books, subscribed: Table, raw: string): Option<ResolvedEntry>
  {
    var parsed := ParseHostname(raw);
    if parsed.Err? then None else Find(books, subscribed, parsed.value)
  }

  function Lookup(s: State, raw: string): Option<ResolvedEntry>
  {
    LookupIn(s.books, s.subscribed, raw)
  }

  /** `e` is the entry of the first table that contains its name. */
  ghost predicate Answers(books: Books, subscribed: Table, e: ResolvedEntry)
  {
    match e.provenance
    case FromBook(k) =>
      && e.hostname in books[Precedence(k)]
      && books[Precedence(k)][e.hostname] == e.destination
      && forall j :: 0 <= j < Precedence(k) ==> e.hostname !in books[j]
    case Subscribed =>
      && e.hostname in subscribed
      && subscribed[e.hostname] == e.destination
      && forall j :: 0 <= j < 4 ==> e.hostname !in books[j]
  }

  lemma FindAnswers(books: Books, subscribed: Table, h: string, e: ResolvedEntry)
    ensures Find(books, subscribed, h) == Some(e) <==> e.hostname == h && Answers(books, subscribed, e)
  {
  }

  /** A lookup answers from the first table, in precedence order, that knows the canonical name. */
  lemma LookupPrecedence(s: State, raw: string, e: ResolvedEntry)
    ensures Lookup(s, raw) == Some(e) <==>
              ParseHostname(raw) == Ok(e.hostname) && Answers(s.books, s.subscribed, e)
  {
    if ParseHostname(raw).Ok? { FindAnswers(s.books, s.subscribed, ParseHostname(raw).value, e); }
  }

  // ----- the derived table -----

  /** The merge of the configured sources; a later URL overrides an earlier one. */
  function Merged(urls: seq<string>, sources: map<string, Source>): Table {
    if urls == [] then map[]
    else
      var before, url := Merged(urls[..|urls| - 1], sources), urls[|urls| - 1];
      if url in sources then before + sources[url].entries else before
  }

  method MergeSubscriptionSources(urls: seq<string>, sources: map<string, Source>) returns (merged: Table)
    ensures merged == Merged(urls, sources)
  {
    merged := map[];
    for i := 0 to |urls|
      invariant merged == Merged(urls[..i], sources)
    {
      assert urls[..i + 1][..i] == urls[..i];
      if urls[i] in sources {
        merged := InsertAll(merged, sources[urls[i]].entries);
      }
    }
    assert urls[..|urls|] == urls;
  }

  /** Inserts every entry of `entries`, in key order. */
  method InsertAll(base: Table, entries: Table) returns (r: Table)
    ensures r == base + entries
  {
    r := base;
    var rest := entries.Keys;
    while rest != {}
      invariant rest <= entries.Keys
      invariant r.Keys == base.Keys + (entries.Keys - rest)
      invariant forall h :: h in r ==> r[h] == if h in entries && h !in rest then entries[h] else base[h]
    {
      var h := Least(rest);
      r := r[h := entries[h]];
      rest := rest - {h};
    }
  }

  ghost predicate SourceHas(urls: seq<string>, sources: map<string, Source>, i: nat, h: string) {
    i < |urls| && urls[i] in sources && h in sources[urls[i]].entries
  }

  /** A merged name has the value of the last configured URL whose source contains it. */
  lemma {:induction false} MergedMeaning(urls: seq<string>, sources: map<string, Source>, h: string)
    ensures h in Merged(urls, sources) <==> exists i: nat :: SourceHas(urls, sources, i, h)
    ensures forall i: nat :: SourceHas(urls, sources, i, h) && (forall j :: i < j < |urls| ==> !SourceHas(urls, sources, j, h))
              ==> h in Merged(urls, sources) && Merged(urls, sources)[h] == sources[urls[i]].entries[h]
  {
    if urls != [] {
      var n := |urls| - 1;
      var front := urls[..n];
      MergedMeaning(front, sources, h);
      assert forall i: nat :: i < n ==> (SourceHas(front, sources, i, h) <==> SourceHas(urls, sources, i, h));
      if h in Merged(urls, sources) && !SourceHas(urls, sources, n, h) {
        var i: nat :| SourceHas(front, sources, i, h);
        assert SourceHas(urls, sources, i, h);
      }
    }
  }

  // ----- the six operations, as functions of the committed state -----

  function Bumped(s: State): State {
    s.(revision := if s.revision == U64_MAX then U64_MAX else s.revision + 1)
  }

  function ApplyEntry(lib: Library, s: State, m: EntryMutation): (State, Result<EntryOutcome, Error>)
  {
    if m.delete && m.destination.Some? then (s, Err(MixedShapes))
    else
      var parsed := ParseHostname(m.hostname);
      if parsed.Err? then (s, Err(parsed.error))
      else
        var h, i := parsed.value, Precedence(m.book);
        if m.delete then
          if h !in s.books[i] then (s, Err(UnknownHostname))
          else (Bumped(s.(books := s.books[i := s.books[i] - {h}])), Ok(Deleted))
        else if m.destination.None? then (s, Err(MalformedField))
        else if !lib.destination(m.destination.value) then (s, Err(InvalidDestination))
        else if h !in s.books[i] && |s.books[i]| >= Ceiling(s) then (s, Err(BookFull))
        else (Bumped(s.(books := s.books[i := s.books[i][h := m.destination.value]])),
              Ok(if h in s.books[i] then Updated else Created))
  }

  /** `max_entries.clamp(1, 1000)`. */
  function Ceiling(s: State): nat {
    if s.config.maxEntries < 1 then 1
    else if s.config.maxEntries > MAX_ENTRIES_PER_BOOK then MAX_ENTRIES_PER_BOOK
    else s.config.maxEntries
  }

  function Retained(sources: map<string, Source>, urls: seq<string>): map<string, Source> {
    map u | u in sources && u in urls :: sources[u]
  }

  function ReplaceSubscriptions(s: State, urls: seq<string>): (State, Result<bool, Error>) {
    var next := CheckedSet(urls);
    if next.Err? then (s, Err(next.error))
    else if next.value == s.urls then (s, Ok(false))
    else
      var sources := Retained(s.sources, next.value);
      (Bumped(s.(urls := next.value, sources := sources, subscribed := Merged(next.value, sources))), Ok(true))
  }

  predicate DestinationsValid(lib: Library, entries: Table) {
    forall h :: h in entries ==> lib.destination(entries[h])
  }

  function ReplaceDerived(lib: Library, s: State, entries: Table): (State, Result<bool, Error>) {
    if |entries| > MAX_ENTRIES_PER_BOOK then (s, Err(ListOverBound))
    else if !DestinationsValid(lib, entries) then (s, Err(InvalidDestination))
    else if entries == s.subscribed then (s, Ok(false))
    else (Bumped(s.(subscribed := entries, sources := map[])), Ok(true))
  }

  /** The checks one source passes, in order. */
  function SourceError(lib: Library, source: Source): Option<Error> {
    if |source.entries| > MAX_ENTRIES_PER_BOOK then Some(ListOverBound)
    else if source.etag.Some? && !ValidValidator(source.etag.value) then Some(InvalidConfigValue)
    else if source.lastModified.Some? && !ValidValidator(source.lastModified.value) then Some(InvalidConfigValue)
    else if !DestinationsValid(lib, source.entries) then Some(InvalidDestination)
    else None
  }

  /** The first failing source in URL order, if any. */
  function FirstSourceError(lib: Library, sources: map<string, Source>, keys: seq<string>): Option<Error>
    requires forall k :: k in keys ==> k in sources
  {
    if keys == [] then None
    else if SourceError(lib, sources[keys[0]]).Some? then SourceError(lib, sources[keys[0]])
    else FirstSourceError(lib, sources, keys[1..])
  }

  predicate Covers(urls: seq<string>, sources: map<string, Source>) {
    |sources| == |urls| && forall u :: u in urls ==> u in sources
  }

  function ReplaceSources(lib: Library, s: State, sources: map<string, Source>): (State, Result<bool, Error>) {
    if !Covers(s.urls, sources) then (s, Err(InvalidSubscription))
    else
      var bad := FirstSourceError(lib, sources, SortedKeys(sources.Keys));
      if bad.Some? then (s, Err(bad.value))
      else
        var derived := Merged(s.urls, sources);
        if |derived| > MAX_ENTRIES_PER_BOOK then (s, Err(ListOverBound))
        else if sources == s.sources && derived == s.subscribed then (s, Ok(false))
        else (Bumped(s.(sources := sources, subscribed := derived)), Ok(true))
  }

  function SyncPublished(s: State): (State, bool)
  {
    if !s.config.shouldPublish || s.books[3] == s.books[2] then (s, false)
    else (Bumped(s.(books := s.books[3 := s.books[2]])), true)
  }

  function ApplyConfig(lib: Library, s: State, entries: map<string, string>): (State, Result<bool, Error>) {
    var next := Config.CheckedUpdate(lib, s.config, entries);
    if next.Err? then (s, Err(next.error))
    else if exists i :: 0 <= i < |s.books| && |s.books[i]| > next.value.maxEntries then (s, Err(InvalidConfigValue))
    else if next.value == s.config then (s, Ok(false))
    else (Bumped(s.(config := next.value)), Ok(true))
  }
}
