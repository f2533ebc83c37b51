/**
 Persisted generations: the decoded shape of one complete state, encoding, and decoding
 through the same validators a live mutation passes.
 */
module Generation {
  import opened Wrappers
  import opened Bytes
  import opened Text
  import opened OrderedKeys
  import opened Folds
  import opened AddressBookErrors
  import opened Hostname
  import opened Subscription
  import opened Book
  import opened BookInvariant
  import Config

  const GENERATION_VERSION := 1

  datatype ConfigShape = ConfigShape(
    privateBook: string, localBook: string, routerBook: string, publishedBook: string,
    subscriptions: string, refreshIntervalHours: nat,
    proxyHost: Option<string>, proxyPort: Option<nat>,
    theme: string, logFile: string, logLevel: string, lookupTimeoutSecs: nat, maxEntries: nat,
    shouldPublish: bool, etags: string, lastModified: string)

  /** Names in a shape are raw text; a retained source has the live form with raw names. */
  datatype Shape = Shape(
    version: nat, revision: u64, private_: Table, local: Table, router: Table, published: Table,
    subscriptions: seq<string>, subscribed: Table, sources: map<string, Source>, config: ConfigShape)

  // ----- encoding -----

  function Capture(c: Config.Config): ConfigShape {
    ConfigShape(
      c.privateBook, c.localBook, c.routerBook, c.publishedBook, c.subscriptions, c.refreshIntervalHours,
      c.proxyHost, c.proxyPort, c.theme, c.logFile, Config.LevelName(c.logLevel), c.lookupTimeoutSecs, c.maxEntries,
      c.shouldPublish, c.etags, c.lastModified)
  }

  function Encode(s: State): Shape
  {
    Shape(GENERATION_VERSION, s.revision, s.books[0], s.books[1], s.books[2], s.books[3],
          s.urls, s.subscribed, s.sources, Capture(s.config))
  }

  // ----- decoding -----

  function ConfigValue(c: ConfigShape, k: Config.Key): string {
    match k
    case PrivateBook => c.privateBook
    case LocalBook => c.localBook
    case RouterBook => c.routerBook
    case PublishedBook => c.publishedBook
    case Subscriptions => c.subscriptions
    case RefreshInterval => Decimal(c.refreshIntervalHours)
    case ProxyHost => if c.proxyHost.Some? then c.proxyHost.value else ""
    case ProxyPort => if c.proxyPort.Some? then Decimal(c.proxyPort.value) else ""
    case Theme => c.theme
    case LogFile => c.logFile
    case LogLevel => c.logLevel
    case LookupTimeout => Decimal(c.lookupTimeoutSecs)
    case MaxEntries => Decimal(c.maxEntries)
    case ShouldPublish => if c.shouldPublish then "true" else "false"
    case Etags => c.etags
    case LastModified => c.lastModified
  }

  /** The stored configuration as one `SetConfig` map. */
  function ConfigMap(c: ConfigShape): map<string, string> {
    map n | n in Config.KEY_NAMES && Config.ParseKey(n).Some? :: ConfigValue(c, Config.ParseKey(n).value)
  }

  function Insertion(kind: BookKind, name: string, destination: string): EntryMutation {
    EntryMutation(kind, name, Some(destination), false)
  }

  /** Re-admission of one stored entry. */
  function Admitter(lib: Library, entries: Table, kind: BookKind): (State, string) -> Result<State, Error> {
    (s: State, name: string) =>
      if name in entries && ApplyEntry(lib, s, Insertion(kind, name, entries[name])).1.Ok?
      then Ok(ApplyEntry(lib, s, Insertion(kind, name, entries[name])).0)
      else Err(InvalidGeneration)
  }

  function AdmitBook(lib: Library, s: State, entries: Table, kind: BookKind): Result<State, Error> {
    if |entries| > MAX_ENTRIES_PER_BOOK then Err(InvalidGeneration)
    else TryFold(Admitter(lib, entries, kind), s, SortedKeys(entries.Keys))
  }

  function AdmitBooks(lib: Library, s: State, shape: Shape): Result<State, Error> {
    var a := AdmitBook(lib, s, shape.private_, Private);
    if a.Err? then a else
    var b := AdmitBook(lib, a.value, shape.local, Local);
    if b.Err? then b else
    var c := AdmitBook(lib, b.value, shape.router, Router);
    if c.Err? then c else AdmitBook(lib, c.value, shape.published, Published)
  }

  /** Canonicalizes the names of a stored table; a name spelled twice keeps its last value. */
  function NameParser(entries: Table): (Table, string) -> Result<Table, Error> {
    (t: Table, name: string) =>
      if name !in entries then Ok(t)
      else if ParseHostname(name).Err? then Err(ParseHostname(name).error)
      else Ok(t[ParseHostname(name).value := entries[name]])
  }

  function ParseNames(entries: Table): Result<Table, Error> {
    TryFold(NameParser(entries), map[], SortedKeys(entries.Keys))
  }

  function SourceParser(sources: map<string, Source>): (map<string, Source>, string) -> Result<map<string, Source>, Error> {
    (parsed: map<string, Source>, url: string) =>
      if url !in sources then Ok(parsed)
      else if ParseNames(sources[url].entries).Err? then Err(ParseNames(sources[url].entries).error)
      else Ok(parsed[url := sources[url].(entries := ParseNames(sources[url].entries).value)])
  }

  function ParseSources(sources: map<string, Source>): Result<map<string, Source>, Error> {
    TryFold(SourceParser(sources), map[], SortedKeys(sources.Keys))
  }

  /** Restores a derived table that has no retained sources. */
  function RestoreTable(lib: Library, s: State, stored: Table): Result<State, Error> {
    var subscribed := ParseNames(stored);
    if subscribed.Err? then Err(subscribed.error)
    else
      var (t, replaced) := ReplaceDerived(lib, s, subscribed.value);
      if replaced.Err? then Err(InvalidGeneration) else Ok(t)
  }

  /** Restores the retained sources; the stored derived table must be their merge. */
  function RestoreSources(lib: Library, s: State, stored: map<string, Source>, derived: Table): Result<State, Error> {
    var sources := ParseSources(stored);
    if sources.Err? then Err(sources.error)
    else
      var (t, replaced) := ReplaceSources(lib, s, sources.value);
      if replaced.Ok? && SameTable(t.subscribed, derived) then Ok(t) else Err(InvalidGeneration)
  }

  function RestoreDerived(lib: Library, s: State, shape: Shape): Result<State, Error> {
    if |shape.sources| > MAX_SUBSCRIPTION_URLS then Err(InvalidGeneration)
    else if shape.sources == map[] then RestoreTable(lib, s, shape.subscribed)
    else RestoreSources(lib, s, shape.sources, shape.subscribed)
  }

  predicate SameTable(actual: Table, stored: Table) {
    |actual| == |stored| && forall h :: h in actual ==> h in stored && stored[h] == actual[h]
  }

  function Decode(lib: Library, shape: Shape): Result<State, Error> {
    if shape.version != GENERATION_VERSION then Err(InvalidGeneration)
    else
      var (s, configured) := ApplyConfig(lib, EMPTY, ConfigMap(shape.config));
      if configured.Err? then Err(InvalidGeneration) else
      var admitted := AdmitBooks(lib, s, shape);
      if admitted.Err? then admitted else
      var (t, subscribed) := ReplaceSubscriptions(admitted.value, shape.subscriptions);
      if subscribed.Err? then Err(InvalidGeneration) else
      var restored := RestoreDerived(lib, t, shape);
      if restored.Err? then restored else Ok(restored.value.(revision := shape.revision))
  }

  // ----- decoding any shape gives a valid book -----

  lemma {:induction false} AdmitterKeeps(lib: Library, s: State, entries: Table, kind: BookKind, keys: seq<string>)
    requires Inv(lib, s) && TryFold(Admitter(lib, entries, kind), s, keys).Ok?
    ensures Inv(lib, TryFold(Admitter(lib, entries, kind), s, keys).value)
  {
    if keys != [] {
      var front, name := keys[..|keys| - 1], keys[|keys| - 1];
      AdmitterKeeps(lib, s, entries, kind, front);
      ApplyEntryKeeps(lib, TryFold(Admitter(lib, entries, kind), s, front).value, Insertion(kind, name, entries[name]));
    }
  }

  lemma AdmitBooksKeeps(lib: Library, s: State, shape: Shape)
    requires Inv(lib, s) && AdmitBooks(lib, s, shape).Ok?
    ensures Inv(lib, AdmitBooks(lib, s, shape).value)
  {
    hide Inv, TryFold, Admitter;
    var a := AdmitBook(lib, s, shape.private_, Private);
    AdmitterKeeps(lib, s, shape.private_, Private, SortedKeys(shape.private_.Keys));
    var b := AdmitBook(lib, a.value, shape.local, Local);
    AdmitterKeeps(lib, a.value, shape.local, Local, SortedKeys(shape.local.Keys));
    var c := AdmitBook(lib, b.value, shape.router, Router);
    AdmitterKeeps(lib, b.value, shape.router, Router, SortedKeys(shape.router.Keys));
    AdmitterKeeps(lib, c.value, shape.published, Published, SortedKeys(shape.published.Keys));
  }

  lemma {:induction false} NameParserCanonical(entries: Table, keys: seq<string>)
    requires TryFold(NameParser(entries), map[], keys).Ok?
    ensures NamesCanonical(TryFold(NameParser(entries), map[], keys).value)
  {
    if keys != [] {
      var front, name := keys[..|keys| - 1], keys[|keys| - 1];
      NameParserCanonical(entries, front);
      if name in entries { ParseIdempotent(name); }
    }
  }

  lemma {:induction false} SourceParserCanonical(sources: map<string, Source>, keys: seq<string>)
    requires TryFold(SourceParser(sources), map[], keys).Ok?
    ensures forall u :: u in TryFold(SourceParser(sources), map[], keys).value ==>
              NamesCanonical(TryFold(SourceParser(sources), map[], keys).value[u].entries)
  {
    hide ParseNames, NamesCanonical;
    if keys != [] {
      var front, url := keys[..|keys| - 1], keys[|keys| - 1];
      SourceParserCanonical(sources, front);
      if url in sources { ParseNamesCanonical(sources[url].entries); }
    }
  }

  lemma ParseNamesCanonical(entries: Table)
    requires ParseNames(entries).Ok?
    ensures NamesCanonical(ParseNames(entries).value)
  {
    NameParserCanonical(entries, SortedKeys(entries.Keys));
  }

  lemma ParseSourcesCanonical(sources: map<string, Source>)
    requires ParseSources(sources).Ok?
    ensures forall u :: u in ParseSources(sources).value ==> NamesCanonical(ParseSources(sources).value[u].entries)
  {
    SourceParserCanonical(sources, SortedKeys(sources.Keys));
  }

  lemma RestoreTableKeeps(lib: Library, s: State, stored: Table)
    requires Inv(lib, s) && RestoreTable(lib, s, stored).Ok?
    ensures Inv(lib, RestoreTable(lib, s, stored).value)
    ensures s.sources == map[] ==> RestoreTable(lib, s, stored).value.sources == map[]
  {
    hide Inv, ParseNames, NamesCanonical;
    ParseNamesCanonical(stored);
    ReplaceDerivedKeeps(lib, s, ParseNames(stored).value);
  }

  lemma ReplaceSourcesInstalls(lib: Library, s: State, sources: map<string, Source>)
    requires ReplaceSources(lib, s, sources).1.Ok?
    ensures Covers(s.urls, sources)
    ensures ReplaceSources(lib, s, sources).0.sources == sources
    ensures ReplaceSources(lib, s, sources).0.urls == s.urls
  {
  }

  lemma RestoreSourcesKeeps(lib: Library, s: State, stored: map<string, Source>, derived: Table)
    requires Inv(lib, s) && RestoreSources(lib, s, stored, derived).Ok?
    ensures Inv(lib, RestoreSources(lib, s, stored, derived).value)
    ensures Persistable(RestoreSources(lib, s, stored, derived).value)
  {
    hide ParseSources, NamesCanonical, ReplaceSources, SameTable, Covers;
    var sources := ParseSources(stored).value;
    ParseSourcesCanonical(stored);
    ReplaceSourcesKeeps(lib, s, sources);
    ReplaceSourcesInstalls(lib, s, sources);
    CoversExactly(s.urls, sources);
  }

  /** The book can be persisted and read back: no sources, or one for every configured URL. */
  ghost predicate Persistable(s: State) {
    s.sources == map[] || s.sources.Keys == Elements(s.urls)
  }

  lemma RestoreDerivedKeeps(lib: Library, s: State, shape: Shape)
    requires Inv(lib, s) && s.sources == map[] && RestoreDerived(lib, s, shape).Ok?
    ensures Inv(lib, RestoreDerived(lib, s, shape).value)
    ensures Persistable(RestoreDerived(lib, s, shape).value)
  {
    hide Inv, RestoreTable, RestoreSources;
    if shape.sources == map[] {
      RestoreTableKeeps(lib, s, shape.subscribed);
    } else {
      RestoreSourcesKeeps(lib, s, shape.sources, shape.subscribed);
    }
  }

  lemma RevisionIrrelevant(lib: Library, s: State, revision: u64)
    ensures Inv(lib, s.(revision := revision)) == Inv(lib, s)
    ensures Persistable(s.(revision := revision)) == Persistable(s)
  {
  }

  lemma ConfigKeepsSources(lib: Library, entries: map<string, string>)
    ensures ApplyConfig(lib, EMPTY, entries).0.sources == map[]
  {
    hide Config.CheckedUpdate;
  }

  lemma SubscriptionsKeepNoSources(s: State, urls: seq<string>)
    requires s.sources == map[]
    ensures ReplaceSubscriptions(s, urls).0.sources == map[]
  {
    hide CheckedSet, Merged;
  }

  /** Whatever shape is decoded, an accepted one yields a book satisfying the whole invariant. */
  lemma DecodeValid(lib: Library, shape: Shape)
    requires lib.Sound() && Decode(lib, shape).Ok?
    ensures Inv(lib, Decode(lib, shape).value) && Persistable(Decode(lib, shape).value)
    ensures Decode(lib, shape).value.revision == shape.revision
  {
    hide Inv, Persistable, ApplyConfig, AdmitBooks, ReplaceSubscriptions, RestoreDerived, ConfigMap;
    var s := ApplyConfig(lib, EMPTY, ConfigMap(shape.config)).0;
    EmptyInv(lib);
    ApplyConfigKeeps(lib, EMPTY, ConfigMap(shape.config));
    ConfigKeepsSources(lib, ConfigMap(shape.config));
    AdmitBooksKeeps(lib, s, shape);
    AdmitBooksFrame(lib, s, shape);
    var admitted := AdmitBooks(lib, s, shape).value;
    ReplaceSubscriptionsKeeps(lib, admitted, shape.subscriptions);
    SubscriptionsKeepNoSources(admitted, shape.subscriptions);
    var t := ReplaceSubscriptions(admitted, shape.subscriptions).0;
    RestoreDerivedKeeps(lib, t, shape);
    RevisionIrrelevant(lib, RestoreDerived(lib, t, shape).value, shape.revision);
  }

  // ----- the round trip -----

  /** `t` is `s` up to the revision, which decoding overwrites at the end. */
  ghost predicate SameButRevision(s: State, t: State) { t == s.(revision := t.revision) }

  lemma {:induction false} AdmitterFrame(lib: Library, s: State, entries: Table, kind: BookKind, keys: seq<string>)
    requires TryFold(Admitter(lib, entries, kind), s, keys).Ok?
    ensures var t := TryFold(Admitter(lib, entries, kind), s, keys).value;
            t == s.(books := t.books, revision := t.revision)
  {
    if keys != [] { AdmitterFrame(lib, s, entries, kind, keys[..|keys| - 1]); }
  }

  lemma AdmitBooksFrame(lib: Library, s: State, shape: Shape)
    requires AdmitBooks(lib, s, shape).Ok?
    ensures var t := AdmitBooks(lib, s, shape).value;
            t == s.(books := t.books, revision := t.revision)
  {
    var a := AdmitBook(lib, s, shape.private_, Private);
    AdmitterFrame(lib, s, shape.private_, Private, SortedKeys(shape.private_.Keys));
    var b := AdmitBook(lib, a.value, shape.local, Local);
    AdmitterFrame(lib, a.value, shape.local, Local, SortedKeys(shape.local.Keys));
    var c := AdmitBook(lib, b.value, shape.router, Router);
    AdmitterFrame(lib, b.value, shape.router, Router, SortedKeys(shape.router.Keys));
    AdmitterFrame(lib, c.value, shape.published, Published, SortedKeys(shape.published.Keys));
  }

  function Restricted(t: Table, keys: seq<string>): Table { map h | h in t && h in keys :: t[h] }

  lemma ApplyInsertion(lib: Library, s: State, kind: BookKind, name: string, d: string)
    requires IsHostname(name) && lib.destination(d)
    requires name !in s.books[Precedence(kind)] && |s.books[Precedence(kind)]| < Ceiling(s)
    ensures ApplyEntry(lib, s, Insertion(kind, name, d)).1 == Ok(Created)
    ensures ApplyEntry(lib, s, Insertion(kind, name, d)).0
         == Bumped(s.(books := s.books[Precedence(kind) := s.books[Precedence(kind)][name := d]]))
  {
  }

  lemma RestrictedSmaller(t: Table, keys: seq<string>, name: string)
    requires name in t && name !in keys
    ensures |Restricted(t, keys)| < |t|
    ensures Restricted(t, keys)[name := t[name]] == Restricted(t, keys + [name])
  {
    var part := Restricted(t, keys);
    SubTableSmaller(part, t - {name});
    assert (t - {name}).Keys == t.Keys - {name};
    assert |(t - {name}).Keys| == |t.Keys| - 1;
  }

  /** Admitting part of a valid table into an empty book stores exactly that part. */
  lemma {:induction false} AdmitterRestores(lib: Library, s: State, t: Table, kind: BookKind, keys: seq<string>)
    requires s.books[Precedence(kind)] == map[]
    requires TableValid(lib, t) && |t| <= Ceiling(s)
    requires Distinct(keys) && forall k :: k in keys ==> k in t
    ensures var r := TryFold(Admitter(lib, t, kind), s, keys);
            r.Ok? && SameButRevision(s.(books := s.books[Precedence(kind) := Restricted(t, keys)]), r.value)
  {
    hide ParseHostname, ApplyEntry, Ceiling, Restricted;
    var i := Precedence(kind);
    if keys == [] {
      RestrictedToNothing(t);
      assert s.books[i := map[]] == s.books;
    } else {
      var front, name := keys[..|keys| - 1], keys[|keys| - 1];
      assert keys == front + [name];
      AdmitterRestores(lib, s, t, kind, front);
      var before := TryFold(Admitter(lib, t, kind), s, front).value;
      RestrictedNames(t, front);
      RestrictedSmaller(t, front, name);
      CeilingFromConfig(s, before);
      ApplyInsertion(lib, before, kind, name, t[name]);
      assert before.books[i := Restricted(t, keys)] == s.books[i := Restricted(t, keys)];
    }
  }

  lemma RestrictedToNothing(t: Table)
    ensures Restricted(t, []) == map[]
  {
  }

  lemma RestrictedNames(t: Table, keys: seq<string>)
    ensures forall h :: h in Restricted(t, keys) <==> h in t && h in keys
  {
  }

  lemma CeilingFromConfig(s: State, t: State)
    requires s.config == t.config
    ensures Ceiling(s) == Ceiling(t)
  {
  }

  lemma CeilingBound(lib: Library, s: State, t: Table)
    requires Config.Valid(lib, s.config) && |t| <= s.config.maxEntries
    ensures |t| <= Ceiling(s) && |t| <= MAX_ENTRIES_PER_BOOK
  {
  }

  lemma AdmitBookRestores(lib: Library, s: State, t: Table, kind: BookKind)
    requires s.books[Precedence(kind)] == map[]
    requires Config.Valid(lib, s.config) && TableValid(lib, t) && |t| <= s.config.maxEntries
    ensures AdmitBook(lib, s, t, kind).Ok?
    ensures SameButRevision(s.(books := s.books[Precedence(kind) := t]), AdmitBook(lib, s, t, kind).value)
  {
    hide Config.Valid, Ceiling, TryFold, TableValid;
    CeilingBound(lib, s, t);
    AdmitterRestores(lib, s, t, kind, SortedKeys(t.Keys));
    assert Restricted(t, SortedKeys(t.Keys)) == t;
  }

  lemma AdmitBooksRestores(lib: Library, s: State, shape: Shape, target: State)
    requires s.books == EMPTY.books && s.config == target.config && Config.Valid(lib, s.config)
    requires BooksValid(lib, target.books, s.config.maxEntries)
    requires shape == Encode(target)
    ensures AdmitBooks(lib, s, shape).Ok?
    ensures SameButRevision(s.(books := target.books), AdmitBooks(lib, s, shape).value)
  {
    hide Config.Valid, TableValid, AdmitBook;
    var b := target.books;
    AdmitBookRestores(lib, s, b[0], Private);
    var s0 := AdmitBook(lib, s, b[0], Private).value;
    AdmitBookRestores(lib, s0, b[1], Local);
    var s1 := AdmitBook(lib, s0, b[1], Local).value;
    AdmitBookRestores(lib, s1, b[2], Router);
    var s2 := AdmitBook(lib, s1, b[2], Router).value;
    AdmitBookRestores(lib, s2, b[3], Published);
    assert EMPTY.books[0 := b[0]][1 := b[1]][2 := b[2]][3 := b[3]] == b;
  }

  lemma {:induction false} NameParserRestores(t: Table, keys: seq<string>)
    requires NamesCanonical(t) && forall k :: k in keys ==> k in t
    ensures TryFold(NameParser(t), map[], keys) == Ok(Restricted(t, keys))
  {
    if keys == [] {
      assert Restricted(t, keys) == map[];
    } else {
      var front, name := keys[..|keys| - 1], keys[|keys| - 1];
      assert keys == front + [name];
      NameParserRestores(t, front);
      assert IsHostname(name);
      assert Restricted(t, front)[name := t[name]] == Restricted(t, keys);
    }
  }

  lemma ParseNamesRestores(t: Table)
    requires NamesCanonical(t)
    ensures ParseNames(t) == Ok(t)
  {
    NameParserRestores(t, SortedKeys(t.Keys));
    assert Restricted(t, SortedKeys(t.Keys)) == t;
  }

  function RestrictedSources(s: map<string, Source>, keys: seq<string>): map<string, Source> {
    map u | u in s && u in keys :: s[u]
  }

  lemma {:induction false} SourceParserRestores(sources: map<string, Source>, keys: seq<string>)
    requires forall u :: u in sources ==> NamesCanonical(sources[u].entries)
    requires forall k :: k in keys ==> k in sources
    ensures TryFold(SourceParser(sources), map[], keys) == Ok(RestrictedSources(sources, keys))
  {
    if keys == [] {
      assert RestrictedSources(sources, keys) == map[];
    } else {
      var front, url := keys[..|keys| - 1], keys[|keys| - 1];
      assert keys == front + [url];
      SourceParserRestores(sources, front);
      ParseNamesRestores(sources[url].entries);
      assert RestrictedSources(sources, front)[url := sources[url]] == RestrictedSources(sources, keys);
    }
  }

  lemma ParseSourcesRestores(sources: map<string, Source>)
    requires forall u :: u in sources ==> NamesCanonical(sources[u].entries)
    ensures ParseSources(sources) == Ok(sources)
  {
    SourceParserRestores(sources, SortedKeys(sources.Keys));
    assert RestrictedSources(sources, SortedKeys(sources.Keys)) == sources;
  }

  /** The stored configuration is the printed configuration, so it is restored over the defaults. */
  lemma ConfigRestores(lib: Library, c: Config.Config)
    requires Config.Valid(lib, c)
    ensures ApplyConfig(lib, EMPTY, ConfigMap(Capture(c))).1.Ok?
    ensures SameButRevision(EMPTY.(config := c), ApplyConfig(lib, EMPTY, ConfigMap(Capture(c))).0)
  {
    hide Config.Valid, Config.CheckedUpdate, Config.ParseKey;
    assert ConfigMap(Capture(c)) == Config.RenderedEntries(c) by {
      forall n | n in Config.KEY_NAMES && Config.ParseKey(n).Some?
        ensures ConfigValue(Capture(c), Config.ParseKey(n).value) == Config.Render(c, Config.ParseKey(n).value) {
      }
    }
    Config.PrintParse(lib, c, Config.DEFAULT);
  }

  lemma SubscriptionsRestore(s: State, target: State)
    requires s.subscribed == map[] && s.sources == map[] && s.urls == [] && UrlsValid(target.urls)
    ensures ReplaceSubscriptions(s, target.urls).1.Ok?
    ensures SameButRevision(s.(urls := target.urls), ReplaceSubscriptions(s, target.urls).0)
  {
    DeduplicatedMeaning(target.urls);
    MergedNothing(target.urls);
    assert Retained(s.sources, target.urls) == map[];
  }

  lemma SourceCountBounded(lib: Library, s: State)
    requires Inv(lib, s)
    ensures |s.sources| <= MAX_SUBSCRIPTION_URLS
  {
    hide SourceValid, Config.Valid, BooksValid, Merged, TableValid;
    DistinctCount(s.urls);
    SubsetCount(s.sources.Keys, Elements(s.urls));
  }

  lemma SubsetCount(a: set<string>, b: set<string>)
    requires a <= b
    ensures |a| <= |b|
  {
    assert b == a + (b - a);
  }

  lemma TableRestores(lib: Library, s: State, t: Table)
    requires s.subscribed == map[] && s.sources == map[]
    requires |t| <= MAX_ENTRIES_PER_BOOK && TableValid(lib, t)
    ensures RestoreTable(lib, s, t).Ok?
    ensures SameButRevision(s.(subscribed := t), RestoreTable(lib, s, t).value)
  {
    hide ParseNames;
    ParseNamesRestores(t);
  }

  lemma SourcesAccepted(lib: Library, s: State, sources: map<string, Source>)
    requires UrlsValid(s.urls) && SourcesValid(lib, s.urls, sources) && sources != map[] && s.sources == map[]
    requires |Merged(s.urls, sources)| <= MAX_ENTRIES_PER_BOOK
    ensures ReplaceSources(lib, s, sources).1.Ok? <==> sources.Keys == Elements(s.urls)
    ensures ReplaceSources(lib, s, sources).1.Ok? ==>
              SameButRevision(s.(sources := sources, subscribed := Merged(s.urls, sources)),
                              ReplaceSources(lib, s, sources).0)
  {
    hide Merged, FirstSourceError, SourceError, Covers;
    CoversExactly(s.urls, sources);
    SourcesChecked(lib, sources, SortedKeys(sources.Keys));
  }

  lemma SourcesRestore(lib: Library, s: State, sources: map<string, Source>)
    requires UrlsValid(s.urls) && SourcesValid(lib, s.urls, sources) && sources != map[] && s.sources == map[]
    requires |Merged(s.urls, sources)| <= MAX_ENTRIES_PER_BOOK
    ensures RestoreSources(lib, s, sources, Merged(s.urls, sources)).Ok? <==> sources.Keys == Elements(s.urls)
    ensures sources.Keys == Elements(s.urls) ==>
              SameButRevision(s.(sources := sources, subscribed := Merged(s.urls, sources)),
                              RestoreSources(lib, s, sources, Merged(s.urls, sources)).value)
  {
    hide Merged, ReplaceSources, ParseSources, UrlsValid, SourceError, NamesCanonical, Elements;
    ParseSourcesRestores(sources);
    SourcesAccepted(lib, s, sources);
  }

  lemma DerivedRestores(lib: Library, s: State, target: State)
    requires Inv(lib, target)
    requires s.subscribed == map[] && s.sources == map[] && s.urls == target.urls
    ensures RestoreDerived(lib, s, Encode(target)).Ok? <==> Persistable(target)
    ensures Persistable(target) ==>
              SameButRevision(s.(subscribed := target.subscribed, sources := target.sources),
                              RestoreDerived(lib, s, Encode(target)).value)
  {
    hide Merged, Config.Valid, BooksValid, UrlsValid, SourcesValid, TableValid, RestoreTable, RestoreSources, Capture;
    SourceCountBounded(lib, target);
    if target.sources == map[] {
      TableRestores(lib, s, target.subscribed);
    } else {
      SourcesRestore(lib, s, target.sources);
    }
  }

  /**
   The exact round trip. A valid book decodes from its own generation exactly when its
   source map is empty or covers the configured URLs, and then it comes back unchanged.
   */
  lemma RoundTrip(lib: Library, s: State)
    requires Inv(lib, s)
    ensures Decode(lib, Encode(s)).Ok? <==> Persistable(s)
    ensures Persistable(s) ==> Decode(lib, Encode(s)) == Ok(s)
  {
    hide Config.Valid, BooksValid, UrlsValid, SourcesValid, TableValid, Merged, ConfigMap, Capture, Persistable;
    hide ApplyConfig, AdmitBooks, ReplaceSubscriptions, RestoreDerived;
    var shape := Encode(s);
    ConfigRestores(lib, s.config);
    var s1 := ApplyConfig(lib, EMPTY, ConfigMap(shape.config)).0;
    AdmitBooksRestores(lib, s1, shape, s);
    var s2 := AdmitBooks(lib, s1, shape).value;
    SubscriptionsRestore(s2, s);
    var s3 := ReplaceSubscriptions(s2, shape.subscriptions).0;
    DerivedRestores(lib, s3, s);
  }

  /** Decoding normalizes: re-encoding an accepted shape's book decodes to that same book. */
  lemma DecodeNormalizes(lib: Library, shape: Shape)
    requires lib.Sound() && Decode(lib, shape).Ok?
    ensures Decode(lib, Encode(Decode(lib, shape).value)) == Decode(lib, shape)
  {
    hide Decode, Inv, Persistable;
    DecodeValid(lib, shape);
    RoundTrip(lib, Decode(lib, shape).value);
  }
}
