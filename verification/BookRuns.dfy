/** Whole runs of control operations: the invariant, resolver freshness and persistability. */
module BookRuns {
  import opened Wrappers
  import opened Bytes
  import opened Text
  import opened OrderedKeys
  import opened Hostname
  import opened Subscription
  import opened Book
  import opened BookInvariant
  import opened Generation
  import Config

  /** One call of the control handle. */
  datatype Op =
    | Entry(mutation: EntryMutation)
    | Subscriptions(urls: seq<string>)
    | Derived(entries: Table)
    | Sources(sources: map<string, Source>)
    | Publish
    | Configure(entries: map<string, string>)

  /** Table names arrive as `Hostname` values, which only parsing creates. */
  ghost predicate Typed(op: Op) {
    match op
    case Derived(entries) => NamesCanonical(entries)
    case Sources(sources) => forall u :: u in sources ==> NamesCanonical(sources[u].entries)
    case _ => true
  }

  function Apply(lib: Library, s: State, op: Op): State {
    match op
    case Entry(m) => ApplyEntry(lib, s, m).0
    case Subscriptions(urls) => ReplaceSubscriptions(s, urls).0
    case Derived(entries) => ReplaceDerived(lib, s, entries).0
    case Sources(sources) => ReplaceSources(lib, s, sources).0
    case Publish => SyncPublished(s).0
    case Configure(entries) => ApplyConfig(lib, s, entries).0
  }

  /** The call reports success. */
  predicate Succeeds(lib: Library, s: State, op: Op) {
    match op
    case Entry(m) => ApplyEntry(lib, s, m).1.Ok?
    case Subscriptions(urls) => ReplaceSubscriptions(s, urls).1.Ok?
    case Derived(entries) => ReplaceDerived(lib, s, entries).1.Ok?
    case Sources(sources) => ReplaceSources(lib, s, sources).1.Ok?
    case Publish => true
    case Configure(entries) => ApplyConfig(lib, s, entries).1.Ok?
  }

  function Run(lib: Library, s: State, ops: seq<Op>): State
    decreases ops
  {
    if ops == [] then s else Run(lib, Apply(lib, s, ops[0]), ops[1..])
  }

  lemma {:induction false} RunConcat(lib: Library, s: State, a: seq<Op>, b: seq<Op>)
    ensures Run(lib, s, a + b) == Run(lib, Run(lib, s, a), b)
    decreases a
  {
    hide Apply;
    if a == [] {
      assert a + b == b;
    } else {
      assert (a + b)[1..] == a[1..] + b;
      RunConcat(lib, Apply(lib, s, a[0]), a[1..], b);
    }
  }

  // ----- the invariant over every run -----

  lemma ApplyKeeps(lib: Library, s: State, op: Op)
    requires lib.Sound() && Inv(lib, s) && Typed(op)
    ensures Inv(lib, Apply(lib, s, op))
  {
    hide Inv, ApplyEntry, ReplaceSubscriptions, ReplaceDerived, ReplaceSources, SyncPublished, ApplyConfig, NamesCanonical;
    match op
    case Entry(m) => ApplyEntryKeeps(lib, s, m);
    case Subscriptions(urls) => ReplaceSubscriptionsKeeps(lib, s, urls);
    case Derived(entries) => ReplaceDerivedKeeps(lib, s, entries);
    case Sources(sources) => ReplaceSourcesKeeps(lib, s, sources);
    case Publish => SyncPublishedKeeps(lib, s);
    case Configure(entries) => ApplyConfigKeeps(lib, s, entries);
  }

  lemma {:induction false} RunKeeps(lib: Library, s: State, ops: seq<Op>)
    requires lib.Sound() && Inv(lib, s) && forall op :: op in ops ==> Typed(op)
    ensures Inv(lib, Run(lib, s, ops))
    decreases ops
  {
    hide Inv, Apply, Typed;
    if ops != [] {
      ApplyKeeps(lib, s, ops[0]);
      RunKeeps(lib, Apply(lib, s, ops[0]), ops[1..]);
    }
  }

  /** Where a book comes from: a new one, or a decoded generation. */
  ghost predicate Origin(lib: Library, s: State) {
    s == EMPTY || exists shape :: Decode(lib, shape) == Ok(s)
  }

  ghost predicate Reachable(lib: Library, s: State) {
    exists start, ops :: Origin(lib, start) && (forall op :: op in ops ==> Typed(op)) && s == Run(lib, start, ops)
  }

  /** Every reachable book satisfies the whole-book invariant. */
  lemma ReachableInv(lib: Library, s: State)
    requires lib.Sound() && Reachable(lib, s)
    ensures Inv(lib, s)
  {
    hide Inv, Run, Typed, Decode;
    var start, ops :| Origin(lib, start) && (forall op :: op in ops ==> Typed(op)) && s == Run(lib, start, ops);
    if start == EMPTY {
      EmptyInv(lib);
    } else {
      var shape :| Decode(lib, shape) == Ok(start);
      DecodeValid(lib, shape);
    }
    RunKeeps(lib, start, ops);
  }

  /** The round trip on every reachable book, with its exact condition. */
  lemma ReachableRoundTrip(lib: Library, s: State)
    requires lib.Sound() && Reachable(lib, s)
    ensures Decode(lib, Encode(s)).Ok? <==> s.sources == map[] || s.sources.Keys == Elements(s.urls)
    ensures Decode(lib, Encode(s)).Ok? ==> Decode(lib, Encode(s)) == Ok(s)
  {
    hide Reachable, Inv, Decode, Encode;
    ReachableInv(lib, s);
    RoundTrip(lib, s);
  }

  // ----- revisions and resolvers -----

  /** A call either leaves the book exactly as it was, or commits and moves the saturating revision. */
  lemma CommitOrNothing(lib: Library, s: State, op: Op)
    ensures Apply(lib, s, op) == s ||
            Apply(lib, s, op).revision == if s.revision < U64_MAX then s.revision + 1 else s.revision
    ensures !Succeeds(lib, s, op) ==> Apply(lib, s, op) == s
  {
    hide ParseHostname, CheckedSet, Merged, FirstSourceError, Config.CheckedUpdate, Covers, DestinationsValid, Retained;
  }

  lemma {:induction false} RevisionTellsState(lib: Library, s: State, ops: seq<Op>)
    ensures Run(lib, s, ops).revision >= s.revision
    ensures Run(lib, s, ops).revision == s.revision < U64_MAX ==> Run(lib, s, ops) == s
    decreases ops
  {
    hide Apply, Succeeds;
    if ops != [] {
      CommitOrNothing(lib, s, ops[0]);
      RevisionTellsState(lib, Apply(lib, s, ops[0]), ops[1..]);
    }
  }

  /** What a resolver holds: tables copied out of the book, and the revision they were copied at. */
  datatype Snapshot = Snapshot(
    books: Books, subscribed: Table, subscriptions: seq<string>, config: map<string, string>, revision: u64)

  function CaptureSnapshot(s: State): Snapshot {
    Snapshot(s.books, s.subscribed, s.urls, Config.RenderedEntries(s.config), s.revision)
  }

  function Resolve(snapshot: Snapshot, raw: string): Option<ResolvedEntry> {
    LookupIn(snapshot.books, snapshot.subscribed, raw)
  }

  /**
   A resolver is never silently stale: capture at any point of a run, continue the run,
   and if the live revision is still the captured one and below the saturation point,
   resolver and live book answer every name alike, provenance included.
   */
  lemma NeverSilentlyStale(lib: Library, start: State, before: seq<Op>, after: seq<Op>, raw: string)
    requires Run(lib, start, before + after).revision == Run(lib, start, before).revision < U64_MAX
    ensures Resolve(CaptureSnapshot(Run(lib, start, before)), raw) == Lookup(Run(lib, start, before + after), raw)
  {
    hide Run, LookupIn, Config.RenderedEntries;
    RunConcat(lib, start, before, after);
    RevisionTellsState(lib, Run(lib, start, before), after);
  }

  /** A commit is visible in the revision exactly when the revision is not saturated. */
  lemma CommitVisible(lib: Library, s: State, op: Op)
    requires Apply(lib, s, op) != s
    ensures Apply(lib, s, op).revision != s.revision <==> s.revision < U64_MAX
  {
    hide Apply, Succeeds;
    CommitOrNothing(lib, s, op);
  }

  /** Storing `h` changes what `h` resolves to and leaves the revision. */
  ghost predicate HiddenCommit(lib: Library, s: State, h: string, d: string) {
    var t := Apply(lib, s, Op.Entry(Insertion(Private, h, d)));
    t.revision == s.revision && Resolve(CaptureSnapshot(s), h) != Lookup(t, h)
  }

  /** At the saturation point freshness fails: storing a new name changes an answer, not the revision. */
  lemma SaturatedRevisionHidesCommit(lib: Library, s: State, h: string, d: string)
    requires s.revision == U64_MAX && IsHostname(h) && lib.destination(d)
    requires h !in s.books[0] && |s.books[0]| < Ceiling(s)
    ensures HiddenCommit(lib, s, h, d)
  {
    hide ApplyEntry, Ceiling, ParseHostname, Config.RenderedEntries;
    ApplyInsertion(lib, s, Private, h, d);
  }

  /** A saturated book is reachable: a generation may store any revision. */
  lemma SaturatedReachable(lib: Library)
    ensures Reachable(lib, EMPTY.(revision := U64_MAX))
  {
    hide Decode, Encode, Inv, Typed;
    var s := EMPTY.(revision := U64_MAX);
    EmptyInv(lib);
    RevisionIrrelevant(lib, EMPTY, U64_MAX);
    RoundTrip(lib, s);
    assert Origin(lib, s);
    assert s == Run(lib, s, []);
  }

  /** So a reachable book exists on which freshness fails, for any name and destination. */
  lemma StaleResolverReachable(lib: Library, h: string, d: string)
    requires IsHostname(h) && lib.destination(d)
    ensures exists s :: Reachable(lib, s) && HiddenCommit(lib, s, h, d)
  {
    hide Reachable, HiddenCommit;
    var s := EMPTY.(revision := U64_MAX);
    SaturatedReachable(lib);
    SaturatedRevisionHidesCommit(lib, s, h, d);
  }

  // ----- operator entries and subscription traffic -----

  predicate IsSubscriptionOp(op: Op) { op.Subscriptions? || op.Derived? || op.Sources? }

  lemma SubscriptionLeavesBooks(lib: Library, s: State, op: Op)
    requires IsSubscriptionOp(op)
    ensures Apply(lib, s, op).books == s.books
  {
    hide CheckedSet, Merged, FirstSourceError, Covers, DestinationsValid, Retained, ApplyEntry, ApplyConfig, SyncPublished;
  }

  lemma {:induction false} SubscriptionsLeaveBooks(lib: Library, s: State, ops: seq<Op>)
    requires forall op :: op in ops ==> IsSubscriptionOp(op)
    ensures Run(lib, s, ops).books == s.books
    decreases ops
  {
    hide Apply, IsSubscriptionOp;
    if ops != [] {
      assert ops[0] in ops;
      SubscriptionLeavesBooks(lib, s, ops[0]);
      SubscriptionsLeaveBooks(lib, Apply(lib, s, ops[0]), ops[1..]);
    }
  }

  /**
   No run of downloads overrides or resurrects an operator entry: an answer from a book
   stays, and a name no book holds is never answered from a book.
   */
  lemma OperatorEntriesStable(lib: Library, s: State, ops: seq<Op>, raw: string, e: ResolvedEntry)
    requires forall op :: op in ops ==> IsSubscriptionOp(op)
    requires e.provenance.FromBook?
    ensures Lookup(Run(lib, s, ops), raw) == Some(e) <==> Lookup(s, raw) == Some(e)
  {
    hide Run, ParseHostname;
    SubscriptionsLeaveBooks(lib, s, ops);
    LookupPrecedence(s, raw, e);
    LookupPrecedence(Run(lib, s, ops), raw, e);
  }

  // ----- when a book stops being persistable -----

  /** Keeping sources across a URL change is a merge of the retained ones in the new order, nothing else. */
  lemma UrlChangeMeaning(s: State, urls: seq<string>, h: string)
    requires ReplaceSubscriptions(s, urls).1 == Ok(true)
    ensures var t := ReplaceSubscriptions(s, urls).0;
      && t.urls == Deduplicated(urls)
      && (forall u :: u in t.sources <==> u in s.sources && u in urls)
      && (forall u :: u in t.sources ==> t.sources[u] == s.sources[u])
      && t.subscribed == Merged(t.urls, s.sources)
      && t.books == s.books && t.config == s.config
      && (h in t.subscribed <==> exists i: nat :: SourceHas(t.urls, s.sources, i, h))
  {
    hide ValidUrl, Merged;
    DeduplicatedMeaning(urls);
    var next := Deduplicated(urls);
    assert forall u :: u in next <==> u in Elements(next);
    assert forall u :: u in urls <==> u in Elements(urls);
    MergedRetained(next, s.sources, next);
    MergedMeaning(next, s.sources, h);
  }

  lemma {:induction false} MergedRetained(urls: seq<string>, sources: map<string, Source>, kept: seq<string>)
    requires forall u :: u in urls ==> u in kept
    ensures Merged(urls, Retained(sources, kept)) == Merged(urls, sources)
  {
    if urls != [] {
      MergedRetained(urls[..|urls| - 1], sources, kept);
      assert urls[|urls| - 1] in urls;
    }
  }

  /**
   Which URL changes a persistable book with sources survives: exactly those whose new
   URLs are all among the loaded ones, or none of them.
   */
  lemma UrlChangePersistable(lib: Library, s: State, urls: seq<string>)
    requires Inv(lib, s) && Persistable(s) && s.sources != map[]
    requires CheckedSet(urls).Ok?
    ensures Persistable(ReplaceSubscriptions(s, urls).0) <==>
              Elements(urls) <= Elements(s.urls) || Elements(urls) * Elements(s.urls) == {}
  {
    hide Inv, ValidUrl, Merged, Deduplicated;
    DeduplicatedMeaning(urls);
    var next := Deduplicated(urls);
    assert forall u :: u in next <==> u in Elements(next);
    if next == s.urls {
      assert Elements(urls) == Elements(s.urls);
    } else {
      var kept, loaded, wanted := Retained(s.sources, next), s.sources.Keys, Elements(urls);
      assert kept.Keys == loaded * wanted;
      assert kept == map[] <==> kept.Keys == {};
      assert loaded * wanted == wanted <==> wanted <= loaded;
      assert loaded * wanted == {} <==> wanted * loaded == {};
      assert ReplaceSubscriptions(s, urls).0.sources == kept;
    }
  }

  /** Installing a full set of sources always leaves a book that reads back. */
  lemma SourcesMakePersistable(lib: Library, s: State, sources: map<string, Source>)
    requires Inv(lib, s) && ReplaceSources(lib, s, sources).1.Ok?
    ensures Persistable(ReplaceSources(lib, s, sources).0)
  {
    hide Config.Valid, BooksValid, SourcesValid, TableValid, ReplaceSources, Covers;
    ReplaceSourcesInstalls(lib, s, sources);
    CoversExactly(s.urls, sources);
  }

  const NO_ENTRIES := Source(map[], None, None)

  /** Three ordinary calls: one URL, its (empty) download, then a second URL. */
  function UnreadableRun(one: string, two: string): seq<Op> {
    [Subscriptions([one]), Sources(map[one := NO_ENTRIES]), Subscriptions([one, two])]
  }

  lemma CheckedOne(one: string)
    requires ValidUrl(one)
    ensures CheckedSet([one]) == Ok([one])
  {
    hide ValidUrl;
    assert [one][..0] == [];
    DeduplicatedMeaning([one]);
  }

  lemma CheckedTwo(one: string, two: string)
    requires ValidUrl(one) && ValidUrl(two) && one != two
    ensures CheckedSet([one, two]) == Ok([one, two])
  {
    hide ValidUrl, Deduplicated;
    DeduplicatedMeaning([one, two]);
  }

  lemma FirstDownload(lib: Library, one: string)
    requires ValidUrl(one)
    ensures var s := Apply(lib, EMPTY, Subscriptions([one]));
            var t := Apply(lib, s, Sources(map[one := NO_ENTRIES]));
            t.urls == [one] && t.sources == map[one := NO_ENTRIES]
  {
    hide ValidUrl, CheckedSet, Deduplicated, Merged;
    CheckedOne(one);
    var s := Apply(lib, EMPTY, Subscriptions([one]));
    var sources := map[one := NO_ENTRIES];
    SourcesChecked(lib, sources, SortedKeys(sources.Keys));
    assert |sources| == 1;
    MergedOne(one);
  }

  lemma MergedOne(one: string)
    ensures Merged([one], map[one := NO_ENTRIES]) == map[]
  {
    assert [one][..0] == [];
  }

  /**
   Not every reachable book reads back: load the first URL, then configure a second one.
   The run succeeds at every step, yet the generation it persists is rejected.
   */
  lemma UnreadableBook(lib: Library, one: string, two: string)
    requires lib.Sound() && ValidUrl(one) && ValidUrl(two) && one != two
    ensures var s := Run(lib, EMPTY, UnreadableRun(one, two));
            && Reachable(lib, s)
            && s.urls == [one, two] && s.sources.Keys == {one}
            && Decode(lib, Encode(s)).Err?
  {
    hide ValidUrl, CheckedSet, Merged, Decode, Encode, Inv, ReplaceSources, ApplyEntry, ApplyConfig, ReplaceDerived;
    var ops := UnreadableRun(one, two);
    var s1 := Apply(lib, EMPTY, ops[0]);
    var s2 := Apply(lib, s1, ops[1]);
    FirstDownload(lib, one);
    CheckedTwo(one, two);
    var s3 := Apply(lib, s2, ops[2]);
    assert s3.urls == [one, two] && s3.sources.Keys == {one};
    assert Run(lib, EMPTY, ops) == s3 by {
      assert ops[1..] == [ops[1], ops[2]] && ops[1..][1..] == [ops[2]] && ops[1..][1..][1..] == [];
      assert Run(lib, s2, [ops[2]]) == s3 by { assert [ops[2]][1..] == []; }
      assert Run(lib, s1, [ops[1], ops[2]]) == Run(lib, s2, [ops[2]]) by { assert [ops[1], ops[2]][1..] == [ops[2]]; }
    }
    assert Origin(lib, EMPTY);
    assert Reachable(lib, s3);
    ReachableRoundTrip(lib, s3);
    assert two in Elements(s3.urls) && two !in s3.sources;
  }

  lemma ExampleUrls()
    ensures ValidUrl("http://a.i2p/") && ValidUrl("http://b.i2p/")
  {
    ExampleUrl('a');
    ExampleUrl('b');
    assert "http://" + ['a'] + ".i2p/" == "http://a.i2p/";
    assert "http://" + ['b'] + ".i2p/" == "http://b.i2p/";
  }

  lemma ExampleUrl(c: char)
    requires IsLower(c)
    ensures ValidUrl("http://" + [c] + ".i2p/")
  {
    var url := "http://" + [c] + ".i2p/";
    assert Lower(url) == url;
    var host := [c] + ".i2p";
    assert url[7..] == host + "/";
    AuthorityEndsAtSlash(host);
    SplitWhole(host, ':');
    assert host[1..] == ".i2p";
  }

  lemma {:induction false} AuthorityEndsAtSlash(host: string)
    requires forall i :: 0 <= i < |host| ==> host[i] !in {'/', '?', '#'}
    ensures Authority(host + "/") == host
  {
    if host != [] {
      assert (host + "/")[1..] == host[1..] + "/";
      AuthorityEndsAtSlash(host[1..]);
      assert host == [host[0]] + host[1..];
    }
  }
}
