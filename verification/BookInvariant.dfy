/** What every committed address book satisfies, and that each control operation keeps it. */
module BookInvariant {
  import opened Text
  import opened OrderedKeys
  import opened Hostname
  import opened Subscription
  import opened Book
  import Config

  ghost predicate NamesCanonical(t: Table) { forall h :: h in t ==> IsHostname(h) }

  ghost predicate TableValid(lib: Library, t: Table) { NamesCanonical(t) && DestinationsValid(lib, t) }

  ghost predicate SourceValid(lib: Library, source: Source) {
    NamesCanonical(source.entries) && SourceError(lib, source).None?
  }

  ghost predicate UrlsValid(urls: seq<string>) {
    |urls| <= MAX_SUBSCRIPTION_URLS && Distinct(urls) && forall i :: 0 <= i < |urls| ==> ValidUrl(urls[i])
  }

  ghost predicate SourcesValid(lib: Library, urls: seq<string>, sources: map<string, Source>) {
    forall u :: u in sources ==> u in urls && SourceValid(lib, sources[u])
  }

  ghost predicate BooksValid(lib: Library, books: Books, maxEntries: nat) {
    forall i :: 0 <= i < 4 ==> |books[i]| <= maxEntries && TableValid(lib, books[i])
  }

  /** The whole-book invariant. */
  ghost predicate Inv(lib: Library, s: State) {
    && Config.Valid(lib, s.config)
    && BooksValid(lib, s.books, s.config.maxEntries)
    && UrlsValid(s.urls)
    && SourcesValid(lib, s.urls, s.sources)
    && (s.sources != map[] ==> s.subscribed == Merged(s.urls, s.sources))
    && |s.subscribed| <= MAX_ENTRIES_PER_BOOK
    && TableValid(lib, s.subscribed)
  }

  lemma EmptyInv(lib: Library)
    ensures Inv(lib, EMPTY)
  {
    Config.DefaultValid(lib);
  }

  // ----- the merge -----

  lemma {:induction false} MergedNames(urls: seq<string>, sources: map<string, Source>, h: string)
    requires h in Merged(urls, sources)
    ensures exists u :: u in urls && u in sources && h in sources[u].entries
                        && Merged(urls, sources)[h] == sources[u].entries[h]
  {
    var n := |urls| - 1;
    var u := urls[n];
    if !(u in sources && h in sources[u].entries) {
      MergedNames(urls[..n], sources, h);
      var v :| v in urls[..n] && v in sources && h in sources[v].entries
               && Merged(urls[..n], sources)[h] == sources[v].entries[h];
      assert v in urls;
    }
  }

  lemma {:induction false} MergedContains(urls: seq<string>, sources: map<string, Source>, u: string, h: string)
    requires u in urls && u in sources && h in sources[u].entries
    ensures h in Merged(urls, sources)
  {
    var n := |urls| - 1;
    if u != urls[n] {
      assert u in urls[..n];
      MergedContains(urls[..n], sources, u, h);
    }
  }

  lemma {:induction false} MergedValid(lib: Library, urls: seq<string>, sources: map<string, Source>)
    requires forall u :: u in sources ==> SourceValid(lib, sources[u])
    ensures TableValid(lib, Merged(urls, sources))
  {
    if urls != [] {
      var before, url := Merged(urls[..|urls| - 1], sources), urls[|urls| - 1];
      MergedValid(lib, urls[..|urls| - 1], sources);
      if url in sources {
        assert SourceValid(lib, sources[url]);
        OverriddenValid(lib, before, sources[url].entries);
      }
    }
  }

  lemma OverriddenValid(lib: Library, a: Table, b: Table)
    requires TableValid(lib, a) && TableValid(lib, b)
    ensures TableValid(lib, a + b)
  {
  }

  /** Keeping only some sources, in any order, never introduces a name. */
  lemma MergedShrinks(urls: seq<string>, sources: map<string, Source>, next: seq<string>)
    requires forall u :: u in sources ==> u in urls
    ensures |Merged(next, Retained(sources, next))| <= |Merged(urls, sources)|
  {
    var kept := Retained(sources, next);
    forall h | h in Merged(next, kept) ensures h in Merged(urls, sources) {
      MergedNames(next, kept, h);
      var u :| u in next && u in kept && h in kept[u].entries;
      MergedContains(urls, sources, u, h);
    }
    SubTableSmaller(Merged(next, kept), Merged(urls, sources));
  }

  lemma {:induction false} MergedNothing(urls: seq<string>)
    ensures Merged(urls, map[]) == map[]
  {
    if urls != [] { MergedNothing(urls[..|urls| - 1]); }
  }

  lemma CheckedSetValid(urls: seq<string>)
    requires CheckedSet(urls).Ok?
    ensures UrlsValid(CheckedSet(urls).value)
  {
    DeduplicatedMeaning(urls);
    var next := CheckedSet(urls).value;
    forall i | 0 <= i < |next| ensures ValidUrl(next[i]) {
      assert next[i] in Elements(next);
      assert next[i] in urls;
    }
  }

  lemma {:induction false} SourcesChecked(lib: Library, sources: map<string, Source>, keys: seq<string>)
    requires forall k :: k in keys ==> k in sources
    ensures FirstSourceError(lib, sources, keys).None? <==>
              forall k :: k in keys ==> SourceError(lib, sources[k]).None?
  {
    if keys != [] {
      SourcesChecked(lib, sources, keys[1..]);
      assert keys == [keys[0]] + keys[1..];
    }
  }

  lemma CoversExactly(urls: seq<string>, sources: map<string, Source>)
    requires Distinct(urls)
    ensures Covers(urls, sources) <==> sources.Keys == Elements(urls)
  {
    DistinctCount(urls);
    if Covers(urls, sources) { SameSizeSubset(Elements(urls), sources.Keys); }
  }

  lemma {:induction false} DistinctCount(s: seq<string>)
    requires Distinct(s)
    ensures |Elements(s)| == |s|
  {
    if s != [] {
      var front, last := s[..|s| - 1], s[|s| - 1];
      DistinctCount(front);
      assert s == front + [last];
      assert last !in front;
      assert Elements(s) == Elements(front) + {last};
    }
  }

  lemma SameSizeSubset(a: set<string>, b: set<string>)
    requires a <= b && |a| == |b|
    ensures a == b
  {
    assert |b - a| == |b| - |a|;
  }

  // ----- each operation keeps the invariant -----

  lemma RemovedKeeps(lib: Library, t: Table, h: string, n: nat)
    requires TableValid(lib, t) && |t| <= n
    ensures TableValid(lib, t - {h}) && |t - {h}| <= n
  {
    SubTableSmaller(t - {h}, t);
  }

  lemma StoredKeeps(lib: Library, t: Table, h: string, d: string, n: nat)
    requires TableValid(lib, t) && IsHostname(h) && lib.destination(d)
    requires if h in t then |t| <= n else |t| < n
    ensures TableValid(lib, t[h := d]) && |t[h := d]| <= n
  {
    assert t[h := d].Keys == t.Keys + {h};
    if h in t {
      assert t.Keys + {h} == t.Keys;
    } else {
      assert |t.Keys + {h}| == |t.Keys| + 1;
    }
  }

  lemma ReplacedKeeps(lib: Library, books: Books, i: nat, t: Table, n: nat)
    requires BooksValid(lib, books, n) && i < 4 && TableValid(lib, t) && |t| <= n
    ensures BooksValid(lib, books[i := t], n)
  {
  }

  lemma ApplyEntryKeeps(lib: Library, s: State, m: EntryMutation)
    requires Inv(lib, s)
    ensures Inv(lib, ApplyEntry(lib, s, m).0)
  {
    var t := ApplyEntry(lib, s, m).0;
    if t != s {
      var h, i, n := ParseHostname(m.hostname).value, Precedence(m.book), s.config.maxEntries;
      ParseIdempotent(m.hostname);
      var table := s.books[i];
      assert TableValid(lib, table) && |table| <= n;
      if m.delete {
        RemovedKeeps(lib, table, h, n);
        ReplacedKeeps(lib, s.books, i, table - {h}, n);
      } else {
        StoredKeeps(lib, table, h, m.destination.value, n);
        ReplacedKeeps(lib, s.books, i, table[h := m.destination.value], n);
      }
    }
  }

  lemma ReplaceSubscriptionsKeeps(lib: Library, s: State, urls: seq<string>)
    requires Inv(lib, s)
    ensures Inv(lib, ReplaceSubscriptions(s, urls).0)
  {
    var t := ReplaceSubscriptions(s, urls).0;
    if t != s {
      CheckedSetValid(urls);
      MergedValid(lib, t.urls, t.sources);
      if s.sources == map[] {
        assert t.sources == map[];
        MergedNothing(t.urls);
      } else {
        MergedShrinks(s.urls, s.sources, t.urls);
      }
    }
  }

  lemma ReplaceDerivedKeeps(lib: Library, s: State, entries: Table)
    requires Inv(lib, s) && NamesCanonical(entries)
    ensures Inv(lib, ReplaceDerived(lib, s, entries).0)
  {
  }

  /** Whatever a subscription body ingests to is a table the book takes, keeping its invariant. */
  lemma IngestedAccepted(lib: Library, s: State, body: string)
    requires Inv(lib, s) && Ingest(lib, body).Ok?
    ensures var t := ReplaceDerived(lib, s, Ingest(lib, body).value);
      t.1.Ok? && t.0.subscribed == Ingest(lib, body).value && Inv(lib, t.0)
  {
    hide Ingest;
    IngestedEntriesValid(lib, body);
    ReplaceDerivedKeeps(lib, s, Ingest(lib, body).value);
  }

  lemma ReplaceSourcesKeeps(lib: Library, s: State, sources: map<string, Source>)
    requires Inv(lib, s) && forall u :: u in sources ==> NamesCanonical(sources[u].entries)
    ensures Inv(lib, ReplaceSources(lib, s, sources).0)
  {
    hide Config.Valid, BooksValid, Merged, FirstSourceError, SourceError, Covers, TableValid, NamesCanonical;
    var t := ReplaceSources(lib, s, sources).0;
    if t != s {
      SourcesChecked(lib, sources, SortedKeys(sources.Keys));
      CoversExactly(s.urls, sources);
      MergedValid(lib, s.urls, sources);
    }
  }

  lemma SyncPublishedKeeps(lib: Library, s: State)
    requires Inv(lib, s)
    ensures Inv(lib, SyncPublished(s).0)
  {
  }

  lemma ApplyConfigKeeps(lib: Library, s: State, entries: map<string, string>)
    requires lib.Sound() && Inv(lib, s)
    ensures Inv(lib, ApplyConfig(lib, s, entries).0)
  {
    if Config.CheckedUpdate(lib, s.config, entries).Ok? {
      Config.UpdateKeepsValid(lib, s.config, entries);
    }
  }
}
