/** The address book as the owner updates it in place, and the decoding method that drives it. */
module AddressBook {
  import opened Wrappers
  import opened Bytes
  import opened Text
  import opened OrderedKeys
  import opened Folds
  import opened AddressBookErrors
  import opened Hostname
  import opened Subscription
  import opened Book
  import opened BookInvariant
  import opened Generation
  import Config

  class AddressBook {
    const lib: Library
    var books: Books
    var subscribed: Table
    var sources: map<string, Source>
    var urls: seq<string>
    var config: Config.Config
    var revision: u64

    /** The committed state as one value. */
    ghost function Committed(): State
      reads this
    {
      State(books, subscribed, sources, urls, config, revision)
    }

    ghost predicate Valid()
      reads this
    {
      lib.Sound() && Inv(lib, Committed())
    }

    constructor (lib: Library)
      requires lib.Sound()
      ensures this.lib == lib && Valid() && Committed() == EMPTY
    {
      this.lib := lib;
      books, subscribed, sources, urls := EMPTY.books, map[], map[], [];
      config, revision := Config.DEFAULT, 0;
      new;
      EmptyInv(lib);
    }

    method BumpRevision()
      modifies `revision
      ensures Committed() == Bumped(old(Committed()))
    {
      revision := if revision == U64_MAX then U64_MAX else revision + 1;
    }

    method ApplyEntry(m: EntryMutation) returns (r: Result<EntryOutcome, Error>)
      requires Valid()
      modifies this
      ensures Valid()
      ensures (Committed(), r) == Book.ApplyEntry(lib, old(Committed()), m)
    {
      hide Inv, ParseHostname;
      ApplyEntryKeeps(lib, Committed(), m);
      if m.delete && m.destination.Some? { return Err(MixedShapes); }
      var parsed := ParseHostname(m.hostname);
      if parsed.Err? { return Err(parsed.error); }
      var hostname, index := parsed.value, Precedence(m.book);
      if m.delete {
        if hostname !in books[index] { return Err(UnknownHostname); }
        books := books[index := books[index] - {hostname}];
        BumpRevision();
        return Ok(Deleted);
      }
      if m.destination.None? { return Err(MalformedField); }
      if !lib.destination(m.destination.value) { return Err(InvalidDestination); }
      var created := hostname !in books[index];
      if created {
        var ceiling := if config.maxEntries < 1 then 1
                       else if config.maxEntries > MAX_ENTRIES_PER_BOOK then MAX_ENTRIES_PER_BOOK
                       else config.maxEntries;
        if |books[index]| >= ceiling { return Err(BookFull); }
      }
      books := books[index := books[index][hostname := m.destination.value]];
      BumpRevision();
      return Ok(if created then Created else Updated);
    }

    method ReplaceSubscriptions(requested: seq<string>) returns (r: Result<bool, Error>)
      requires Valid()
      modifies this
      ensures Valid()
      ensures (Committed(), r) == Book.ReplaceSubscriptions(old(Committed()), requested)
    {
      hide Inv, CheckedSet, Merged;
      ReplaceSubscriptionsKeeps(lib, Committed(), requested);
      var next := Checked(requested);
      if next.Err? { return Err(next.error); }
      var changed := next.value != urls;
      if changed {
        urls := next.value;
        sources := Retained(sources, urls);
        subscribed := MergeSubscriptionSources(urls, sources);
        BumpRevision();
      }
      return Ok(changed);
    }

    method ReplaceDerived(entries: Table) returns (r: Result<bool, Error>)
      requires Valid() && NamesCanonical(entries)
      modifies this
      ensures Valid()
      ensures (Committed(), r) == Book.ReplaceDerived(lib, old(Committed()), entries)
    {
      hide Inv, DestinationsValid;
      ReplaceDerivedKeeps(lib, Committed(), entries);
      if |entries| > MAX_ENTRIES_PER_BOOK { return Err(ListOverBound); }
      var valid := AllDestinationsValid(lib, entries);
      if !valid { return Err(InvalidDestination); }
      var changed := entries != subscribed;
      if changed {
        subscribed := entries;
        sources := map[];
        BumpRevision();
      }
      return Ok(changed);
    }

    method ReplaceSubscriptionSources(next: map<string, Source>) returns (r: Result<bool, Error>)
      requires Valid() && forall u :: u in next ==> NamesCanonical(next[u].entries)
      modifies this
      ensures Valid()
      ensures (Committed(), r) == Book.ReplaceSources(lib, old(Committed()), next)
    {
      hide Inv, Covers, FirstSourceError, Merged;
      ReplaceSourcesKeeps(lib, Committed(), next);
      var covers := SourcesCover(urls, next);
      if !covers { return Err(InvalidSubscription); }
      var bad := CheckSources(lib, next);
      if bad.Some? { return Err(bad.value); }
      var derived := MergeSubscriptionSources(urls, next);
      if |derived| > MAX_ENTRIES_PER_BOOK { return Err(ListOverBound); }
      var changed := next != sources || derived != subscribed;
      if changed {
        sources := next;
        subscribed := derived;
        BumpRevision();
      }
      return Ok(changed);
    }

    method SyncPublishedFromRouter() returns (changed: bool)
      requires Valid()
      modifies this
      ensures Valid()
      ensures (Committed(), changed) == Book.SyncPublished(old(Committed()))
    {
      hide Inv;
      SyncPublishedKeeps(lib, Committed());
      if !config.shouldPublish { return false; }
      var router := books[Precedence(Router)];
      if books[Precedence(Published)] == router { return false; }
      books := books[Precedence(Published) := router];
      BumpRevision();
      return true;
    }

    method ApplyConfig(entries: map<string, string>) returns (r: Result<bool, Error>)
      requires Valid()
      modifies this
      ensures Valid()
      ensures (Committed(), r) == Book.ApplyConfig(lib, old(Committed()), entries)
    {
      hide Inv, Config.CheckedUpdate;
      ApplyConfigKeeps(lib, Committed(), entries);
      var next := Config.RunCheckedUpdate(lib, config, entries);
      if next.Err? { return Err(next.error); }
      for i := 0 to 4
        invariant forall j :: 0 <= j < i ==> |books[j]| <= next.value.maxEntries
        invariant Committed() == old(Committed())
      {
        if |books[i]| > next.value.maxEntries { return Err(InvalidConfigValue); }
      }
      var changed := next.value != config;
      if changed {
        config := next.value;
        BumpRevision();
      }
      return Ok(changed);
    }

    method Lookup(raw: string) returns (r: Option<ResolvedEntry>)
      ensures r == Book.Lookup(Committed(), raw)
    {
      hide ParseHostname;
      var parsed := ParseHostname(raw);
      if parsed.Err? { return None; }
      var hostname := parsed.value;
      var kinds := [Private, Local, Router, Published];
      for i := 0 to 4
        invariant forall j :: 0 <= j < i ==> hostname !in books[j]
      {
        assert Precedence(kinds[i]) == i;
        if hostname in books[i] {
          return Some(ResolvedEntry(hostname, books[i][hostname], FromBook(kinds[i])));
        }
      }
      if hostname in subscribed { return Some(ResolvedEntry(hostname, subscribed[hostname], Subscribed)); }
      return None;
    }
  }

  method AllDestinationsValid(lib: Library, entries: Table) returns (valid: bool)
    ensures valid == DestinationsValid(lib, entries)
  {
    var rest := entries.Keys;
    while rest != {}
      invariant rest <= entries.Keys
      invariant forall h :: h in entries && h !in rest ==> lib.destination(entries[h])
    {
      var h := Least(rest);
      if !lib.destination(entries[h]) { return false; }
      rest := rest - {h};
    }
    return true;
  }

  method SourcesCover(urls: seq<string>, sources: map<string, Source>) returns (covers: bool)
    ensures covers == Covers(urls, sources)
  {
    if |sources| != |urls| { return false; }
    for i := 0 to |urls|
      invariant forall j :: 0 <= j < i ==> urls[j] in sources
    {
      if urls[i] !in sources { return false; }
    }
    return true;
  }

  lemma FirstSourceStep(lib: Library, sources: map<string, Source>, keys: seq<string>, i: nat)
    requires (forall k :: k in keys ==> k in sources) && i <= |keys|
    ensures FirstSourceError(lib, sources, keys[i..]) ==
            if i == |keys| then None
            else if SourceError(lib, sources[keys[i]]).Some? then SourceError(lib, sources[keys[i]])
            else FirstSourceError(lib, sources, keys[i + 1..])
  {
    hide SourceError;
    if i < |keys| { assert keys[i..][1..] == keys[i + 1..]; }
  }

  method CheckSources(lib: Library, sources: map<string, Source>) returns (bad: Option<Error>)
    ensures bad == FirstSourceError(lib, sources, SortedKeys(sources.Keys))
  {
    hide ValidValidator, SortedKeys, Distinct, Ascending, FirstSourceError;
    var keys := SortedKeys(sources.Keys);
    assert keys[0..] == keys;
    for i := 0 to |keys|
      invariant FirstSourceError(lib, sources, keys) == FirstSourceError(lib, sources, keys[i..])
    {
      var source := sources[keys[i]];
      FirstSourceStep(lib, sources, keys, i);
      if |source.entries| > MAX_ENTRIES_PER_BOOK { return Some(ListOverBound); }
      if source.etag.Some? && !ValidValidator(source.etag.value) { return Some(InvalidConfigValue); }
      if source.lastModified.Some? && !ValidValidator(source.lastModified.value) { return Some(InvalidConfigValue); }
      var valid := AllDestinationsValid(lib, source.entries);
      if !valid { return Some(InvalidDestination); }
    }
    FirstSourceStep(lib, sources, keys, |keys|);
    return None;
  }

  // ----- decoding -----

  method AdmitEntries(book: AddressBook, entries: Table, kind: BookKind) returns (r: Result<(), Error>)
    requires book.Valid()
    modifies book
    ensures book.Valid()
    ensures match AdmitBook(book.lib, old(book.Committed()), entries, kind)
            case Ok(s) => r == Ok(()) && book.Committed() == s
            case Err(e) => r == Err(e)
  {
    hide Inv, Book.ApplyEntry, TryFold, SortedKeys, Distinct, Ascending;
    if |entries| > MAX_ENTRIES_PER_BOOK { return Err(InvalidGeneration); }
    var keys := SortedKeys(entries.Keys);
    ghost var step := Admitter(book.lib, entries, kind);
    ghost var start := book.Committed();
    assert TryFold(step, start, keys[..0]) == Ok(start) by { TryFoldNone(step, start, keys); }
    for i := 0 to |keys|
      invariant book.Valid()
      invariant TryFold(step, start, keys[..i]) == Ok(book.Committed())
    {
      TryFoldSnoc(step, start, keys, i);
      var outcome := book.ApplyEntry(Insertion(kind, keys[i], entries[keys[i]]));
      if outcome.Err? {
        TryFoldStops(step, start, keys, i + 1);
        return Err(InvalidGeneration);
      }
    }
    assert keys[..|keys|] == keys;
    return Ok(());
  }

  method RestoreSubscribed(book: AddressBook, shape: Shape) returns (r: Result<(), Error>)
    requires book.Valid()
    modifies book
    ensures book.Valid()
    ensures match RestoreDerived(book.lib, old(book.Committed()), shape)
            case Ok(s) => r == Ok(()) && book.Committed() == s
            case Err(e) => r == Err(e)
  {
    hide Inv, ParseNames, ParseSources, Book.ReplaceDerived, Book.ReplaceSources, NamesCanonical;
    if |shape.sources| > MAX_SUBSCRIPTION_URLS { return Err(InvalidGeneration); }
    if shape.sources == map[] {
      var subscribed := RunParseNames(shape.subscribed);
      if subscribed.Err? { return Err(subscribed.error); }
      ParseNamesCanonical(shape.subscribed);
      var replaced := book.ReplaceDerived(subscribed.value);
      if replaced.Err? { return Err(InvalidGeneration); }
    } else {
      var sources := RunParseSources(shape.sources);
      if sources.Err? { return Err(sources.error); }
      ParseSourcesCanonical(shape.sources);
      var replaced := book.ReplaceSubscriptionSources(sources.value);
      if replaced.Err? || !SameTable(book.subscribed, shape.subscribed) { return Err(InvalidGeneration); }
    }
    return Ok(());
  }

  method RunParseNames(entries: Table) returns (r: Result<Table, Error>)
    ensures r == ParseNames(entries)
  {
    r := RunTryFold(NameParser(entries), map[], SortedKeys(entries.Keys));
  }

  method RunParseSources(sources: map<string, Source>) returns (r: Result<map<string, Source>, Error>)
    ensures r == ParseSources(sources)
  {
    r := RunTryFold(SourceParser(sources), map[], SortedKeys(sources.Keys));
  }

  /** Builds a fresh book by the same mutations a live owner uses; any failure yields no book. */
  method DecodeGeneration(lib: Library, shape: Shape) returns (r: Result<AddressBook, Error>)
    requires lib.Sound()
    ensures match Decode(lib, shape)
            case Ok(s) => r.Ok? && fresh(r.value) && r.value.lib == lib && r.value.Valid() && r.value.Committed() == s
            case Err(e) => r == Err(e)
  {
    hide Inv, Book.ApplyConfig, AdmitBook, Book.ReplaceSubscriptions, RestoreDerived, ConfigMap;
    if shape.version != GENERATION_VERSION { return Err(InvalidGeneration); }
    var book := new AddressBook(lib);
    var configured := book.ApplyConfig(ConfigMap(shape.config));
    if configured.Err? { return Err(InvalidGeneration); }
    var admitted := AdmitEntries(book, shape.private_, Private);
    if admitted.Err? { return Err(admitted.error); }
    admitted := AdmitEntries(book, shape.local, Local);
    if admitted.Err? { return Err(admitted.error); }
    admitted := AdmitEntries(book, shape.router, Router);
    if admitted.Err? { return Err(admitted.error); }
    admitted := AdmitEntries(book, shape.published, Published);
    if admitted.Err? { return Err(admitted.error); }
    var subscribed := book.ReplaceSubscriptions(shape.subscriptions);
    if subscribed.Err? { return Err(InvalidGeneration); }
    var restored := RestoreSubscribed(book, shape);
    if restored.Err? { return Err(restored.error); }
    RevisionIrrelevant(lib, book.Committed(), shape.revision);
    book.revision := shape.revision;
    return Ok(book);
  }
}
