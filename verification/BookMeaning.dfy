/** What each control operation does to the tables, name by name, and when it answers what. */
module BookMeaning {
  import opened Wrappers
  import opened Text
  import opened OrderedKeys
  import opened AddressBookErrors
  import opened Hostname
  import opened Subscription
  import opened Book
  import opened BookInvariant
  import Config

  // ----- one entry -----

  /** `h` maps to `d` in table `t`; `None` is absence. */
  predicate Maps(t: Table, h: string, d: Option<string>) {
    match d
    case Some(value) => h in t && t[h] == value
    case None => h !in t
  }

  /** `t` is `s` with the entry of `h` in one book replaced by `d`, and a new revision: nothing else differs. */
  ghost predicate EntryChanged(s: State, t: State, book: BookKind, h: string, d: Option<string>) {
    && Maps(t.books[Precedence(book)], h, d)
    && (forall g :: g != h ==> (g in t.books[Precedence(book)] <==> g in s.books[Precedence(book)]))
    && (forall g :: g != h && g in s.books[Precedence(book)] ==>
          t.books[Precedence(book)][g] == s.books[Precedence(book)][g])
    && (forall k :: k != book ==> t.books[Precedence(k)] == s.books[Precedence(k)])
    && t.subscribed == s.subscribed && t.sources == s.sources && t.urls == s.urls && t.config == s.config
  }

  /** A deletion succeeds exactly on a name the book holds, and removes that name alone. */
  lemma DeleteMeaning(lib: Library, s: State, book: BookKind, raw: string, h: string)
    requires ParseHostname(raw) == Ok(h)
    ensures var (t, r) := ApplyEntry(lib, s, EntryMutation(book, raw, None, true));
      if h in s.books[Precedence(book)] then r == Ok(Deleted) && EntryChanged(s, t, book, h, None)
      else r == Err(UnknownHostname) && t == s
  {
    hide ParseHostname;
    PrecedenceInjective();
  }

  lemma PrecedenceInjective()
    ensures forall j, k :: Precedence(j) == Precedence(k) ==> j == k
  {
  }

  /**
   Storing succeeds exactly when the destination is valid and the name is held already or
   there is room; it answers which of the two, and the name alone changes.
   */
  lemma StoreMeaning(lib: Library, s: State, book: BookKind, raw: string, h: string, d: string)
    requires ParseHostname(raw) == Ok(h)
    ensures var (t, r) := ApplyEntry(lib, s, EntryMutation(book, raw, Some(d), false));
      var held := h in s.books[Precedence(book)];
      if !lib.destination(d) then r == Err(InvalidDestination) && t == s
      else if held then r == Ok(Updated) && EntryChanged(s, t, book, h, Some(d))
      else if |s.books[Precedence(book)]| < Ceiling(s) then r == Ok(Created) && EntryChanged(s, t, book, h, Some(d))
      else r == Err(BookFull) && t == s
  {
    hide ParseHostname;
    PrecedenceInjective();
  }

  /** The other requests change nothing and name what is wrong. */
  lemma MalformedEntry(lib: Library, s: State, m: EntryMutation)
    ensures m.delete && m.destination.Some? ==> ApplyEntry(lib, s, m) == (s, Err(MixedShapes))
    ensures !(m.delete && m.destination.Some?) && ParseHostname(m.hostname).Err? ==>
              ApplyEntry(lib, s, m) == (s, Err(InvalidHostname))
    ensures !m.delete && m.destination.None? && ParseHostname(m.hostname).Ok? ==>
              ApplyEntry(lib, s, m) == (s, Err(MalformedField))
  {
  }

  /** In a valid book the room in a book is the configured number of entries. */
  lemma CeilingMeaning(lib: Library, s: State)
    requires Config.Valid(lib, s.config)
    ensures Ceiling(s) == s.config.maxEntries && 1 <= Ceiling(s) <= 1000
  {
    hide Config.ConfinedPath, Distinct;
  }

  /** After a deletion no spelling of the name is answered from that book. */
  lemma DeletedUnanswered(lib: Library, s: State, book: BookKind, raw: string, spelling: string)
    requires ApplyEntry(lib, s, EntryMutation(book, raw, None, true)).1 == Ok(Deleted)
    requires ParseHostname(spelling) == ParseHostname(raw)
    ensures var answer := Lookup(ApplyEntry(lib, s, EntryMutation(book, raw, None, true)).0, spelling);
      answer.None? || answer.value.provenance != FromBook(book)
  {
    hide ParseHostname, ApplyEntry, Lookup;
    var m := EntryMutation(book, raw, None, true);
    MalformedEntry(lib, s, m);
    var h := ParseHostname(raw).value;
    DeleteMeaning(lib, s, book, raw, h);
    var t := ApplyEntry(lib, s, m).0;
    if Lookup(t, spelling).Some? { LookupPrecedence(t, spelling, Lookup(t, spelling).value); }
  }

  /** After storing, every spelling is answered with the new destination, unless an earlier book has the name. */
  lemma StoredAnswered(lib: Library, s: State, book: BookKind, raw: string, d: string, spelling: string)
    requires ApplyEntry(lib, s, EntryMutation(book, raw, Some(d), false)).1.Ok?
    requires ParseHostname(spelling) == ParseHostname(raw)
    ensures ParseHostname(raw).Ok?
    ensures var t := ApplyEntry(lib, s, EntryMutation(book, raw, Some(d), false)).0;
      var h := ParseHostname(raw).value;
      (forall j :: 0 <= j < Precedence(book) ==> h !in s.books[j]) ==>
        Lookup(t, spelling) == Some(ResolvedEntry(h, d, FromBook(book)))
  {
    hide ParseHostname, ApplyEntry, Lookup;
    var m := EntryMutation(book, raw, Some(d), false);
    MalformedEntry(lib, s, m);
    var h := ParseHostname(raw).value;
    StoreMeaning(lib, s, book, raw, h, d);
    var t := ApplyEntry(lib, s, m).0;
    if forall j :: 0 <= j < Precedence(book) ==> h !in s.books[j] {
      forall j | 0 <= j < Precedence(book) ensures h !in t.books[j] {
        var k := if j == 0 then Private else if j == 1 then Local else Router;
        assert Precedence(k) == j;
      }
      LookupPrecedence(t, spelling, ResolvedEntry(h, d, FromBook(book)));
    }
  }

  // ----- subscriptions -----

  /** Nothing changes exactly when the deduplicated request is the present list, in the same order. */
  lemma ReplaceSubscriptionsMeaning(s: State, urls: seq<string>)
    ensures var (t, r) := ReplaceSubscriptions(s, urls);
      && (r == Err(TooManySubscriptions) <==> |urls| > MAX_SUBSCRIPTION_URLS)
      && (r == Err(InvalidSubscription) <==> |urls| <= MAX_SUBSCRIPTION_URLS && exists u :: u in urls && !ValidUrl(u))
      && (r.Ok? <==> |urls| <= MAX_SUBSCRIPTION_URLS && forall u :: u in urls ==> ValidUrl(u))
      && (r == Ok(false) <==> r.Ok? && Deduplicated(urls) == s.urls)
      && (r != Ok(true) ==> t == s)
      && (r.Ok? ==> t.urls == Deduplicated(urls) && t.books == s.books && t.config == s.config)
  {
    hide ValidUrl, Deduplicated, Merged;
    CheckedSetMeaning(urls);
  }

  lemma CheckedSetMeaning(urls: seq<string>)
    ensures CheckedSet(urls) ==
      if |urls| > 16 then Err(TooManySubscriptions)
      else if exists u :: u in urls && !ValidUrl(u) then Err(InvalidSubscription)
      else Ok(Deduplicated(urls))
  {
    hide ValidUrl, Deduplicated;
    assert forall i :: 0 <= i < |urls| ==> urls[i] in urls;
  }

  /** A derived table is installed, and the sources dropped, exactly when it is small, valid and new. */
  lemma ReplaceDerivedMeaning(lib: Library, s: State, entries: Table)
    ensures var (t, r) := ReplaceDerived(lib, s, entries);
      && (r == Err(ListOverBound) <==> |entries| > 1000)
      && (r == Err(InvalidDestination) <==> |entries| <= 1000 && exists h :: h in entries && !lib.destination(entries[h]))
      && (r.Ok? <==> |entries| <= 1000 && forall h :: h in entries ==> lib.destination(entries[h]))
      && (r == Ok(true) <==> r.Ok? && entries != s.subscribed)
      && (r != Ok(true) ==> t == s)
      && (r.Ok? ==> t.subscribed == entries)
      && (r == Ok(true) ==> t.sources == map[] && t.books == s.books && t.urls == s.urls && t.config == s.config)
  {
  }

  /** A source passes: bounded, printable validators, valid destinations. */
  ghost predicate GoodSource(lib: Library, source: Source) {
    && |source.entries| <= 1000
    && (source.etag.Some? ==> GoodValidator(source.etag.value))
    && (source.lastModified.Some? ==> GoodValidator(source.lastModified.value))
    && forall h :: h in source.entries ==> lib.destination(source.entries[h])
  }

  /** At most 1024 bytes, each a space, a visible ASCII character or above ASCII. */
  ghost predicate GoodValidator(value: string) {
    |value| <= 1024 && forall c :: c in value ==> ' ' <= c <= '~' || c as int >= 0x80
  }

  lemma SourceErrorMeaning(lib: Library, source: Source)
    ensures SourceError(lib, source).None? <==> GoodSource(lib, source)
    ensures SourceError(lib, source) == Some(ListOverBound) <==> |source.entries| > 1000
    ensures SourceError(lib, source) == Some(InvalidConfigValue) <==>
      && |source.entries| <= 1000
      && ((source.etag.Some? && !GoodValidator(source.etag.value))
          || (source.lastModified.Some? && !GoodValidator(source.lastModified.value)))
  {
    hide IsControl;
    if source.etag.Some? { ValidatorMeaning(source.etag.value); }
    if source.lastModified.Some? { ValidatorMeaning(source.lastModified.value); }
  }

  lemma ValidatorMeaning(value: string)
    ensures ValidValidator(value) <==> GoodValidator(value)
  {
    if GoodValidator(value) {
      forall i | 0 <= i < |value| ensures !IsControl(value[i]) { assert value[i] in value; }
    }
  }

  /**
   Sources are installed exactly when they are one per URL, each good, and their merge is
   small; the derived table is then the merge.
   */
  lemma ReplaceSourcesMeaning(lib: Library, s: State, sources: map<string, Source>)
    requires Distinct(s.urls)
    ensures var (t, r) := ReplaceSources(lib, s, sources);
      && (r.Ok? <==> && sources.Keys == Elements(s.urls)
                     && (forall u :: u in sources ==> GoodSource(lib, sources[u]))
                     && |Merged(s.urls, sources)| <= 1000)
      && (r == Err(InvalidSubscription) <==> sources.Keys != Elements(s.urls))
      && (r.Ok? ==> t.sources == sources && t.subscribed == Merged(s.urls, sources))
      && (r == Ok(false) <==> r.Ok? && sources == s.sources && Merged(s.urls, sources) == s.subscribed)
      && (r != Ok(true) ==> t == s)
      && t.books == s.books && t.urls == s.urls && t.config == s.config
  {
    hide SourceError, FirstSourceError, Covers, Merged, GoodSource, Distinct;
    CoversExactly(s.urls, sources);
    var keys := SortedKeys(sources.Keys);
    assert forall u :: u in keys <==> u in sources;
    SourcesChecked(lib, sources, keys);
    forall u | u in sources ensures SourceError(lib, sources[u]).None? <==> GoodSource(lib, sources[u]) {
      SourceErrorMeaning(lib, sources[u]);
    }
    FirstErrorKind(lib, sources, keys);
  }

  /** The source loop never reports a URL mismatch. */
  lemma {:induction false} FirstErrorKind(lib: Library, sources: map<string, Source>, keys: seq<string>)
    requires forall k :: k in keys ==> k in sources
    ensures FirstSourceError(lib, sources, keys) != Some(InvalidSubscription)
  {
    hide ValidValidator, DestinationsValid;
    if keys != [] { FirstErrorKind(lib, sources, keys[1..]); }
  }

  // ----- publishing and configuration -----

  /** With publishing on, the published book ends up as the router book; otherwise nothing changes. */
  lemma SyncPublishedMeaning(s: State)
    ensures var (t, changed) := SyncPublished(s);
      && (changed <==> s.config.shouldPublish && s.books[Precedence(Published)] != s.books[Precedence(Router)])
      && (!changed ==> t == s)
      && (s.config.shouldPublish ==> t.books[Precedence(Published)] == s.books[Precedence(Router)])
      && (forall k :: k != Published ==> t.books[Precedence(k)] == s.books[Precedence(k)])
      && t.subscribed == s.subscribed && t.sources == s.sources && t.urls == s.urls && t.config == s.config
  {
  }

  /** A configuration is applied exactly when the update is accepted and no book is larger than it allows. */
  lemma ApplyConfigMeaning(lib: Library, s: State, entries: map<string, string>)
    ensures var (t, r) := ApplyConfig(lib, s, entries);
      var next := Config.CheckedUpdate(lib, s.config, entries);
      && (next.Err? ==> r == Err(next.error))
      && (r.Ok? <==> next.Ok? && forall k :: |s.books[Precedence(k)]| <= next.value.maxEntries)
      && (next.Ok? && r.Err? ==> r.error == InvalidConfigValue)
      && (r.Ok? ==> t.config == next.value)
      && (r == Ok(true) <==> r.Ok? && next.value != s.config)
      && (r != Ok(true) ==> t == s)
      && t.books == s.books && t.subscribed == s.subscribed && t.sources == s.sources && t.urls == s.urls
  {
    hide Config.CheckedUpdate;
    var next := Config.CheckedUpdate(lib, s.config, entries);
    if next.Ok? && exists i :: 0 <= i < |s.books| && |s.books[i]| > next.value.maxEntries {
      var i :| 0 <= i < |s.books| && |s.books[i]| > next.value.maxEntries;
      var k := if i == 0 then Private else if i == 1 then Local else if i == 2 then Router else Published;
      assert Precedence(k) == i;
    }
  }
}
