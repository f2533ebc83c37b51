/** Exactly which stored shapes decode, and to which book, field by field. */
module GenerationExact {
  import opened Wrappers
  import opened Text
  import opened OrderedKeys
  import opened Folds
  import opened AddressBookErrors
  import opened Hostname
  import opened Subscription
  import opened Book
  import opened BookInvariant
  import opened BookMeaning
  import opened Generation
  import Config
  import ConfigText

  // ----- stored names -----

  /** `name` is the last stored spelling of `h`, in key order. */
  ghost predicate LastSpelling(stored: Table, h: string, name: string) {
    && name in stored && ParseHostname(name) == Ok(h)
    && forall other :: other in stored && ParseHostname(other) == Ok(h) ==> other == name || LexLess(other, name)
  }

  /** `t` is the stored table with canonical names; of several spellings of one name the last counts. */
  ghost predicate Canonicalizes(stored: Table, t: Table) {
    && (forall name :: name in stored ==> ParseHostname(name).Ok? && ParseHostname(name).value in t)
    && (forall h :: h in t ==> exists name :: LastSpelling(stored, h, name) && t[h] == stored[name])
  }

  predicate Spelled(keys: seq<string>, i: nat, h: string) { i < |keys| && ParseHostname(keys[i]) == Ok(h) }

  ghost predicate LastSpelled(keys: seq<string>, i: nat, h: string) {
    Spelled(keys, i, h) && forall j: nat :: i < j ==> !Spelled(keys, j, h)
  }

  ghost predicate AllParse(keys: seq<string>) { forall i :: 0 <= i < |keys| ==> ParseHostname(keys[i]).Ok? }

  lemma {:induction false} NameFoldOk(stored: Table, keys: seq<string>)
    requires forall k :: k in keys ==> k in stored
    ensures TryFold(NameParser(stored), map[], keys).Ok? <==> AllParse(keys)
    ensures TryFold(NameParser(stored), map[], keys).Err? ==>
      TryFold(NameParser(stored), map[], keys) == Err(InvalidHostname)
  {
    hide ParseHostname;
    if keys != [] {
      var front, name := keys[..|keys| - 1], keys[|keys| - 1];
      assert forall k :: k in front ==> k in keys;
      NameFoldOk(stored, front);
      assert name in keys;
      ParseError(name);
      assert AllParse(keys) <==> AllParse(front) && ParseHostname(name).Ok? by {
        if AllParse(front) && ParseHostname(name).Ok? {
          forall i | 0 <= i < |keys| ensures ParseHostname(keys[i]).Ok? {
            if i < |front| { assert front[i] == keys[i]; }
          }
        }
        if AllParse(keys) { forall i | 0 <= i < |front| ensures ParseHostname(front[i]).Ok? { assert front[i] == keys[i]; } }
      }
    }
  }

  lemma ParseError(name: string)
    ensures ParseHostname(name).Err? ==> ParseHostname(name) == Err(InvalidHostname)
  {
  }

  /** The fold, name by name: the last spelling in the sequence counts. */
  lemma {:induction false} NameFoldMeaning(stored: Table, keys: seq<string>, h: string)
    requires (forall k :: k in keys ==> k in stored) && TryFold(NameParser(stored), map[], keys).Ok?
    ensures var t := TryFold(NameParser(stored), map[], keys).value;
      && (h in t <==> exists i: nat :: Spelled(keys, i, h))
      && (h in t ==> exists i: nat :: LastSpelled(keys, i, h) && keys[i] in stored && t[h] == stored[keys[i]])
  {
    hide ParseHostname;
    if keys != [] {
      var n := |keys| - 1;
      var front, name := keys[..n], keys[n];
      assert forall k :: k in front ==> k in keys;
      NameFoldMeaning(stored, front, h);
      assert name in keys;
      assert forall i: nat :: Spelled(front, i, h) <==> i < n && Spelled(keys, i, h);
      var t := TryFold(NameParser(stored), map[], keys).value;
      if Spelled(keys, n, h) {
        assert LastSpelled(keys, n, h) && t[h] == stored[keys[n]];
      } else {
        assert forall i: nat :: Spelled(front, i, h) <==> Spelled(keys, i, h);
        if h in t {
          var i: nat :| LastSpelled(front, i, h) && front[i] in stored && t[h] == stored[front[i]];
          assert LastSpelled(keys, i, h) && keys[i] == front[i];
        }
      }
    }
  }

  /** The names of a table, in ascending order. */
  ghost predicate Listed(stored: Table, keys: seq<string>) { Ascending(keys) && forall k :: k in keys <==> k in stored }

  lemma LastSpelledIsLast(stored: Table, keys: seq<string>, i: nat, h: string)
    requires Listed(stored, keys) && LastSpelled(keys, i, h)
    ensures LastSpelling(stored, h, keys[i])
  {
    hide ParseHostname, LexLess;
    assert keys[i] in keys;
    forall other | other in stored && ParseHostname(other) == Ok(h) ensures other == keys[i] || LexLess(other, keys[i]) {
      assert other in keys;
      var j: nat :| j < |keys| && keys[j] == other;
      assert Spelled(keys, j, h);
    }
  }

  lemma LastSpellingUnique(stored: Table, h: string, a: string, b: string)
    requires LastSpelling(stored, h, a) && LastSpelling(stored, h, b)
    ensures a == b
  {
    hide ParseHostname;
    if a != b {
      LexTransitive(a, b, a);
      LexIrreflexive(a);
    }
  }

  lemma CanonicalizesUnique(stored: Table, s: Table, t: Table)
    requires Canonicalizes(stored, s) && Canonicalizes(stored, t)
    ensures s == t
  {
    hide ParseHostname, LexLess;
    forall h | h in s ensures h in t && t[h] == s[h] { SameSpelling(stored, s, t, h); }
    forall h | h in t ensures h in s { SameSpelling(stored, t, s, h); }
  }

  lemma SameSpelling(stored: Table, s: Table, t: Table, h: string)
    requires Canonicalizes(stored, s) && Canonicalizes(stored, t) && h in s
    ensures h in t && t[h] == s[h]
  {
    hide ParseHostname, LexLess;
    var a :| LastSpelling(stored, h, a) && s[h] == stored[a];
    var b :| LastSpelling(stored, h, b) && t[h] == stored[b];
    LastSpellingUnique(stored, h, a, b);
  }

  /** A name among the keys of a fold that succeeds has a place in the result. */
  lemma NameTaken(stored: Table, keys: seq<string>, name: string)
    requires (forall k :: k in keys ==> k in stored) && TryFold(NameParser(stored), map[], keys).Ok? && name in keys
    ensures ParseHostname(name).Ok? && ParseHostname(name).value in TryFold(NameParser(stored), map[], keys).value
  {
    hide ParseHostname, LexLess, TryFold;
    NameFoldOk(stored, keys);
    var i: nat :| i < |keys| && keys[i] == name;
    assert Spelled(keys, i, ParseHostname(name).value);
    NameFoldMeaning(stored, keys, ParseHostname(name).value);
  }

  lemma FoldCanonicalizes(stored: Table, keys: seq<string>)
    requires Listed(stored, keys) && TryFold(NameParser(stored), map[], keys).Ok?
    ensures Canonicalizes(stored, TryFold(NameParser(stored), map[], keys).value)
  {
    hide ParseHostname, LexLess, TryFold, Ascending;
    var t := TryFold(NameParser(stored), map[], keys).value;
    forall name | name in stored ensures ParseHostname(name).Ok? && ParseHostname(name).value in t {
      NameTaken(stored, keys, name);
    }
    forall h | h in t ensures exists name :: LastSpelling(stored, h, name) && t[h] == stored[name] {
      NameFoldMeaning(stored, keys, h);
      var i: nat :| LastSpelled(keys, i, h) && keys[i] in stored && t[h] == stored[keys[i]];
      LastSpelledIsLast(stored, keys, i, h);
    }
  }

  lemma ParsedCanonicalizes(stored: Table)
    requires ParseNames(stored).Ok?
    ensures Canonicalizes(stored, ParseNames(stored).value)
  {
    hide Canonicalizes, TryFold;
    FoldCanonicalizes(stored, SortedKeys(stored.Keys));
  }

  /** Stored names are taken exactly when every one parses, and then give the canonical table. */
  lemma ParseNamesExact(stored: Table, t: Table)
    ensures ParseNames(stored) == Ok(t) <==> Canonicalizes(stored, t)
    ensures ParseNames(stored).Ok? <==> forall name :: name in stored ==> ParseHostname(name).Ok?
    ensures ParseNames(stored).Err? ==> ParseNames(stored) == Err(InvalidHostname)
  {
    hide ParseHostname, LexLess, TryFold;
    var keys := SortedKeys(stored.Keys);
    NameFoldOk(stored, keys);
    assert AllParse(keys) <==> forall name :: name in stored ==> ParseHostname(name).Ok? by {
      if AllParse(keys) {
        forall name | name in stored ensures ParseHostname(name).Ok? {
          assert name in keys;
          var i: nat :| i < |keys| && keys[i] == name;
        }
      }
      if forall name :: name in stored ==> ParseHostname(name).Ok? {
        forall i | 0 <= i < |keys| ensures ParseHostname(keys[i]).Ok? { assert keys[i] in keys; }
      }
    }
    if ParseNames(stored).Ok? {
      ParsedCanonicalizes(stored);
      if Canonicalizes(stored, t) { CanonicalizesUnique(stored, t, ParseNames(stored).value); }
    }
  }

  // ----- stored books -----

  /** A stored book is admitted as `t`. */
  ghost predicate BookStored(lib: Library, stored: Table, t: Table, room: nat) {
    |stored| <= 1000 && Canonicalizes(stored, t) && DestinationsValid(lib, stored) && |t| <= room
  }

  ghost predicate GoodAt(lib: Library, stored: Table, keys: seq<string>) {
    forall k :: k in keys ==> k in stored && lib.destination(stored[k])
  }

  /** Admission up to a sequence of keys, in terms of the canonical names so far. */
  ghost predicate Admitted(lib: Library, s: State, stored: Table, kind: BookKind, keys: seq<string>) {
    var admitted := TryFold(Admitter(lib, stored, kind), s, keys);
    var parsed := TryFold(NameParser(stored), map[], keys);
    && (admitted.Ok? <==> parsed.Ok? && GoodAt(lib, stored, keys) && |parsed.value| <= Ceiling(s))
    && (admitted.Ok? ==> SameButRevision(s.(books := s.books[Precedence(kind) := parsed.value]), admitted.value))
    && (admitted.Err? ==> admitted == Err(InvalidGeneration))
  }

  lemma AdmitOne(lib: Library, s: State, kind: BookKind, name: string, d: string)
    ensures var (t, r) := ApplyEntry(lib, s, Insertion(kind, name, d));
      var i := Precedence(kind);
      && (r.Ok? <==> && ParseHostname(name).Ok? && lib.destination(d)
                     && (ParseHostname(name).value in s.books[i] || |s.books[i]| < Ceiling(s)))
      && (r.Ok? ==> SameButRevision(s.(books := s.books[i := s.books[i][ParseHostname(name).value := d]]), t))
  {
    hide ParseHostname, Ceiling;
  }

  lemma GrownTable(t: Table, h: string, d: string, room: nat)
    requires |t| <= room
    ensures |t[h := d]| <= room <==> h in t || |t| < room
    ensures |t| <= |t[h := d]|
  {
    if h in t { assert t[h := d].Keys == t.Keys; } else { assert t[h := d].Keys == t.Keys + {h}; }
  }

  lemma {:induction false} AdmitterExact(lib: Library, s: State, stored: Table, kind: BookKind, keys: seq<string>)
    requires s.books[Precedence(kind)] == map[] && forall k :: k in keys ==> k in stored
    ensures Admitted(lib, s, stored, kind, keys)
  {
    hide ParseHostname, ApplyEntry, Ceiling;
    var i := Precedence(kind);
    if keys == [] {
      assert s.books[i := map[]] == s.books;
    } else {
      var front, name := keys[..|keys| - 1], keys[|keys| - 1];
      assert keys == front + [name];
      AdmitterExact(lib, s, stored, kind, front);
      AdmittedSnoc(lib, s, stored, kind, front, name);
    }
  }

  lemma FoldSnoc(lib: Library, s: State, stored: Table, kind: BookKind, front: seq<string>, name: string)
    requires name in stored
    ensures TryFold(Admitter(lib, stored, kind), s, front + [name]) ==
      var before := TryFold(Admitter(lib, stored, kind), s, front);
      if before.Err? then before
      else
        var (t, r) := ApplyEntry(lib, before.value, Insertion(kind, name, stored[name]));
        if r.Ok? then Ok(t) else Err(InvalidGeneration)
    ensures TryFold(NameParser(stored), map[], front + [name]) ==
      var before := TryFold(NameParser(stored), map[], front);
      if before.Err? then before
      else if ParseHostname(name).Err? then Err(ParseHostname(name).error)
      else Ok(before.value[ParseHostname(name).value := stored[name]])
  {
    hide ParseHostname, ApplyEntry;
    var keys := front + [name];
    assert keys[..|keys| - 1] == front && keys[|keys| - 1] == name;
  }

  lemma GoodSnoc(lib: Library, stored: Table, front: seq<string>, name: string)
    ensures GoodAt(lib, stored, front + [name]) <==> GoodAt(lib, stored, front) && name in stored && lib.destination(stored[name])
  {
    assert forall k :: k in front + [name] <==> k in front || k == name;
  }

  lemma AdmittedSnoc(lib: Library, s: State, stored: Table, kind: BookKind, front: seq<string>, name: string)
    requires s.books[Precedence(kind)] == map[] && name in stored
    requires Admitted(lib, s, stored, kind, front)
    ensures Admitted(lib, s, stored, kind, front + [name])
  {
    hide ParseHostname, ApplyEntry, Ceiling, TryFold, Admitter, NameParser, GoodAt;
    FoldSnoc(lib, s, stored, kind, front, name);
    GoodSnoc(lib, stored, front, name);
    var before := TryFold(Admitter(lib, stored, kind), s, front);
    var parsed := TryFold(NameParser(stored), map[], front);
    var d := stored[name];
    if before.Ok? {
      var i := Precedence(kind);
      AdmitOne(lib, before.value, kind, name, d);
      CeilingFromConfig(s, before.value);
      if ParseHostname(name).Ok? {
        var h := ParseHostname(name).value;
        GrownTable(parsed.value, h, d, Ceiling(s));
        assert before.value.books[i := parsed.value[h := d]] == s.books[i := parsed.value[h := d]];
      }
    } else if parsed.Ok? && ParseHostname(name).Ok? {
      GrownAnyway(parsed.value, ParseHostname(name).value, d);
    }
  }

  lemma GrownAnyway(t: Table, h: string, d: string)
    ensures |t| <= |t[h := d]|
  {
    if h in t { assert t[h := d].Keys == t.Keys; } else { assert t[h := d].Keys == t.Keys + {h}; }
  }

  /** One stored book is admitted exactly when it is bounded, its names parse, its destinations are valid and it fits. */
  lemma AdmitBookExact(lib: Library, s: State, stored: Table, kind: BookKind)
    requires s.books[Precedence(kind)] == map[]
    ensures AdmittedWhole(lib, s, stored, kind)
  {
    hide AdmittedWhole, Admitted, GoodAt, ParseNames, AdmitBook, TryFold, DestinationsValid;
    var keys := SortedKeys(stored.Keys);
    AdmitterExact(lib, s, stored, kind, keys);
    GoodEverywhere(lib, stored);
    AdmitBookUnfolds(lib, s, stored, kind);
    AdmittedFor(lib, s, stored, kind, keys);
  }

  ghost predicate AdmittedWhole(lib: Library, s: State, stored: Table, kind: BookKind) {
    var r := AdmitBook(lib, s, stored, kind);
    && (r.Ok? <==> BookAdmissible(lib, stored, Ceiling(s)))
    && (r.Ok? ==> SameButRevision(s.(books := s.books[Precedence(kind) := ParseNames(stored).value]), r.value))
    && (r.Err? ==> r == Err(InvalidGeneration))
  }

  lemma AdmittedFor(lib: Library, s: State, stored: Table, kind: BookKind, keys: seq<string>)
    requires Admitted(lib, s, stored, kind, keys)
    requires ParseNames(stored) == TryFold(NameParser(stored), map[], keys)
    requires AdmitBook(lib, s, stored, kind) ==
      if |stored| > 1000 then Err(InvalidGeneration) else TryFold(Admitter(lib, stored, kind), s, keys)
    requires GoodAt(lib, stored, keys) <==> DestinationsValid(lib, stored)
    ensures AdmittedWhole(lib, s, stored, kind)
  {
    hide TryFold, Admitter, NameParser, Ceiling, GoodAt, DestinationsValid, SameButRevision, ParseNames, AdmitBook, Precedence;
  }

  lemma AdmitBookUnfolds(lib: Library, s: State, stored: Table, kind: BookKind)
    ensures ParseNames(stored) == TryFold(NameParser(stored), map[], SortedKeys(stored.Keys))
    ensures AdmitBook(lib, s, stored, kind) ==
      if |stored| > 1000 then Err(InvalidGeneration) else TryFold(Admitter(lib, stored, kind), s, SortedKeys(stored.Keys))
  {
    hide TryFold, SortedKeys, Admitter, NameParser;
  }

  lemma GoodEverywhere(lib: Library, stored: Table)
    ensures GoodAt(lib, stored, SortedKeys(stored.Keys)) <==> DestinationsValid(lib, stored)
  {
    hide Distinct, Ascending;
  }

  function Stored(shape: Shape, kind: BookKind): Table {
    match kind
    case Private => shape.private_
    case Local => shape.local
    case Router => shape.router
    case Published => shape.published
  }

  ghost predicate BookAdmissible(lib: Library, stored: Table, room: nat) {
    |stored| <= 1000 && ParseNames(stored).Ok? && DestinationsValid(lib, stored) && |ParseNames(stored).value| <= room
  }

  lemma BookAdmissibleMeaning(lib: Library, stored: Table, t: Table, room: nat)
    ensures BookStored(lib, stored, t, room) <==> BookAdmissible(lib, stored, room) && t == ParseNames(stored).value
  {
    hide ParseNames, Canonicalizes, DestinationsValid;
    ParseNamesExact(stored, t);
  }

  /** What one admitted book leaves for the next. */
  lemma AdmitNext(lib: Library, s: State, stored: Table, kind: BookKind)
    requires s.books[Precedence(kind)] == map[]
    ensures var r := AdmitBook(lib, s, stored, kind);
      && (r.Ok? <==> BookAdmissible(lib, stored, Ceiling(s)))
      && (r.Ok? ==> r.value.books == s.books[Precedence(kind) := ParseNames(stored).value]
                    && r.value == s.(books := r.value.books, revision := r.value.revision)
                    && Ceiling(r.value) == Ceiling(s))
      && (r.Err? ==> r == Err(InvalidGeneration))
  {
    hide AdmitBook, ParseNames, BookAdmissible;
    AdmitBookExact(lib, s, stored, kind);
  }

  /** The four stored books are admitted exactly when each is admissible, whatever the others hold. */
  lemma AdmitBooksExact(lib: Library, s: State, shape: Shape)
    requires s.books == EMPTY.books
    ensures var r := AdmitBooks(lib, s, shape);
      && (r.Ok? <==> forall k :: BookAdmissible(lib, Stored(shape, k), Ceiling(s)))
      && (r.Ok? ==> && (forall k :: r.value.books[Precedence(k)] == ParseNames(Stored(shape, k)).value)
                    && r.value == s.(books := r.value.books, revision := r.value.revision))
      && (r.Err? ==> r == Err(InvalidGeneration))
  {
    hide AdmitBook, ParseNames, Ceiling, BookAdmissible;
    var room := Ceiling(s);
    assert (forall k :: BookAdmissible(lib, Stored(shape, k), room)) <==>
      && BookAdmissible(lib, shape.private_, room) && BookAdmissible(lib, shape.local, room)
      && BookAdmissible(lib, shape.router, room) && BookAdmissible(lib, shape.published, room) by {
      AllKinds(lib, shape, room);
    }
    AdmitNext(lib, s, shape.private_, Private);
    var a := AdmitBook(lib, s, shape.private_, Private);
    if a.Ok? {
      AdmitNext(lib, a.value, shape.local, Local);
      var b := AdmitBook(lib, a.value, shape.local, Local);
      if b.Ok? {
        AdmitNext(lib, b.value, shape.router, Router);
        var c := AdmitBook(lib, b.value, shape.router, Router);
        if c.Ok? { AdmitNext(lib, c.value, shape.published, Published); }
      }
    }
  }

  lemma AllKinds(lib: Library, shape: Shape, room: nat)
    ensures (forall k :: BookAdmissible(lib, Stored(shape, k), room)) <==>
      && BookAdmissible(lib, shape.private_, room) && BookAdmissible(lib, shape.local, room)
      && BookAdmissible(lib, shape.router, room) && BookAdmissible(lib, shape.published, room)
  {
    hide BookAdmissible;
    assert Stored(shape, Private) == shape.private_ && Stored(shape, Local) == shape.local
        && Stored(shape, Router) == shape.router && Stored(shape, Published) == shape.published;
  }

  // ----- the stored configuration -----

  /** Field `k` of the stored configuration is accepted as what `c` holds there. */
  ghost predicate FieldStored(lib: Library, stored: ConfigShape, c: Config.Config, k: Config.Key) {
    match k
    case PrivateBook => ConfigText.FileName(stored.privateBook) && c.privateBook == stored.privateBook
    case LocalBook => ConfigText.FileName(stored.localBook) && c.localBook == stored.localBook
    case RouterBook => ConfigText.FileName(stored.routerBook) && c.routerBook == stored.routerBook
    case PublishedBook => ConfigText.FileName(stored.publishedBook) && c.publishedBook == stored.publishedBook
    case Subscriptions => ConfigText.FileName(stored.subscriptions) && c.subscriptions == stored.subscriptions
    case LogFile => ConfigText.FileName(stored.logFile) && c.logFile == stored.logFile
    case Etags => ConfigText.FileName(stored.etags) && c.etags == stored.etags
    case LastModified => ConfigText.FileName(stored.lastModified) && c.lastModified == stored.lastModified
    case RefreshInterval => c.refreshIntervalHours == stored.refreshIntervalHours && 1 <= c.refreshIntervalHours <= 720
    case LookupTimeout => c.lookupTimeoutSecs == stored.lookupTimeoutSecs && 1 <= c.lookupTimeoutSecs <= 300
    case MaxEntries => c.maxEntries == stored.maxEntries && 1 <= c.maxEntries <= 1000
    case ProxyPort => c.proxyPort == stored.proxyPort && (c.proxyPort.Some? ==> 1 <= c.proxyPort.value <= 65535)
    case ProxyHost =>
      if stored.proxyHost.None? || stored.proxyHost.value == "" then c.proxyHost.None?
      else |stored.proxyHost.value| <= 1024 && c.proxyHost.Some? && lib.loopback(stored.proxyHost.value) == c.proxyHost
    case Theme => c.theme == stored.theme && |stored.theme| <= 1024
    case LogLevel => Config.LevelName(c.logLevel) == stored.logLevel
    case ShouldPublish => c.shouldPublish == stored.shouldPublish
  }

  /** The stored configuration is accepted as `c`. */
  ghost predicate ConfigStored(lib: Library, stored: ConfigShape, c: Config.Config) {
    (forall k :: FieldStored(lib, stored, c, k)) && Distinct(Config.Artifacts(c))
  }

  lemma DecimalSpells(n: nat, m: nat)
    ensures ConfigText.Spells(Decimal(n), m) <==> n == m
  {
    DecimalNumeral(n);
    if ConfigText.Spells(Decimal(n), m) { ConfigText.SpellsNumeral(Decimal(n), m); }
    assert Decimal(n) == ConfigText.Zeros(0) + Decimal(n);
  }

  lemma DecimalBounded(n: nat)
    requires n <= 65535
    ensures |Decimal(n)| <= 5
  {
    Config.DecimalParses(n, 0, 65535);
  }

  lemma FieldDenoted(lib: Library, stored: ConfigShape, c: Config.Config, k: Config.Key)
    ensures FieldStored(lib, stored, c, k) <==>
      ConfigText.Denotes(lib, k, ConfigValue(stored, k), c) && |ConfigValue(stored, k)| <= 1024
  {
    hide ConfigText.Spells, Decimal;
    match k
    case RefreshInterval => NumberStoredExact(stored.refreshIntervalHours, c.refreshIntervalHours);
    case LookupTimeout => NumberStoredExact(stored.lookupTimeoutSecs, c.lookupTimeoutSecs);
    case MaxEntries => NumberStoredExact(stored.maxEntries, c.maxEntries);
    case ProxyPort =>
      if stored.proxyPort.Some? && c.proxyPort.Some? { NumberStoredExact(stored.proxyPort.value, c.proxyPort.value); }
    case _ =>
  }

  lemma NumberStoredExact(n: nat, m: nat)
    ensures ConfigText.Spells(Decimal(n), m) <==> n == m
    ensures n <= 65535 ==> |Decimal(n)| <= 5
  {
    DecimalSpells(n, m);
    if n <= 65535 { DecimalBounded(n); }
  }

  lemma ConfigMapEntry(stored: ConfigShape, k: Config.Key)
    ensures Config.Name(k) in ConfigMap(stored) && ConfigMap(stored)[Config.Name(k)] == ConfigValue(stored, k)
  {
    hide ConfigValue;
    Config.ParseKeyName(k);
  }

  lemma ConfigMapKeys(stored: ConfigShape, key: string)
    requires key in ConfigMap(stored)
    ensures exists k :: key == Config.Name(k) && ConfigMap(stored)[key] == ConfigValue(stored, k)
  {
    hide ConfigValue;
  }

  /** The stored configuration is applied to a new book exactly when it is accepted. */
  lemma ConfigExact(lib: Library, stored: ConfigShape, c: Config.Config)
    ensures Config.CheckedUpdate(lib, Config.DEFAULT, ConfigMap(stored)) == Ok(c) <==> ConfigStored(lib, stored, c)
  {
    hide Config.CheckedUpdate, ConfigMap, ConfigValue, FieldStored, ConfigText.Denotes, Config.Name, Distinct;
    var entries := ConfigMap(stored);
    ConfigText.UpdateExact(lib, Config.DEFAULT, entries, c);
    forall k ensures Config.Name(k) in entries && entries[Config.Name(k)] == ConfigValue(stored, k) { ConfigMapEntry(stored, k); }
    forall k ensures FieldStored(lib, stored, c, k) <==>
      ConfigText.Denotes(lib, k, ConfigValue(stored, k), c) && |ConfigValue(stored, k)| <= 1024 { FieldDenoted(lib, stored, c, k); }
    if forall k :: FieldStored(lib, stored, c, k) {
      forall key | key in entries ensures |entries[key]| <= 1024 && exists k :: key == Config.Name(k) {
        ConfigMapKeys(stored, key);
        var k :| key == Config.Name(k) && entries[key] == ConfigValue(stored, k);
        assert FieldStored(lib, stored, c, k);
      }
    }
  }

  // ----- stored sources -----

  /** The stored sources with canonical names. */
  ghost predicate SourcesStored(stored: map<string, Source>, sources: map<string, Source>) {
    && stored.Keys == sources.Keys
    && forall u :: u in stored ==>
         && Canonicalizes(stored[u].entries, sources[u].entries)
         && sources[u].etag == stored[u].etag && sources[u].lastModified == stored[u].lastModified
  }

  ghost predicate SourceNamesParse(stored: map<string, Source>, keys: seq<string>) {
    forall u :: u in keys ==> u in stored && ParseNames(stored[u].entries).Ok?
  }

  lemma {:induction false} SourceFold(stored: map<string, Source>, keys: seq<string>)
    requires forall u :: u in keys ==> u in stored
    ensures var r := TryFold(SourceParser(stored), map[], keys);
      && (r.Ok? <==> SourceNamesParse(stored, keys))
      && (r.Ok? ==> && (forall u :: u in r.value <==> u in keys)
                    && forall u :: u in r.value ==> r.value[u] == stored[u].(entries := ParseNames(stored[u].entries).value))
      && (r.Err? ==> r == Err(InvalidHostname))
  {
    hide ParseNames;
    if keys != [] {
      var front, url := keys[..|keys| - 1], keys[|keys| - 1];
      assert keys == front + [url];
      SourceFold(stored, front);
      ParseNamesExact(stored[url].entries, map[]);
    }
  }

  lemma ParseSourcesExact(stored: map<string, Source>, sources: map<string, Source>)
    ensures ParseSources(stored) == Ok(sources) <==> SourcesStored(stored, sources)
    ensures ParseSources(stored).Err? ==> ParseSources(stored) == Err(InvalidHostname)
  {
    hide ParseNames, TryFold, Canonicalizes, Distinct, Ascending;
    var keys := SortedKeys(stored.Keys);
    SourceFold(stored, keys);
    var r := ParseSources(stored);
    if r == Ok(sources) {
      forall u | u in stored ensures Canonicalizes(stored[u].entries, sources[u].entries) {
        ParseNamesExact(stored[u].entries, sources[u].entries);
      }
      assert stored.Keys == sources.Keys;
    }
    if SourcesStored(stored, sources) {
      forall u | u in stored ensures ParseNames(stored[u].entries) == Ok(sources[u].entries) {
        ParseNamesExact(stored[u].entries, sources[u].entries);
      }
      assert r.value == sources;
    }
  }

  lemma SameTableExact(actual: Table, stored: Table)
    ensures SameTable(actual, stored) <==> actual == stored
  {
    if SameTable(actual, stored) {
      assert actual.Keys <= stored.Keys;
      SameSizeSubset(actual.Keys, stored.Keys);
    }
  }

  // ----- the derived part -----

  /** What the stored derived table and sources are restored to, next to the URL list `urls`. */
  ghost predicate DerivedStored(lib: Library, shape: Shape, urls: seq<string>, subscribed: Table, sources: map<string, Source>) {
    if shape.sources == map[] then
      sources == map[] && Canonicalizes(shape.subscribed, subscribed) && |subscribed| <= 1000 && DestinationsValid(lib, subscribed)
    else
      && SourcesStored(shape.sources, sources)
      && sources.Keys == Elements(urls)
      && (forall u :: u in sources ==> GoodSource(lib, sources[u]))
      && subscribed == Merged(urls, sources) && |subscribed| <= 1000
      && shape.subscribed == subscribed
  }

  lemma RestoreTableExact(lib: Library, s: State, stored: Table, t: Table)
    requires s.subscribed == map[] && s.sources == map[]
    ensures var r := RestoreTable(lib, s, stored);
      && (r.Ok? && r.value.subscribed == t <==> Canonicalizes(stored, t) && |t| <= 1000 && DestinationsValid(lib, t))
      && (r.Ok? ==> SameButRevision(s.(subscribed := r.value.subscribed), r.value))
  {
    hide ParseNames, Canonicalizes, DestinationsValid;
    ParseNamesExact(stored, t);
    if ParseNames(stored).Ok? { ParseNamesExact(stored, ParseNames(stored).value); }
  }

  lemma RestoreSourcesExact(lib: Library, s: State, stored: map<string, Source>, derived: Table, sources: map<string, Source>)
    requires s.subscribed == map[] && s.sources == map[] && Distinct(s.urls)
    ensures var r := RestoreSources(lib, s, stored, derived);
      && (r.Ok? && r.value.sources == sources <==>
            && SourcesStored(stored, sources) && sources.Keys == Elements(s.urls)
            && (forall u :: u in sources ==> GoodSource(lib, sources[u]))
            && |Merged(s.urls, sources)| <= 1000 && derived == Merged(s.urls, sources))
      && (r.Ok? ==> SameButRevision(s.(sources := r.value.sources, subscribed := Merged(s.urls, r.value.sources)), r.value))
  {
    hide ParseSources, SourcesStored, Merged, GoodSource, ReplaceSources, SameTable, Distinct;
    ParseSourcesExact(stored, sources);
    var parsed := ParseSources(stored);
    if parsed.Ok? {
      ReplaceSourcesMeaning(lib, s, parsed.value);
      var (t, replaced) := ReplaceSources(lib, s, parsed.value);
      SourcesFrame(lib, s, parsed.value);
      SameTableExact(t.subscribed, derived);
    }
  }

  lemma SourcesFrame(lib: Library, s: State, sources: map<string, Source>)
    ensures var t := ReplaceSources(lib, s, sources).0;
      t == s.(sources := t.sources, subscribed := t.subscribed, revision := t.revision)
  {
    hide FirstSourceError, Covers, Merged;
  }

  lemma DerivedExact(lib: Library, s: State, shape: Shape, subscribed: Table, sources: map<string, Source>)
    requires s.subscribed == map[] && s.sources == map[] && UrlsValid(s.urls)
    ensures var r := RestoreDerived(lib, s, shape);
      && (r.Ok? && r.value.subscribed == subscribed && r.value.sources == sources <==>
            DerivedStored(lib, shape, s.urls, subscribed, sources))
      && (r.Ok? ==> SameButRevision(s.(subscribed := r.value.subscribed, sources := r.value.sources), r.value))
  {
    hide RestoreTable, RestoreSources, Canonicalizes, SourcesStored, GoodSource, Merged, DestinationsValid, ValidUrl;
    if shape.sources == map[] {
      RestoreTableExact(lib, s, shape.subscribed, subscribed);
      if RestoreTable(lib, s, shape.subscribed).Ok? {
        RestoreTableExact(lib, s, shape.subscribed, RestoreTable(lib, s, shape.subscribed).value.subscribed);
      }
    } else {
      var r := RestoreSources(lib, s, shape.sources, shape.subscribed);
      RestoreSourcesExact(lib, s, shape.sources, shape.subscribed, sources);
      if r.Ok? { RestoreSourcesExact(lib, s, shape.sources, shape.subscribed, r.value.sources); }
      if DerivedStored(lib, shape, s.urls, subscribed, sources) { FewSources(s.urls, shape.sources, sources); }
    }
  }

  lemma FewSources(urls: seq<string>, stored: map<string, Source>, sources: map<string, Source>)
    requires UrlsValid(urls) && SourcesStored(stored, sources) && sources.Keys == Elements(urls)
    ensures |stored| <= MAX_SUBSCRIPTION_URLS
  {
    hide ValidUrl, Canonicalizes;
    DistinctCount(urls);
    assert |stored.Keys| == |stored|;
  }

  // ----- the whole shape -----

  /** `s` is what `shape` stores, and `shape` is one that decoding takes. */
  ghost predicate Stores(lib: Library, shape: Shape, s: State) {
    && shape.version == 1 && s.revision == shape.revision
    && ConfigStored(lib, shape.config, s.config)
    && (forall k :: BookStored(lib, Stored(shape, k), s.books[Precedence(k)], s.config.maxEntries))
    && |shape.subscriptions| <= 16 && (forall u :: u in shape.subscriptions ==> ValidUrl(u))
    && s.urls == Deduplicated(shape.subscriptions)
    && DerivedStored(lib, shape, s.urls, s.subscribed, s.sources)
  }

  /** The book after configuration, book admission and the URL list. */
  ghost predicate Prepared(lib: Library, shape: Shape, s: State) {
    && ConfigStored(lib, shape.config, s.config)
    && (forall k :: BookStored(lib, Stored(shape, k), s.books[Precedence(k)], s.config.maxEntries))
    && |shape.subscriptions| <= 16 && (forall u :: u in shape.subscriptions ==> ValidUrl(u))
    && s.urls == Deduplicated(shape.subscriptions)
    && s.subscribed == map[] && s.sources == map[]
  }

  function Prepare(lib: Library, shape: Shape): Option<State> {
    var (s, configured) := ApplyConfig(lib, EMPTY, ConfigMap(shape.config));
    if configured.Err? then None else
    var admitted := AdmitBooks(lib, s, shape);
    if admitted.Err? then None else
    var (t, subscribed) := ReplaceSubscriptions(admitted.value, shape.subscriptions);
    if subscribed.Err? then None else Some(t)
  }

  lemma ConfiguredExact(lib: Library, stored: ConfigShape, c: Config.Config)
    ensures var (s, r) := ApplyConfig(lib, EMPTY, ConfigMap(stored));
      && (r.Ok? && s.config == c <==> ConfigStored(lib, stored, c))
      && (r.Ok? ==> SameButRevision(EMPTY.(config := s.config), s))
  {
    hide Config.CheckedUpdate, ConfigMap, ConfigStored;
    var entries := ConfigMap(stored);
    ConfigExact(lib, stored, c);
    var next := Config.CheckedUpdate(lib, Config.DEFAULT, entries);
    if next.Ok? { ConfigExact(lib, stored, next.value); }
    assert forall i :: 0 <= i < 4 ==> |EMPTY.books[i]| == 0;
  }

  lemma SubscribedExact(s: State, urls: seq<string>)
    requires s.subscribed == map[] && s.sources == map[] && s.urls == []
    ensures var (t, r) := ReplaceSubscriptions(s, urls);
      && (r.Ok? <==> |urls| <= 16 && forall u :: u in urls ==> ValidUrl(u))
      && (r.Ok? ==> SameButRevision(s.(urls := Deduplicated(urls)), t) && UrlsValid(t.urls))
  {
    hide ValidUrl, Deduplicated, Merged;
    ReplaceSubscriptionsMeaning(s, urls);
    if ReplaceSubscriptions(s, urls).1.Ok? {
      CheckedSetMeaning(urls);
      CheckedSetValid(urls);
      MergedNothing(Deduplicated(urls));
      assert Retained(s.sources, Deduplicated(urls)) == map[];
    }
  }

  lemma PreparedRoom(lib: Library, stored: ConfigShape, s: State)
    requires ConfigStored(lib, stored, s.config)
    ensures Ceiling(s) == s.config.maxEntries
  {
    assert FieldStored(lib, stored, s.config, Config.MaxEntries);
  }

  lemma BooksPrepared(lib: Library, shape: Shape, books: Books, room: nat)
    ensures (forall k :: BookStored(lib, Stored(shape, k), books[Precedence(k)], room)) <==>
      && (forall k :: BookAdmissible(lib, Stored(shape, k), room))
      && (forall k :: BookAdmissible(lib, Stored(shape, k), room) ==> books[Precedence(k)] == ParseNames(Stored(shape, k)).value)
  {
    hide BookStored, ParseNames;
    forall k ensures BookStored(lib, Stored(shape, k), books[Precedence(k)], room) <==>
      BookAdmissible(lib, Stored(shape, k), room) && books[Precedence(k)] == ParseNames(Stored(shape, k)).value
    {
      BookAdmissibleMeaning(lib, Stored(shape, k), books[Precedence(k)], room);
    }
  }

  lemma PreparedSound(lib: Library, shape: Shape)
    requires Prepare(lib, shape).Some?
    ensures Prepared(lib, shape, Prepare(lib, shape).value) && UrlsValid(Prepare(lib, shape).value.urls)
  {
    hide ApplyConfig, AdmitBooks, ReplaceSubscriptions, ConfigStored, BookStored, BookAdmissible, Ceiling, ValidUrl, Deduplicated, ParseNames, UrlsValid;
    var (s, configured) := ApplyConfig(lib, EMPTY, ConfigMap(shape.config));
    ConfiguredExact(lib, shape.config, s.config);
    PreparedRoom(lib, shape.config, s);
    AdmitBooksExact(lib, s, shape);
    var admitted := AdmitBooks(lib, s, shape).value;
    SubscribedExact(admitted, shape.subscriptions);
    var t := Prepare(lib, shape).value;
    assert configured.Ok?;
    assert AdmitBooks(lib, s, shape).Ok?;
    assert ReplaceSubscriptions(admitted, shape.subscriptions).1.Ok?;
    assert t == ReplaceSubscriptions(admitted, shape.subscriptions).0;
    assert SameButRevision(admitted.(urls := Deduplicated(shape.subscriptions)), t);
    assert admitted.config == s.config;
    assert t.config == s.config && t.books == admitted.books && t.subscribed == map[] && t.sources == map[];
    BooksPrepared(lib, shape, t.books, s.config.maxEntries);
    assert ConfigStored(lib, shape.config, t.config);
    assert forall k :: BookStored(lib, Stored(shape, k), t.books[Precedence(k)], t.config.maxEntries);
  }

  lemma PreparedComplete(lib: Library, shape: Shape, s: State)
    requires Prepared(lib, shape, s)
    ensures Prepare(lib, shape).Some? && SameButRevision(s, Prepare(lib, shape).value)
  {
    hide ApplyConfig, AdmitBooks, ReplaceSubscriptions, ConfigStored, BookStored, BookAdmissible, Ceiling, ValidUrl, Deduplicated, ParseNames, UrlsValid;
    ConfiguredExact(lib, shape.config, s.config);
    var (c, configured) := ApplyConfig(lib, EMPTY, ConfigMap(shape.config));
    PreparedRoom(lib, shape.config, c);
    BooksPrepared(lib, shape, s.books, s.config.maxEntries);
    AdmitBooksExact(lib, c, shape);
    var admitted := AdmitBooks(lib, c, shape).value;
    SameBooks(admitted.books, s.books);
    SubscribedExact(admitted, shape.subscriptions);
  }

  lemma SameBooks(a: Books, b: Books)
    ensures (forall k :: a[Precedence(k)] == b[Precedence(k)]) ==> a == b
  {
    if forall k :: a[Precedence(k)] == b[Precedence(k)] {
      assert a[Precedence(Private)] == b[Precedence(Private)] && a[Precedence(Local)] == b[Precedence(Local)];
      assert a[Precedence(Router)] == b[Precedence(Router)] && a[Precedence(Published)] == b[Precedence(Published)];
    }
  }

  lemma DecodeByParts(lib: Library, shape: Shape)
    ensures Decode(lib, shape).Ok? <==>
      shape.version == 1 && Prepare(lib, shape).Some? && RestoreDerived(lib, Prepare(lib, shape).value, shape).Ok?
    ensures Decode(lib, shape).Ok? ==>
      Decode(lib, shape).value == RestoreDerived(lib, Prepare(lib, shape).value, shape).value.(revision := shape.revision)
  {
    hide ApplyConfig, AdmitBooks, ReplaceSubscriptions, RestoreDerived;
  }

  /** Decoding yields a book exactly when the shape stores that book. */
  lemma DecodeExact(lib: Library, shape: Shape, s: State)
    ensures Decode(lib, shape) == Ok(s) <==> Stores(lib, shape, s)
  {
    hide Decode, Prepare, RestoreDerived, ConfigStored, BookStored, DerivedStored, ValidUrl, Deduplicated, UrlsValid;
    DecodeByParts(lib, shape);
    if Prepare(lib, shape).Some? {
      var t := Prepare(lib, shape).value;
      PreparedSound(lib, shape);
      DerivedExact(lib, t, shape, s.subscribed, s.sources);
      if RestoreDerived(lib, t, shape).Ok? {
        var r := RestoreDerived(lib, t, shape).value;
        DerivedExact(lib, t, shape, r.subscribed, r.sources);
      }
    }
    if Stores(lib, shape, s) {
      PreparedComplete(lib, shape, s.(subscribed := map[], sources := map[]));
    }
  }

  /** A generation with sources whose stored derived table is not their merge is refused, however good the rest. */
  lemma WrongDerivedRefused(lib: Library, shape: Shape, s: State)
    requires Decode(lib, shape) == Ok(s) && shape.sources != map[]
    ensures s.subscribed == shape.subscribed == Merged(s.urls, s.sources)
    ensures forall other: Table :: other != shape.subscribed ==> Decode(lib, shape.(subscribed := other)).Err?
  {
    hide Decode, ConfigStored, BookStored, ValidUrl, Deduplicated, Merged, SourcesStored, GoodSource;
    DecodeExact(lib, shape, s);
    forall other: Table | other != shape.subscribed ensures Decode(lib, shape.(subscribed := other)).Err? {
      var wrong := shape.(subscribed := other);
      if Decode(lib, wrong).Ok? {
        var t := Decode(lib, wrong).value;
        DecodeExact(lib, wrong, t);
        SameSources(lib, shape, s, t);
      }
    }
  }

  /** The sources a shape stores do not depend on its derived table. */
  lemma SameSources(lib: Library, shape: Shape, s: State, t: State)
    requires SourcesStored(shape.sources, s.sources) && SourcesStored(shape.sources, t.sources)
    ensures s.sources == t.sources
  {
    hide Canonicalizes;
    forall u | u in s.sources ensures s.sources[u] == t.sources[u] {
      CanonicalizesUnique(shape.sources[u].entries, s.sources[u].entries, t.sources[u].entries);
    }
  }

  /** A refused shape is reported as an invalid generation, or as an invalid hostname when only derived names are bad. */
  lemma DecodeError(lib: Library, shape: Shape)
    requires Decode(lib, shape).Err?
    ensures Decode(lib, shape) == Err(InvalidGeneration) || Decode(lib, shape) == Err(InvalidHostname)
    ensures Decode(lib, shape) == Err(InvalidHostname) <==>
      && shape.version == 1 && Prepare(lib, shape).Some? && |shape.sources| <= 16
      && (if shape.sources == map[] then ParseNames(shape.subscribed).Err? else ParseSources(shape.sources).Err?)
  {
    hide ApplyConfig, AdmitBook, ReplaceSubscriptions, ReplaceDerived, ReplaceSources, ParseNames, ParseSources, SameTable;
    ParseNamesExact(shape.subscribed, map[]);
    ParseSourcesExact(shape.sources, map[]);
    AdmitErrors(lib, ApplyConfig(lib, EMPTY, ConfigMap(shape.config)).0, shape);
  }

  lemma AdmitErrors(lib: Library, s: State, shape: Shape)
    ensures AdmitBooks(lib, s, shape).Err? ==> AdmitBooks(lib, s, shape) == Err(InvalidGeneration)
  {
    hide TryFold, Admitter;
    FoldErrors(lib, s, shape.private_, Private, SortedKeys(shape.private_.Keys));
    var a := AdmitBook(lib, s, shape.private_, Private);
    if a.Ok? {
      FoldErrors(lib, a.value, shape.local, Local, SortedKeys(shape.local.Keys));
      var b := AdmitBook(lib, a.value, shape.local, Local);
      if b.Ok? {
        FoldErrors(lib, b.value, shape.router, Router, SortedKeys(shape.router.Keys));
        var c := AdmitBook(lib, b.value, shape.router, Router);
        if c.Ok? { FoldErrors(lib, c.value, shape.published, Published, SortedKeys(shape.published.Keys)); }
      }
    }
  }

  lemma {:induction false} FoldErrors(lib: Library, s: State, stored: Table, kind: BookKind, keys: seq<string>)
    ensures TryFold(Admitter(lib, stored, kind), s, keys).Err? ==>
      TryFold(Admitter(lib, stored, kind), s, keys) == Err(InvalidGeneration)
  {
    hide ApplyEntry;
    if keys != [] { FoldErrors(lib, s, stored, kind, keys[..|keys| - 1]); }
  }
}
