/** The typed owner configuration, its sixteen keys and the `SetConfig` batch update. */
module Config {
  import opened Wrappers
  import opened Text
  import opened OrderedKeys
  import opened Folds
  import opened AddressBookErrors

  const MAX_CONFIG_VALUE_LEN := 1024
  const MAX_CONFIG_PATH_LEN := 255
  const MAX_ENTRIES_PER_BOOK := 1000

  /**
   The two library services the owner relies on: structural validation of destination
   text, and parsing then reprinting a loopback IP literal.
   */
  datatype Library = Library(destination: string -> bool, loopback: string -> Option<string>) {

    /** Reprinting an address gives non-empty bounded text that reprints to itself. */
    ghost predicate Sound() {
      forall s: string :: loopback(s).Some? ==>
        var t := loopback(s).value;
        loopback(t) == Some(t) && t != [] && |t| <= MAX_CONFIG_VALUE_LEN
    }
  }

  datatype Key =
    | PrivateBook | LocalBook | RouterBook | PublishedBook | Subscriptions | RefreshInterval
    | ProxyHost | ProxyPort | Theme | LogFile | LogLevel | LookupTimeout | MaxEntries
    | ShouldPublish | Etags | LastModified

  datatype Level = Off | Error | Warn | Info | Debug

  datatype Config = Config(
    privateBook: string, localBook: string, routerBook: string, publishedBook: string,
    subscriptions: string, refreshIntervalHours: nat,
    proxyHost: Option<string>, proxyPort: Option<nat>,
    theme: string, logFile: string, logLevel: Level, lookupTimeoutSecs: nat, maxEntries: nat,
    shouldPublish: bool, etags: string, lastModified: string)

  const DEFAULT := Config(
    "private.json", "local.json", "router.json", "published.json", "subscriptions.body", 24,
    None, None, "", "addressbook.log", Warn, 30, MAX_ENTRIES_PER_BOOK,
    false, "subscriptions.etags", "subscriptions.last-modified")

  // ----- spellings -----

  function Name(k: Key): string {
    match k
    case PrivateBook => "private_book"
    case LocalBook => "local_book"
    case RouterBook => "router_book"
    case PublishedBook => "published_book"
    case Subscriptions => "subscriptions"
    case RefreshInterval => "refresh_interval"
    case ProxyHost => "proxy_host"
    case ProxyPort => "proxy_port"
    case Theme => "theme"
    case LogFile => "log_file"
    case LogLevel => "log_level"
    case LookupTimeout => "lookup_timeout"
    case MaxEntries => "max_entries"
    case ShouldPublish => "should_publish"
    case Etags => "etags"
    case LastModified => "last_modified"
  }

  function ParseKey(name: string): (r: Option<Key>)
    ensures r.Some? ==> name == Name(r.value)
  {
    if name == "private_book" then Some(PrivateBook)
    else if name == "local_book" then Some(LocalBook)
    else if name == "router_book" then Some(RouterBook)
    else if name == "published_book" then Some(PublishedBook)
    else if name == "subscriptions" then Some(Subscriptions)
    else if name == "refresh_interval" then Some(RefreshInterval)
    else if name == "proxy_host" then Some(ProxyHost)
    else if name == "proxy_port" then Some(ProxyPort)
    else if name == "theme" then Some(Theme)
    else if name == "log_file" then Some(LogFile)
    else if name == "log_level" then Some(LogLevel)
    else if name == "lookup_timeout" then Some(LookupTimeout)
    else if name == "max_entries" then Some(MaxEntries)
    else if name == "should_publish" then Some(ShouldPublish)
    else if name == "etags" then Some(Etags)
    else if name == "last_modified" then Some(LastModified)
    else None
  }

  lemma ParseKeyName(k: Key)
    ensures ParseKey(Name(k)) == Some(k)
  {
  }

  function LevelName(l: Level): string {
    match l
    case Off => "off"
    case Error => "error"
    case Warn => "warn"
    case Info => "info"
    case Debug => "debug"
  }

  function ParseLevel(text: string): Option<Level> {
    if text == "off" then Some(Off)
    else if text == "error" then Some(Error)
    else if text == "warn" then Some(Warn)
    else if text == "info" then Some(Info)
    else if text == "debug" then Some(Debug)
    else None
  }

  lemma ParseLevelName(l: Level)
    ensures ParseLevel(LevelName(l)) == Some(l)
  {
  }

  // ----- value parsers -----

  function ConfinedPath(value: string): (r: Result<string, AddressBookErrors.Error>)
    ensures r.Ok? ==> r.value == value
  {
    if value == [] || |value| > MAX_CONFIG_PATH_LEN then Err(InvalidConfigValue)
    else if exists i :: 0 <= i < |value| && (IsControl(value[i]) || value[i] == '/' || value[i] == '\\') then
      Err(InvalidConfigValue)
    else if value == "." || value == ".." then Err(PathEscape)
    else if value[0] == '.' then Err(InvalidConfigValue)
    else if value == "addressbook.current.json" || value == "addressbook.backup.json" then Err(InvalidConfigValue)
    else Ok(value)
  }

  /** A number too large for 64 bits is above every `maximum` used here and fails alike. */
  function ParseRanged(text: string, minimum: nat, maximum: nat): Result<nat, AddressBookErrors.Error> {
    if text == [] || !AllDigits(text) then Err(InvalidConfigValue)
    else if Numeral(text) < minimum || Numeral(text) > maximum then Err(InvalidConfigValue)
    else Ok(Numeral(text))
  }

  /** One assignment of the update loop: parse `v` for key `k` and store it in `c`. */
  function SetField(lib: Library, c: Config, k: Key, v: string): Result<Config, AddressBookErrors.Error> {
    match k
    case PrivateBook => Path(v, c.(privateBook := v))
    case LocalBook => Path(v, c.(localBook := v))
    case RouterBook => Path(v, c.(routerBook := v))
    case PublishedBook => Path(v, c.(publishedBook := v))
    case Subscriptions => Path(v, c.(subscriptions := v))
    case RefreshInterval => Number(v, 1, 720, (n: nat) => c.(refreshIntervalHours := n))
    case ProxyHost =>
      if v == [] then Ok(c.(proxyHost := None))
      else if lib.loopback(v).Some? then Ok(c.(proxyHost := lib.loopback(v)))
      else Err(InvalidConfigValue)
    case ProxyPort =>
      if v == [] then Ok(c.(proxyPort := None))
      else Number(v, 1, 65535, (n: nat) => c.(proxyPort := Some(n)))
    case Theme => Ok(c.(theme := v))
    case LogFile => Path(v, c.(logFile := v))
    case LogLevel =>
      if ParseLevel(v).Some? then Ok(c.(logLevel := ParseLevel(v).value)) else Err(InvalidConfigValue)
    case LookupTimeout => Number(v, 1, 300, (n: nat) => c.(lookupTimeoutSecs := n))
    case MaxEntries => Number(v, 1, MAX_ENTRIES_PER_BOOK, (n: nat) => c.(maxEntries := n))
    case ShouldPublish =>
      if v == "true" then Ok(c.(shouldPublish := true))
      else if v == "false" then Ok(c.(shouldPublish := false))
      else Err(InvalidConfigValue)
    case Etags => Path(v, c.(etags := v))
    case LastModified => Path(v, c.(lastModified := v))
  }

  function Path(v: string, updated: Config): Result<Config, AddressBookErrors.Error> {
    if ConfinedPath(v).Ok? then Ok(updated) else Err(ConfinedPath(v).error)
  }

  function Number(v: string, minimum: nat, maximum: nat, store: nat -> Config): Result<Config, AddressBookErrors.Error> {
    var n := ParseRanged(v, minimum, maximum);
    if n.Ok? then Ok(store(n.value)) else Err(n.error)
  }

  // ----- validity -----

  function Artifacts(c: Config): (names: seq<string>)
    ensures |names| == 8
  {
    [c.privateBook, c.localBook, c.routerBook, c.publishedBook, c.subscriptions, c.logFile, c.etags, c.lastModified]
  }

  /** What every field of a committed configuration satisfies on its own. */
  ghost predicate FieldsValid(lib: Library, c: Config) {
    && ConfinedPath(c.privateBook).Ok? && ConfinedPath(c.localBook).Ok? && ConfinedPath(c.routerBook).Ok?
    && ConfinedPath(c.publishedBook).Ok? && ConfinedPath(c.subscriptions).Ok? && ConfinedPath(c.logFile).Ok?
    && ConfinedPath(c.etags).Ok? && ConfinedPath(c.lastModified).Ok?
    && 1 <= c.refreshIntervalHours <= 720
    && (c.proxyHost.Some? ==> c.proxyHost.value != [] && lib.loopback(c.proxyHost.value) == c.proxyHost
                              && |c.proxyHost.value| <= MAX_CONFIG_VALUE_LEN)
    && (c.proxyPort.Some? ==> 1 <= c.proxyPort.value <= 65535)
    && |c.theme| <= MAX_CONFIG_VALUE_LEN
    && 1 <= c.lookupTimeoutSecs <= 300
    && 1 <= c.maxEntries <= MAX_ENTRIES_PER_BOOK
  }

  ghost predicate Valid(lib: Library, c: Config) {
    FieldsValid(lib, c) && Distinct(Artifacts(c))
  }

  // ----- the batch update -----

  function Assign(lib: Library, c: Config, key: string, value: string): Result<Config, AddressBookErrors.Error> {
    if |value| > MAX_CONFIG_VALUE_LEN then Err(InvalidConfigValue)
    else if ParseKey(key).None? then Err(UnknownConfigKey)
    else SetField(lib, c, ParseKey(key).value, value)
  }

  /** The update loop's step. */
  function Assigner(lib: Library, entries: map<string, string>)
    : (Config, string) -> Result<Config, AddressBookErrors.Error>
  {
    (c: Config, key: string) => if key in entries then Assign(lib, c, key, entries[key]) else Ok(c)
  }

  function CheckedUpdate(lib: Library, base: Config, entries: map<string, string>)
    : Result<Config, AddressBookErrors.Error>
  {
    var next := TryFold(Assigner(lib, entries), base, SortedKeys(entries.Keys));
    if next.Ok? && !Distinct(Artifacts(next.value)) then Err(InvalidConfigValue) else next
  }

  /** The update as the owner runs it: assign in key order, then look for clashing artifact names. */
  method RunCheckedUpdate(lib: Library, base: Config, entries: map<string, string>)
    returns (r: Result<Config, AddressBookErrors.Error>)
    ensures r == CheckedUpdate(lib, base, entries)
  {
    r := RunTryFold(Assigner(lib, entries), base, SortedKeys(entries.Keys));
    if r.Ok? {
      var distinct := AllDistinct(Artifacts(r.value));
      if !distinct { r := Err(InvalidConfigValue); }
    }
  }

  /** Fills a set with the names; a name already present is a clash. */
  method AllDistinct(names: seq<string>) returns (distinct: bool)
    ensures distinct == Distinct(names)
  {
    var paths := {};
    for i := 0 to |names|
      invariant paths == Elements(names[..i])
      invariant Distinct(names[..i])
    {
      assert names[..i + 1] == names[..i] + [names[i]];
      if names[i] in paths {
        var j :| 0 <= j < i && names[..i][j] == names[i];
        assert names[j] == names[i];
        return false;
      }
      paths := paths + {names[i]};
    }
    assert names[..|names|] == names;
    return true;
  }

  // ----- fields, one by one -----

  ghost predicate SameField(c: Config, d: Config, k: Key) {
    match k
    case PrivateBook => c.privateBook == d.privateBook
    case LocalBook => c.localBook == d.localBook
    case RouterBook => c.routerBook == d.routerBook
    case PublishedBook => c.publishedBook == d.publishedBook
    case Subscriptions => c.subscriptions == d.subscriptions
    case RefreshInterval => c.refreshIntervalHours == d.refreshIntervalHours
    case ProxyHost => c.proxyHost == d.proxyHost
    case ProxyPort => c.proxyPort == d.proxyPort
    case Theme => c.theme == d.theme
    case LogFile => c.logFile == d.logFile
    case LogLevel => c.logLevel == d.logLevel
    case LookupTimeout => c.lookupTimeoutSecs == d.lookupTimeoutSecs
    case MaxEntries => c.maxEntries == d.maxEntries
    case ShouldPublish => c.shouldPublish == d.shouldPublish
    case Etags => c.etags == d.etags
    case LastModified => c.lastModified == d.lastModified
  }

  lemma SameFieldsEqual(c: Config, d: Config)
    requires forall k :: SameField(c, d, k)
    ensures c == d
  {
    assert SameField(c, d, PrivateBook) && SameField(c, d, LocalBook) && SameField(c, d, RouterBook)
        && SameField(c, d, PublishedBook) && SameField(c, d, Subscriptions) && SameField(c, d, RefreshInterval)
        && SameField(c, d, ProxyHost) && SameField(c, d, ProxyPort) && SameField(c, d, Theme)
        && SameField(c, d, LogFile) && SameField(c, d, LogLevel) && SameField(c, d, LookupTimeout)
        && SameField(c, d, MaxEntries) && SameField(c, d, ShouldPublish) && SameField(c, d, Etags)
        && SameField(c, d, LastModified);
  }

  /** An assignment touches its own field only, and what it stores there ignores the old configuration. */
  lemma SetFieldLocal(lib: Library, c: Config, d: Config, k: Key, v: string)
    ensures SetField(lib, c, k, v).Ok? == SetField(lib, d, k, v).Ok?
    ensures SetField(lib, c, k, v).Err? ==> SetField(lib, c, k, v) == SetField(lib, d, k, v)
    ensures SetField(lib, c, k, v).Ok? ==> SameField(SetField(lib, c, k, v).value, SetField(lib, d, k, v).value, k)
    ensures SetField(lib, c, k, v).Ok? ==> forall j :: j != k ==> SameField(SetField(lib, c, k, v).value, c, j)
  {
  }

  ghost predicate Admissible(lib: Library, key: string, value: string) {
    Assign(lib, DEFAULT, key, value).Ok?
  }

  /** `c` is `base` with exactly the fields named in `entries` replaced by their parsed values. */
  ghost predicate IsOverlay(lib: Library, base: Config, entries: map<string, string>, keys: set<string>, c: Config)
    requires keys <= entries.Keys
  {
    forall k :: if Name(k) in keys
                then SetField(lib, base, k, entries[Name(k)]).Ok?
                     && SameField(c, SetField(lib, base, k, entries[Name(k)]).value, k)
                else SameField(c, base, k)
  }

  lemma {:induction false} FoldMeaning(lib: Library, base: Config, entries: map<string, string>, keys: seq<string>)
    requires forall k :: k in keys ==> k in entries
    requires Distinct(keys)
    ensures TryFold(Assigner(lib, entries), base, keys).Ok? <==> forall k :: k in keys ==> Admissible(lib, k, entries[k])
    ensures TryFold(Assigner(lib, entries), base, keys).Ok? ==>
              IsOverlay(lib, base, entries, Elements(keys), TryFold(Assigner(lib, entries), base, keys).value)
  {
    if keys != [] {
      hide ParseKey, SetField, SameField, IsOverlay, Name;
      var n := |keys| - 1;
      var front, key := keys[..n], keys[n];
      FoldMeaning(lib, base, entries, front);
      assert keys == front + [key];
      var before := TryFold(Assigner(lib, entries), base, front);
      if before.Ok? && ParseKey(key).Some? {
        var k := ParseKey(key).value;
        SetFieldLocal(lib, before.value, DEFAULT, k, entries[key]);
        if TryFold(Assigner(lib, entries), base, keys).Ok? {
          OverlayGrows(lib, base, entries, Elements(front), k, before.value);
          assert Elements(keys) == Elements(front) + {key};
        }
      }
    }
  }

  /** Assigning one more key to an overlay gives the overlay with that key. */
  lemma OverlayGrows(lib: Library, base: Config, entries: map<string, string>, keys: set<string>, k: Key, before: Config)
    requires keys <= entries.Keys && Name(k) in entries && Name(k) !in keys
    requires IsOverlay(lib, base, entries, keys, before)
    requires SetField(lib, before, k, entries[Name(k)]).Ok?
    ensures IsOverlay(lib, base, entries, keys + {Name(k)}, SetField(lib, before, k, entries[Name(k)]).value)
  {
    hide ParseKey, SetField, SameField, Name;
    var after := SetField(lib, before, k, entries[Name(k)]).value;
    SetFieldLocal(lib, before, base, k, entries[Name(k)]);
    forall j ensures if Name(j) in keys + {Name(k)}
                     then SetField(lib, base, j, entries[Name(j)]).Ok?
                          && SameField(after, SetField(lib, base, j, entries[Name(j)]).value, j)
                     else SameField(after, base, j)
    {
      if j != k {
        ParseKeyName(j);
        ParseKeyName(k);
        SameFieldTransfer(after, before, j);
      }
    }
  }

  lemma SameFieldTransfer(c: Config, d: Config, k: Key)
    requires SameField(c, d, k)
    ensures forall e :: SameField(d, e, k) <==> SameField(c, e, k)
  {
  }

  /** Iterating the map in any order gives the same verdict and, on success, the same configuration. */
  lemma OrderIrrelevant(lib: Library, base: Config, entries: map<string, string>, one: seq<string>, two: seq<string>)
    requires Distinct(one) && Distinct(two)
    requires Elements(one) == Elements(two) == entries.Keys
    ensures forall k :: k in one ==> k in entries
    ensures forall k :: k in two ==> k in entries
    ensures TryFold(Assigner(lib, entries), base, one).Ok? == TryFold(Assigner(lib, entries), base, two).Ok?
    ensures TryFold(Assigner(lib, entries), base, one).Ok? ==> TryFold(Assigner(lib, entries), base, one) == TryFold(Assigner(lib, entries), base, two)
  {
    assert forall k :: k in one <==> k in Elements(one);
    assert forall k :: k in two <==> k in Elements(two);
    FoldMeaning(lib, base, entries, one);
    FoldMeaning(lib, base, entries, two);
    if TryFold(Assigner(lib, entries), base, one).Ok? {
      var c, d := TryFold(Assigner(lib, entries), base, one).value, TryFold(Assigner(lib, entries), base, two).value;
      forall k ensures SameField(c, d, k) {
        if Name(k) in entries { SameFieldTransfer(SetField(lib, base, k, entries[Name(k)]).value, d, k); }
      }
      SameFieldsEqual(c, d);
    }
  }

  // ----- which error, when there are several bad entries -----

  /** How an entry is refused on its own. */
  function Refusal(lib: Library, entries: map<string, string>, key: string): Option<AddressBookErrors.Error> {
    if key in entries && Assign(lib, DEFAULT, key, entries[key]).Err?
    then Some(Assign(lib, DEFAULT, key, entries[key]).error) else None
  }

  ghost predicate IsOrder(entries: map<string, string>, keys: seq<string>) {
    Distinct(keys) && Elements(keys) == entries.Keys
  }

  lemma AssignRefusal(lib: Library, c: Config, entries: map<string, string>, key: string)
    requires Refusal(lib, entries, key).Some?
    ensures Assigner(lib, entries)(c, key) == Err(Refusal(lib, entries, key).value)
  {
    hide SetField;
    if ParseKey(key).Some? { SetFieldLocal(lib, c, DEFAULT, ParseKey(key).value, entries[key]); }
  }

  /** The loop fails with the refusal of the first bad entry it meets. */
  lemma FoldError(lib: Library, base: Config, entries: map<string, string>, keys: seq<string>, i: nat)
    requires IsOrder(entries, keys) && i < |keys| && Refusal(lib, entries, keys[i]).Some?
    requires forall j :: 0 <= j < i ==> Refusal(lib, entries, keys[j]).None?
    ensures TryFold(Assigner(lib, entries), base, keys) == Err(Refusal(lib, entries, keys[i]).value)
  {
    hide Assign, Assigner;
    assert forall k :: k in keys <==> k in Elements(keys);
    var front := keys[..i];
    FoldMeaning(lib, base, entries, front);
    var before := TryFold(Assigner(lib, entries), base, front);
    TryFoldSnoc(Assigner(lib, entries), base, keys, i);
    AssignRefusal(lib, before.value, entries, keys[i]);
    TryFoldStops(Assigner(lib, entries), base, keys, i + 1);
  }

  lemma {:induction false} FirstRefused(lib: Library, entries: map<string, string>, keys: seq<string>, n: nat) returns (i: nat)
    requires n <= |keys| && exists j :: 0 <= j < n && Refusal(lib, entries, keys[j]).Some?
    ensures i < n && Refusal(lib, entries, keys[i]).Some?
    ensures forall j :: 0 <= j < i ==> Refusal(lib, entries, keys[j]).None?
  {
    hide Refusal;
    if exists j :: 0 <= j < n - 1 && Refusal(lib, entries, keys[j]).Some? {
      i := FirstRefused(lib, entries, keys, n - 1);
    } else {
      i := n - 1;
    }
  }

  ghost predicate OneRefusal(lib: Library, entries: map<string, string>) {
    forall j, k :: Refusal(lib, entries, j).Some? && Refusal(lib, entries, k).Some?
                   ==> Refusal(lib, entries, j) == Refusal(lib, entries, k)
  }

  /** Two orders report the same result when the bad entries are all refused alike. */
  lemma RefusedAlike(lib: Library, base: Config, entries: map<string, string>, one: seq<string>, two: seq<string>)
    requires OneRefusal(lib, entries) && IsOrder(entries, one) && IsOrder(entries, two)
    ensures TryFold(Assigner(lib, entries), base, one) == TryFold(Assigner(lib, entries), base, two)
  {
    hide Assign, Assigner, TryFold;
    OrderIrrelevant(lib, base, entries, one, two);
    if TryFold(Assigner(lib, entries), base, one).Err? {
      var i := FailingOrder(lib, base, entries, one);
      var j := FailingOrder(lib, base, entries, two);
      FoldError(lib, base, entries, one, i);
      FoldError(lib, base, entries, two, j);
    }
  }

  lemma FailingOrder(lib: Library, base: Config, entries: map<string, string>, keys: seq<string>) returns (i: nat)
    requires IsOrder(entries, keys) && TryFold(Assigner(lib, entries), base, keys).Err?
    ensures i < |keys| && Refusal(lib, entries, keys[i]).Some?
    ensures forall j :: 0 <= j < i ==> Refusal(lib, entries, keys[j]).None?
  {
    hide Assign, Assigner, TryFold;
    assert forall k :: k in keys <==> k in Elements(keys);
    FoldMeaning(lib, base, entries, keys);
    var k :| k in keys && !Admissible(lib, k, entries[k]);
    var j :| 0 <= j < |keys| && keys[j] == k;
    assert Refusal(lib, entries, keys[j]).Some?;
    i := FirstRefused(lib, entries, keys, |keys|);
  }

  /** An order that starts with a given key. */
  lemma OrderFrom(entries: map<string, string>, key: string) returns (keys: seq<string>)
    requires key in entries
    ensures IsOrder(entries, keys) && keys != [] && keys[0] == key
  {
    var rest := SortedKeys(entries.Keys - {key});
    keys := [key] + rest;
    assert Elements(rest) == entries.Keys - {key};
    assert key !in rest;
    assert Elements(keys) == entries.Keys;
  }

  /**
   Every order reports the same result, errors included, exactly when all entries that are bad on
   their own are refused alike.
   */
  lemma ErrorOrderExactly(lib: Library, base: Config, entries: map<string, string>)
    ensures OneRefusal(lib, entries) <==>
      forall one, two :: IsOrder(entries, one) && IsOrder(entries, two) ==>
        TryFold(Assigner(lib, entries), base, one) == TryFold(Assigner(lib, entries), base, two)
  {
    hide Refusal, IsOrder, TryFold, Assigner;
    if OneRefusal(lib, entries) {
      forall one, two | IsOrder(entries, one) && IsOrder(entries, two)
        ensures TryFold(Assigner(lib, entries), base, one) == TryFold(Assigner(lib, entries), base, two)
      {
        RefusedAlike(lib, base, entries, one, two);
      }
    } else {
      var j, k :| Refusal(lib, entries, j).Some? && Refusal(lib, entries, k).Some?
                  && Refusal(lib, entries, j) != Refusal(lib, entries, k);
      RefusedPresent(lib, entries, j);
      RefusedPresent(lib, entries, k);
      var one := OrderFrom(entries, j);
      var two := OrderFrom(entries, k);
      FoldError(lib, base, entries, one, 0);
      FoldError(lib, base, entries, two, 0);
    }
  }

  lemma RefusedPresent(lib: Library, entries: map<string, string>, key: string)
    requires Refusal(lib, entries, key).Some?
    ensures key in entries
  {
  }

  /** The condition can fail: an unknown key and an empty file name are refused differently. */
  lemma RefusalsDiffer(lib: Library)
    ensures !OneRefusal(lib, map["" := "", "log_file" := ""])
  {
    var entries := map["" := "", "log_file" := ""];
    ParseKeyName(LogFile);
    assert Refusal(lib, entries, "log_file") == Some(InvalidConfigValue);
    assert ParseKey("").None?;
    assert Refusal(lib, entries, "") == Some(UnknownConfigKey);
  }

  /** What one successful batch update means, whatever order the map iterates in. */
  lemma UpdateMeaning(lib: Library, base: Config, entries: map<string, string>)
    ensures CheckedUpdate(lib, base, entries).Ok? <==>
              && (forall k :: k in entries ==> Admissible(lib, k, entries[k]))
              && exists c :: IsOverlay(lib, base, entries, entries.Keys, c) && Distinct(Artifacts(c))
    ensures CheckedUpdate(lib, base, entries).Ok? ==>
              IsOverlay(lib, base, entries, entries.Keys, CheckedUpdate(lib, base, entries).value)
  {
    var keys := SortedKeys(entries.Keys);
    assert Elements(keys) == entries.Keys;
    FoldMeaning(lib, base, entries, keys);
    var folded := TryFold(Assigner(lib, entries), base, keys);
    if folded.Ok? {
      forall c | IsOverlay(lib, base, entries, entries.Keys, c) ensures c == folded.value {
        OverlayUnique(lib, base, entries, c, folded.value);
      }
    }
  }

  lemma OverlayUnique(lib: Library, base: Config, entries: map<string, string>, c: Config, d: Config)
    requires IsOverlay(lib, base, entries, entries.Keys, c)
    requires IsOverlay(lib, base, entries, entries.Keys, d)
    ensures c == d
  {
    forall k ensures SameField(c, d, k) {
      if Name(k) in entries {
        SameFieldTransfer(c, SetField(lib, base, k, entries[Name(k)]).value, k);
        SameFieldTransfer(d, SetField(lib, base, k, entries[Name(k)]).value, k);
      }
    }
    SameFieldsEqual(c, d);
  }

  // ----- printing and parsing back -----

  function Render(c: Config, k: Key): string {
    match k
    case PrivateBook => c.privateBook
    case LocalBook => c.localBook
    case RouterBook => c.routerBook
    case PublishedBook => c.publishedBook
    case Subscriptions => c.subscriptions
    case RefreshInterval => Decimal(c.refreshIntervalHours)
    case ProxyHost => if c.proxyHost.Some? then c.proxyHost.value else ""
    case ProxyPort => if c.proxyPort.Some? then Decimal(c.proxyPort.value) else ""
    case Theme => c.theme
    case LogFile => c.logFile
    case LogLevel => LevelName(c.logLevel)
    case LookupTimeout => Decimal(c.lookupTimeoutSecs)
    case MaxEntries => Decimal(c.maxEntries)
    case ShouldPublish => if c.shouldPublish then "true" else "false"
    case Etags => c.etags
    case LastModified => c.lastModified
  }

  lemma NameInjective()
    ensures forall j, k :: Name(j) == Name(k) ==> j == k
  {
    forall j, k | Name(j) == Name(k) ensures j == k {
      ParseKeyName(j);
      ParseKeyName(k);
    }
  }

  const KEY_NAMES: set<string> := set k: Key | true :: Name(k)

  /** All sixteen keys with their printed values. */
  function RenderedEntries(c: Config): map<string, string> {
    map n | n in KEY_NAMES && ParseKey(n).Some? :: Render(c, ParseKey(n).value)
  }

  lemma RenderedEntry(c: Config, k: Key)
    ensures Name(k) in RenderedEntries(c) && RenderedEntries(c)[Name(k)] == Render(c, k)
  {
    ParseKeyName(k);
  }

  lemma DecimalParses(n: nat, minimum: nat, maximum: nat)
    requires minimum <= n <= maximum <= 65535
    ensures ParseRanged(Decimal(n), minimum, maximum) == Ok(n) && |Decimal(n)| <= 5
  {
    DecimalNumeral(n);
    assert PowerOfTen(5) == 100000 by {
      assert PowerOfTen(2) == 100;
      assert PowerOfTen(4) == 10000;
    }
    DecimalShort(n, 5, 100000);
  }

  /** A printed field parses back into that field, over any other configuration. */
  lemma RenderParses(lib: Library, c: Config, d: Config, k: Key)
    requires Valid(lib, c)
    ensures |Render(c, k)| <= MAX_CONFIG_VALUE_LEN
    ensures SetField(lib, d, k, Render(c, k)).Ok? && SameField(SetField(lib, d, k, Render(c, k)).value, c, k)
  {
    match k
    case RefreshInterval => DecimalParses(c.refreshIntervalHours, 1, 720);
    case ProxyPort => if c.proxyPort.Some? { DecimalParses(c.proxyPort.value, 1, 65535); }
    case LookupTimeout => DecimalParses(c.lookupTimeoutSecs, 1, 300);
    case MaxEntries => DecimalParses(c.maxEntries, 1, MAX_ENTRIES_PER_BOOK);
    case LogLevel => ParseLevelName(c.logLevel);
    case _ =>
  }

  /** Printing a valid configuration and applying the result to any configuration restores it exactly. */
  lemma PrintParse(lib: Library, c: Config, d: Config)
    requires Valid(lib, c)
    ensures CheckedUpdate(lib, d, RenderedEntries(c)) == Ok(c)
  {
    var entries := RenderedEntries(c);
    forall n | n in entries ensures Admissible(lib, n, entries[n]) {
      RenderParses(lib, c, DEFAULT, ParseKey(n).value);
    }
    forall k ensures Name(k) in entries
                     && SetField(lib, d, k, entries[Name(k)]).Ok?
                     && SameField(c, SetField(lib, d, k, entries[Name(k)]).value, k)
    {
      RenderedEntry(c, k);
      RenderParses(lib, c, d, k);
      SameFieldTransfer(SetField(lib, d, k, Render(c, k)).value, c, k);
    }
    assert IsOverlay(lib, d, entries, entries.Keys, c);
    UpdateMeaning(lib, d, entries);
    OverlayUnique(lib, d, entries, c, CheckedUpdate(lib, d, entries).value);
  }

  // ----- validity is kept -----

  lemma SetFieldKeepsFields(lib: Library, c: Config, k: Key, v: string)
    requires lib.Sound() && FieldsValid(lib, c) && |v| <= MAX_CONFIG_VALUE_LEN && SetField(lib, c, k, v).Ok?
    ensures FieldsValid(lib, SetField(lib, c, k, v).value)
  {
    match k
    case PrivateBook => case LocalBook => case RouterBook => case PublishedBook => case Subscriptions =>
    case LogFile => case Etags => case LastModified =>
    case ProxyHost => if v != [] { assert lib.loopback(v).Some?; }
    case _ =>
  }

  lemma AssignKeepsFields(lib: Library, c: Config, key: string, value: string)
    requires lib.Sound() && FieldsValid(lib, c) && Assign(lib, c, key, value).Ok?
    ensures FieldsValid(lib, Assign(lib, c, key, value).value)
  {
    SetFieldKeepsFields(lib, c, ParseKey(key).value, value);
  }

  lemma {:induction false} FoldKeepsFields(lib: Library, base: Config, entries: map<string, string>, keys: seq<string>)
    requires lib.Sound() && FieldsValid(lib, base)
    requires TryFold(Assigner(lib, entries), base, keys).Ok?
    ensures FieldsValid(lib, TryFold(Assigner(lib, entries), base, keys).value)
  {
    if keys != [] {
      var front, key := keys[..|keys| - 1], keys[|keys| - 1];
      FoldKeepsFields(lib, base, entries, front);
      if key in entries {
        AssignKeepsFields(lib, TryFold(Assigner(lib, entries), base, front).value, key, entries[key]);
      }
    }
  }

  /** Every accepted update of a valid configuration is valid, the eight artifact names distinct. */
  lemma UpdateKeepsValid(lib: Library, base: Config, entries: map<string, string>)
    requires lib.Sound() && Valid(lib, base) && CheckedUpdate(lib, base, entries).Ok?
    ensures Valid(lib, CheckedUpdate(lib, base, entries).value)
  {
    FoldKeepsFields(lib, base, entries, SortedKeys(entries.Keys));
  }

  lemma PlainNameConfined(name: string)
    requires 0 < |name| < 23 || (|name| == 27)
    requires name[0] != '.' && forall i :: 0 <= i < |name| ==> IsLower(name[i]) || name[i] in {'.', '-'}
    ensures ConfinedPath(name).Ok?
  {
  }

  lemma DefaultBooksConfined()
    ensures ConfinedPath("private.json").Ok? && ConfinedPath("local.json").Ok?
    ensures ConfinedPath("router.json").Ok? && ConfinedPath("published.json").Ok?
  {
    PlainNameConfined("private.json");
    PlainNameConfined("local.json");
    PlainNameConfined("router.json");
    PlainNameConfined("published.json");
  }

  lemma DefaultFilesConfined()
    ensures ConfinedPath("subscriptions.body").Ok? && ConfinedPath("addressbook.log").Ok?
    ensures ConfinedPath("subscriptions.etags").Ok? && ConfinedPath("subscriptions.last-modified").Ok?
  {
    PlainNameConfined("subscriptions.body");
    PlainNameConfined("addressbook.log");
    PlainNameConfined("subscriptions.etags");
    PlainNameConfined("subscriptions.last-modified");
  }

  lemma DefaultValid(lib: Library)
    ensures Valid(lib, DEFAULT)
  {
    DefaultBooksConfined();
    DefaultFilesConfined();
    DefaultNamesDistinct();
  }

  lemma DefaultNamesDistinct()
    ensures Distinct(Artifacts(DEFAULT))
  {
    var a := Artifacts(DEFAULT);
    assert |a[0]| == 12 && |a[1]| == 10 && |a[2]| == 11 && |a[3]| == 14 && |a[4]| == 18 && |a[5]| == 15
        && |a[6]| == 19 && |a[7]| == 27;
  }

  lemma {:induction false} FoldOfOne(lib: Library, c: Config, entries: map<string, string>, key: string)
    requires key in entries
    ensures TryFold(Assigner(lib, entries), c, [key]) == Assign(lib, c, key, entries[key])
  {
    assert [key][..0] == [];
  }

  /** A one-key update: the assignment, then the clash test. */
  lemma SingleUpdate(lib: Library, c: Config, key: string, value: string)
    ensures CheckedUpdate(lib, c, map[key := value]) ==
              var r := Assign(lib, c, key, value);
              if r.Ok? && !Distinct(Artifacts(r.value)) then Err(InvalidConfigValue) else r
  {
    var entries := map[key := value];
    var keys := SortedKeys(entries.Keys);
    assert entries.Keys == {key};
    assert keys[0] in keys;
    assert keys == [key];
    FoldOfOne(lib, c, entries, key);
  }

  // ----- distinctness is judged on the whole batch -----

  /** Where an artifact key's name stands among the eight. */
  function Slot(k: Key): (r: Option<nat>)
    ensures r.Some? ==> r.value < 8
  {
    match k
    case PrivateBook => Some(0)
    case LocalBook => Some(1)
    case RouterBook => Some(2)
    case PublishedBook => Some(3)
    case Subscriptions => Some(4)
    case LogFile => Some(5)
    case Etags => Some(6)
    case LastModified => Some(7)
    case _ => None
  }

  function Artifact(c: Config, k: Key): string
    requires Slot(k).Some?
  {
    Artifacts(c)[Slot(k).value]
  }

  function WithArtifact(c: Config, k: Key, v: string): Config
    requires Slot(k).Some?
  {
    match k
    case PrivateBook => c.(privateBook := v)
    case LocalBook => c.(localBook := v)
    case RouterBook => c.(routerBook := v)
    case PublishedBook => c.(publishedBook := v)
    case Subscriptions => c.(subscriptions := v)
    case LogFile => c.(logFile := v)
    case Etags => c.(etags := v)
    case LastModified => c.(lastModified := v)
  }

  /** `c` with the artifact names of `j` and `k` exchanged. */
  function Swapped(c: Config, j: Key, k: Key): Config
    requires Slot(j).Some? && Slot(k).Some?
  {
    WithArtifact(WithArtifact(c, j, Artifact(c, k)), k, Artifact(c, j))
  }

  lemma WithArtifactSlot(c: Config, k: Key, v: string)
    requires Slot(k).Some?
    ensures Artifacts(WithArtifact(c, k, v)) == Artifacts(c)[Slot(k).value := v]
    ensures forall i :: i != k ==> SameField(WithArtifact(c, k, v), c, i)
  {
  }

  lemma SlotInjective(j: Key, k: Key)
    requires Slot(j).Some? && Slot(j) == Slot(k)
    ensures j == k
  {
  }

  /** Assigning an artifact key stores a confined name, and nothing else. */
  lemma SetArtifact(lib: Library, c: Config, k: Key, v: string)
    requires Slot(k).Some? && ConfinedPath(v).Ok?
    ensures SetField(lib, c, k, v) == Ok(WithArtifact(c, k, v))
    ensures |v| <= MAX_CONFIG_VALUE_LEN
  {
  }

  lemma ArtifactConfined(lib: Library, c: Config, k: Key)
    requires FieldsValid(lib, c) && Slot(k).Some?
    ensures ConfinedPath(Artifact(c, k)).Ok?
  {
    hide ConfinedPath;
  }

  /**
   Exchanging any two of the eight artifact names works as one map, while either change
   alone clashes.
   */
  lemma SwapNeedsOneBatch(lib: Library, c: Config, j: Key, k: Key)
    requires Valid(lib, c) && Slot(j).Some? && Slot(k).Some? && j != k
    ensures CheckedUpdate(lib, c, map[Name(j) := Artifact(c, k), Name(k) := Artifact(c, j)]) == Ok(Swapped(c, j, k))
    ensures CheckedUpdate(lib, c, map[Name(j) := Artifact(c, k)]) == Err(InvalidConfigValue)
    ensures CheckedUpdate(lib, c, map[Name(k) := Artifact(c, j)]) == Err(InvalidConfigValue)
  {
    hide CheckedUpdate, Valid, WithArtifact, Artifacts, Slot;
    SwapAccepted(lib, c, j, k);
    AloneClashes(lib, c, j, k);
    AloneClashes(lib, c, k, j);
  }

  lemma AloneClashes(lib: Library, c: Config, j: Key, k: Key)
    requires Valid(lib, c) && Slot(j).Some? && Slot(k).Some? && j != k
    ensures CheckedUpdate(lib, c, map[Name(j) := Artifact(c, k)]) == Err(InvalidConfigValue)
  {
    hide CheckedUpdate, ParseKey, Name, SetField, ConfinedPath, WithArtifact, Slot, Artifacts;
    var v := Artifact(c, k);
    ArtifactConfined(lib, c, k);
    SetArtifact(lib, c, j, v);
    ParseKeyName(j);
    SingleUpdate(lib, c, Name(j), v);
    WithArtifactSlot(c, j, v);
    if Slot(j) == Slot(k) { SlotInjective(j, k); }
    var names := Artifacts(WithArtifact(c, j, v));
    assert names[Slot(j).value] == names[Slot(k).value];
  }

  lemma SwappedDistinct(c: Config, j: Key, k: Key)
    requires Slot(j).Some? && Slot(k).Some? && j != k && Distinct(Artifacts(c))
    ensures Distinct(Artifacts(Swapped(c, j, k)))
  {
    hide WithArtifact, Slot, Artifacts;
    if Slot(j) == Slot(k) { SlotInjective(j, k); }
    WithArtifactSlot(c, j, Artifact(c, k));
    WithArtifactSlot(WithArtifact(c, j, Artifact(c, k)), k, Artifact(c, j));
    ExchangedDistinct(Artifacts(c), Slot(j).value, Slot(k).value);
  }

  lemma ExchangedDistinct(a: seq<string>, x: nat, y: nat)
    requires Distinct(a) && x < |a| && y < |a| && x != y
    ensures Distinct(a[x := a[y]][y := a[x]])
  {
    var b := a[x := a[y]][y := a[x]];
    forall i, j | 0 <= i < j < |b| ensures b[i] != b[j] {
      var p := if i == x then y else if i == y then x else i;
      var q := if j == x then y else if j == y then x else j;
      assert b[i] == a[p] && b[j] == a[q] && p != q;
      assert p < q || q < p;
    }
  }

  lemma SwapIsOverlay(lib: Library, c: Config, j: Key, k: Key, entries: map<string, string>)
    requires FieldsValid(lib, c) && Slot(j).Some? && Slot(k).Some? && j != k && entries.Keys == {Name(j), Name(k)}
    requires entries[Name(j)] == Artifact(c, k) && entries[Name(k)] == Artifact(c, j)
    ensures IsOverlay(lib, c, entries, entries.Keys, Swapped(c, j, k))
  {
    hide ParseKey, Name, SetField, ConfinedPath, WithArtifact, Slot, Artifacts, SameField, FieldsValid;
    NameInjective();
    var mid, swapped := WithArtifact(c, j, Artifact(c, k)), Swapped(c, j, k);
    WithArtifactSlot(c, j, Artifact(c, k));
    WithArtifactSlot(mid, k, Artifact(c, j));
    ArtifactConfined(lib, c, j);
    ArtifactConfined(lib, c, k);
    SetArtifact(lib, c, j, Artifact(c, k));
    SetArtifact(lib, c, k, Artifact(c, j));
    forall i ensures if Name(i) in entries
                     then SetField(lib, c, i, entries[Name(i)]).Ok?
                          && SameField(swapped, SetField(lib, c, i, entries[Name(i)]).value, i)
                     else SameField(swapped, c, i)
    {
      if i == k {
        SameArtifact(mid, c, k, Artifact(c, j));
      } else {
        SameFieldTransfer(swapped, mid, i);
        if i == j { SameArtifact(mid, mid, j, Artifact(c, k)); }
      }
    }
  }

  /** An artifact field just stored does not depend on the rest of the configuration. */
  lemma SameArtifact(c: Config, d: Config, k: Key, v: string)
    requires Slot(k).Some?
    ensures SameField(WithArtifact(c, k, v), WithArtifact(d, k, v), k) && SameField(c, c, k)
  {
  }

  lemma SwapAccepted(lib: Library, c: Config, j: Key, k: Key)
    requires Valid(lib, c) && Slot(j).Some? && Slot(k).Some? && j != k
    ensures CheckedUpdate(lib, c, map[Name(j) := Artifact(c, k), Name(k) := Artifact(c, j)]) == Ok(Swapped(c, j, k))
  {
    hide CheckedUpdate, ParseKey, Name, SetField, ConfinedPath, WithArtifact, Slot, Artifacts, IsOverlay, FieldsValid, Distinct;
    NameInjective();
    var entries := map[Name(j) := Artifact(c, k), Name(k) := Artifact(c, j)];
    SwapIsOverlay(lib, c, j, k, entries);
    ArtifactConfined(lib, c, j);
    ArtifactConfined(lib, c, k);
    ParseKeyName(j);
    ParseKeyName(k);
    SetArtifact(lib, DEFAULT, j, Artifact(c, k));
    SetArtifact(lib, DEFAULT, k, Artifact(c, j));
    SwappedDistinct(c, j, k);
    UpdateMeaning(lib, c, entries);
    OverlayUnique(lib, c, entries, Swapped(c, j, k), CheckedUpdate(lib, c, entries).value);
  }
}
