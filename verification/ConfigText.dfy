/** Which texts the sixteen configuration keys accept, and what each stores. */
module ConfigText {
  import opened Wrappers
  import opened Text
  import opened AddressBookErrors
  import opened Config
  import opened OrderedKeys
  import opened Folds

  // ----- numbers -----

  function Zeros(k: nat): string { seq(k, i => '0') }

  /** `text` is the decimal numeral of `n`, leading zeros allowed. */
  ghost predicate Spells(text: string, n: nat) { exists k: nat :: text == Zeros(k) + Decimal(n) }

  lemma {:induction false} ZerosNumeral(k: nat)
    ensures AllDigits(Zeros(k)) && Numeral(Zeros(k)) == 0
  {
    if k > 0 {
      ZerosNumeral(k - 1);
      assert Zeros(k)[..k - 1] == Zeros(k - 1);
    }
  }

  lemma {:induction false} PaddedNumeral(k: nat, s: string)
    requires AllDigits(s)
    ensures AllDigits(Zeros(k) + s) && Numeral(Zeros(k) + s) == Numeral(s)
  {
    ZerosNumeral(k);
    if s == [] {
      assert Zeros(k) + s == Zeros(k);
    } else {
      var front := s[..|s| - 1];
      PaddedNumeral(k, front);
      assert (Zeros(k) + s)[..|Zeros(k) + s| - 1] == Zeros(k) + front;
    }
  }

  lemma SpellsNumeral(text: string, n: nat)
    requires Spells(text, n)
    ensures text != [] && AllDigits(text) && Numeral(text) == n
  {
    var k: nat :| text == Zeros(k) + Decimal(n);
    DecimalNumeral(n);
    PaddedNumeral(k, Decimal(n));
  }

  lemma DecimalSnoc(m: nat, d: nat)
    requires m > 0 && d < 10
    ensures Decimal(10 * m + d) == Decimal(m) + [Digit(d)]
  {
    assert (10 * m + d) / 10 == m && (10 * m + d) % 10 == d;
  }

  lemma DigitAppended(k: nat, m: nat, d: nat)
    requires d < 10
    ensures Spells(Zeros(k) + Decimal(m) + [Digit(d)], 10 * m + d)
  {
    hide Decimal;
    var text := Zeros(k) + Decimal(m) + [Digit(d)];
    if m == 0 {
      assert Decimal(0) == "0" && Decimal(d) == [Digit(d)] by { SmallDecimal(0); SmallDecimal(d); }
      assert Zeros(k + 1) == Zeros(k) + "0";
      assert text == Zeros(k + 1) + Decimal(d);
    } else {
      DecimalSnoc(m, d);
      assert text == Zeros(k) + Decimal(10 * m + d);
    }
  }

  lemma SmallDecimal(d: nat)
    requires d < 10
    ensures Decimal(d) == [Digit(d)]
  {
  }

  lemma {:induction false} NumeralSpells(text: string)
    requires text != [] && AllDigits(text)
    ensures Spells(text, Numeral(text))
  {
    hide Decimal, Spells;
    var front, last := text[..|text| - 1], text[|text| - 1];
    var d := last as int - '0' as int;
    assert text == front + [Digit(d)];
    if front == [] {
      NumeralOfNothing();
      SmallDecimal(d);
      OneDigitSpells(d);
    } else {
      NumeralSpells(front);
      var k := SpellingZeros(front, Numeral(front));
      DigitAppended(k, Numeral(front), d);
    }
  }

  lemma NumeralOfNothing()
    ensures Numeral([]) == 0
  {
  }

  lemma OneDigitSpells(d: nat)
    requires d < 10
    ensures Spells([Digit(d)], d)
  {
    assert [Digit(d)] == Zeros(0) + Decimal(d);
  }

  lemma SpellingZeros(text: string, n: nat) returns (k: nat)
    requires Spells(text, n)
    ensures text == Zeros(k) + Decimal(n)
  {
    k :| text == Zeros(k) + Decimal(n);
  }

  /** A number is read exactly from its numerals, within its range. */
  lemma ParseRangedExact(text: string, minimum: nat, maximum: nat, n: nat)
    ensures ParseRanged(text, minimum, maximum) == Ok(n) <==> Spells(text, n) && minimum <= n <= maximum
    ensures ParseRanged(text, minimum, maximum).Err? ==> ParseRanged(text, minimum, maximum).error == InvalidConfigValue
  {
    hide Numeral, Spells;
    if text != [] && AllDigits(text) { NumeralSpells(text); }
    if Spells(text, n) { SpellsNumeral(text, n); }
  }

  // ----- file names -----

  /** A plain file name: bounded, visible or beyond ASCII, no separator, not hidden, not a generation file. */
  ghost predicate FileName(v: string) {
    && 1 <= |v| <= 255
    && v[0] != '.'
    && (forall c :: c in v ==> (' ' <= c <= '~' || c as int >= 0x80) && c != '/' && c != '\\')
    && v != "addressbook.current.json" && v != "addressbook.backup.json"
  }

  lemma ConfinedPathExact(v: string)
    ensures ConfinedPath(v).Ok? <==> FileName(v)
    ensures ConfinedPath(v) == Err(PathEscape) <==> v == "." || v == ".."
    ensures ConfinedPath(v).Err? ==> ConfinedPath(v).error in {PathEscape, InvalidConfigValue}
  {
    if FileName(v) {
      forall i | 0 <= i < |v| ensures !(IsControl(v[i]) || v[i] == '/' || v[i] == '\\') { assert v[i] in v; }
    }
    if ConfinedPath(v).Ok? {
      forall c | c in v ensures (' ' <= c <= '~' || c as int >= 0x80) && c != '/' && c != '\\' {
        var i :| 0 <= i < |v| && v[i] == c;
      }
    }
  }

  // ----- one field -----

  ghost predicate Number(text: string, n: nat, minimum: nat, maximum: nat) { Spells(text, n) && minimum <= n <= maximum }

  /** The text `v`, given for key `k`, denotes what `c` holds there. */
  ghost predicate Denotes(lib: Library, k: Key, v: string, c: Config) {
    match k
    case PrivateBook => FileName(v) && c.privateBook == v
    case LocalBook => FileName(v) && c.localBook == v
    case RouterBook => FileName(v) && c.routerBook == v
    case PublishedBook => FileName(v) && c.publishedBook == v
    case Subscriptions => FileName(v) && c.subscriptions == v
    case RefreshInterval => Number(v, c.refreshIntervalHours, 1, 720)
    case ProxyHost => if v == "" then c.proxyHost.None? else c.proxyHost.Some? && lib.loopback(v) == c.proxyHost
    case ProxyPort => if v == "" then c.proxyPort.None? else c.proxyPort.Some? && Number(v, c.proxyPort.value, 1, 65535)
    case Theme => c.theme == v
    case LogFile => FileName(v) && c.logFile == v
    case LogLevel => LevelName(c.logLevel) == v
    case LookupTimeout => Number(v, c.lookupTimeoutSecs, 1, 300)
    case MaxEntries => Number(v, c.maxEntries, 1, 1000)
    case ShouldPublish => v == if c.shouldPublish then "true" else "false"
    case Etags => FileName(v) && c.etags == v
    case LastModified => FileName(v) && c.lastModified == v
  }

  /** An assignment succeeds exactly when its text denotes a value, and stores that value and nothing else. */
  lemma SetFieldExact(lib: Library, c: Config, k: Key, v: string, d: Config)
    ensures SetField(lib, c, k, v) == Ok(d) <==> Denotes(lib, k, v, d) && forall j :: j != k ==> SameField(d, c, j)
    ensures SetField(lib, c, k, v).Err? ==>
      SetField(lib, c, k, v).error == if Slot(k).Some? && (v == "." || v == "..") then PathEscape else InvalidConfigValue
  {
    hide ParseRanged, ConfinedPath, Spells, FileName;
    if Slot(k).Some? {
      FileFieldExact(lib, c, k, v, d);
    } else if k.RefreshInterval? || k.LookupTimeout? || k.MaxEntries? || k.ProxyPort? {
      NumberFieldExact(lib, c, k, v, d);
    } else {
      OtherFieldExact(lib, c, k, v, d);
    }
  }

  lemma FileFieldExact(lib: Library, c: Config, k: Key, v: string, d: Config)
    requires Slot(k).Some?
    ensures SetField(lib, c, k, v) == Ok(d) <==> Denotes(lib, k, v, d) && forall j :: j != k ==> SameField(d, c, j)
    ensures SetField(lib, c, k, v).Err? ==>
      SetField(lib, c, k, v).error == if v == "." || v == ".." then PathEscape else InvalidConfigValue
  {
    hide ConfinedPath, FileName;
    ConfinedPathExact(v);
    if FileName(v) {
      SetArtifact(lib, c, k, v);
      SetFieldLocal(lib, c, c, k, v);
      if Denotes(lib, k, v, d) && forall j :: j != k ==> SameField(d, c, j) { OneFieldDecides(d, WithArtifact(c, k, v), c, k); }
    }
  }

  /** A configuration is determined by one field and the rest. */
  lemma OneFieldDecides(c: Config, d: Config, base: Config, k: Key)
    requires SameField(c, d, k)
    requires forall j :: j != k ==> SameField(c, base, j) && SameField(d, base, j)
    ensures c == d
  {
    hide SameField;
    forall j ensures SameField(c, d, j) {
      if j != k {
        SameFieldBoth(c, d, base, j);
      }
    }
    SameFieldsEqual(c, d);
  }

  lemma SameFieldBoth(c: Config, d: Config, base: Config, j: Key)
    requires SameField(c, base, j) && SameField(d, base, j)
    ensures SameField(c, d, j)
  {
  }

  function WithNumber(c: Config, k: Key, n: nat): Config
    requires k.RefreshInterval? || k.LookupTimeout? || k.MaxEntries? || k.ProxyPort?
  {
    match k
    case RefreshInterval => c.(refreshIntervalHours := n)
    case LookupTimeout => c.(lookupTimeoutSecs := n)
    case MaxEntries => c.(maxEntries := n)
    case ProxyPort => c.(proxyPort := Some(n))
  }

  function Maximum(k: Key): nat { if k.RefreshInterval? then 720 else if k.LookupTimeout? then 300 else if k.MaxEntries? then 1000 else 65535 }

  lemma NumberFieldExact(lib: Library, c: Config, k: Key, v: string, d: Config)
    requires k.RefreshInterval? || k.LookupTimeout? || k.MaxEntries? || k.ProxyPort?
    ensures SetField(lib, c, k, v) == Ok(d) <==> Denotes(lib, k, v, d) && forall j :: j != k ==> SameField(d, c, j)
    ensures SetField(lib, c, k, v).Err? ==> SetField(lib, c, k, v).error == InvalidConfigValue
  {
    hide ParseRanged, Spells, SameField;
    SetFieldLocal(lib, c, c, k, v);
    var r := SetField(lib, c, k, v);
    if k.ProxyPort? && v == "" {
      NoPort(lib, c, d);
    } else {
      var n := ParseRanged(v, 1, Maximum(k));
      ParseRangedExact(v, 1, Maximum(k), if n.Ok? then n.value else 0);
      assert r == if n.Ok? then Ok(WithNumber(c, k, n.value)) else Err(n.error);
      if Denotes(lib, k, v, d) {
        var m := NumberOf(d, k);
        ParseRangedExact(v, 1, Maximum(k), m);
        NumberStored(c, d, k, m);
        if forall j :: j != k ==> SameField(d, c, j) { OneFieldDecides(d, WithNumber(c, k, m), c, k); }
      }
    }
  }

  function NumberOf(c: Config, k: Key): nat {
    match k
    case RefreshInterval => c.refreshIntervalHours
    case LookupTimeout => c.lookupTimeoutSecs
    case MaxEntries => c.maxEntries
    case ProxyPort => if c.proxyPort.Some? then c.proxyPort.value else 0
    case _ => 0
  }

  lemma NumberStored(c: Config, d: Config, k: Key, n: nat)
    requires k.RefreshInterval? || k.LookupTimeout? || k.MaxEntries? || (k.ProxyPort? && d.proxyPort.Some?)
    requires NumberOf(d, k) == n
    ensures SameField(d, WithNumber(c, k, n), k) && forall j :: j != k ==> SameField(WithNumber(c, k, n), c, j)
  {
  }

  lemma NoPort(lib: Library, c: Config, d: Config)
    ensures SetField(lib, c, ProxyPort, "") == Ok(d) <==>
      d.proxyPort.None? && forall j :: j != ProxyPort ==> SameField(d, c, j)
    ensures SetField(lib, c, ProxyPort, "").Ok?
  {
    var e := c.(proxyPort := None);
    assert forall j :: j != ProxyPort ==> SameField(e, c, j);
    if d.proxyPort.None? && forall j :: j != ProxyPort ==> SameField(d, c, j) { OneFieldDecides(d, e, c, ProxyPort); }
  }

  lemma OtherFieldExact(lib: Library, c: Config, k: Key, v: string, d: Config)
    requires k in {ProxyHost, Theme, LogLevel, ShouldPublish}
    ensures SetField(lib, c, k, v) == Ok(d) <==> Denotes(lib, k, v, d) && forall j :: j != k ==> SameField(d, c, j)
    ensures SetField(lib, c, k, v).Err? ==> SetField(lib, c, k, v).error == InvalidConfigValue
  {
    SetFieldLocal(lib, c, c, k, v);
    if k.LogLevel? { LevelExact(v, d.logLevel); }
    var r := SetField(lib, c, k, v);
    if Denotes(lib, k, v, d) && forall j :: j != k ==> SameField(d, c, j) {
      assert r.Ok? && SameField(d, r.value, k);
      OneFieldDecides(d, r.value, c, k);
    }
    if r == Ok(d) && k.LogLevel? { LevelExact(v, ParseLevel(v).value); }
  }

  lemma LevelExact(v: string, l: Level)
    ensures ParseLevel(v) == Some(l) <==> v == LevelName(l)
  {
    ParseLevelName(l);
  }

  // ----- a whole update -----

  /** `base` with field `k` of `c`. */
  function WithField(base: Config, c: Config, k: Key): Config {
    match k
    case PrivateBook => base.(privateBook := c.privateBook)
    case LocalBook => base.(localBook := c.localBook)
    case RouterBook => base.(routerBook := c.routerBook)
    case PublishedBook => base.(publishedBook := c.publishedBook)
    case Subscriptions => base.(subscriptions := c.subscriptions)
    case RefreshInterval => base.(refreshIntervalHours := c.refreshIntervalHours)
    case ProxyHost => base.(proxyHost := c.proxyHost)
    case ProxyPort => base.(proxyPort := c.proxyPort)
    case Theme => base.(theme := c.theme)
    case LogFile => base.(logFile := c.logFile)
    case LogLevel => base.(logLevel := c.logLevel)
    case LookupTimeout => base.(lookupTimeoutSecs := c.lookupTimeoutSecs)
    case MaxEntries => base.(maxEntries := c.maxEntries)
    case ShouldPublish => base.(shouldPublish := c.shouldPublish)
    case Etags => base.(etags := c.etags)
    case LastModified => base.(lastModified := c.lastModified)
  }

  lemma WithFieldMeaning(base: Config, c: Config, k: Key)
    ensures SameField(WithField(base, c, k), c, k) && SameField(c, WithField(base, c, k), k)
    ensures forall j :: j != k ==> SameField(WithField(base, c, k), base, j)
  {
  }

  lemma DenotesLocal(lib: Library, k: Key, v: string, c: Config, d: Config)
    requires SameField(c, d, k)
    ensures Denotes(lib, k, v, c) == Denotes(lib, k, v, d)
  {
    hide FileName, Spells;
  }

  /** Setting a field of any base reaches `c` there exactly when the text denotes what `c` holds. */
  lemma FieldReached(lib: Library, base: Config, k: Key, v: string, c: Config)
    ensures SetField(lib, base, k, v).Ok? && SameField(c, SetField(lib, base, k, v).value, k) <==> Denotes(lib, k, v, c)
  {
    hide SetField, Denotes, SameField, WithField;
    var e := WithField(base, c, k);
    WithFieldMeaning(base, c, k);
    DenotesLocal(lib, k, v, c, e);
    SetFieldExact(lib, base, k, v, e);
    var r := SetField(lib, base, k, v);
    if r.Ok? && SameField(c, r.value, k) {
      SetFieldExact(lib, base, k, v, r.value);
      DenotesLocal(lib, k, v, c, r.value);
    }
  }

  /** `d` is `base` with exactly the given texts taken over. */
  ghost predicate Takes(lib: Library, base: Config, entries: map<string, string>, d: Config) {
    forall k :: if Name(k) in entries then Denotes(lib, k, entries[Name(k)], d) else SameField(d, base, k)
  }

  ghost predicate KnownKeys(entries: map<string, string>) {
    forall key :: key in entries ==> |entries[key]| <= 1024 && exists k :: key == Name(k)
  }

  lemma OverlayIsTaking(lib: Library, base: Config, entries: map<string, string>, d: Config)
    ensures IsOverlay(lib, base, entries, entries.Keys, d) <==> Takes(lib, base, entries, d)
  {
    hide SetField, Denotes, SameField, Name;
    forall k | Name(k) in entries
      ensures SetField(lib, base, k, entries[Name(k)]).Ok?
              && SameField(d, SetField(lib, base, k, entries[Name(k)]).value, k)
          <==> Denotes(lib, k, entries[Name(k)], d)
    {
      FieldReached(lib, base, k, entries[Name(k)], d);
    }
  }

  lemma AdmissibleTaken(lib: Library, base: Config, entries: map<string, string>, d: Config)
    requires Takes(lib, base, entries, d)
    ensures KnownKeys(entries) <==> forall key :: key in entries ==> Admissible(lib, key, entries[key])
  {
    hide SetField, Denotes, SameField, ParseKey, Name;
    forall key | key in entries
      ensures Admissible(lib, key, entries[key]) <==> |entries[key]| <= 1024 && exists k :: key == Name(k)
    {
      if k: Key :| key == Name(k) {
        ParseKeyName(k);
        FieldReached(lib, DEFAULT, k, entries[key], d);
      }
    }
  }

  /**
   An update yields `d` exactly when every entry names a key and is bounded, every text denotes
   what `d` holds there, every other field is the base's, and the eight artifact names differ.
   */
  lemma UpdateExact(lib: Library, base: Config, entries: map<string, string>, d: Config)
    ensures CheckedUpdate(lib, base, entries) == Ok(d) <==>
      KnownKeys(entries) && Takes(lib, base, entries, d) && Distinct(Artifacts(d))
  {
    hide CheckedUpdate, IsOverlay, Takes, KnownKeys, Admissible, Distinct;
    UpdateMeaning(lib, base, entries);
    OverlayIsTaking(lib, base, entries, d);
    var r := CheckedUpdate(lib, base, entries);
    if r == Ok(d) {
      AdmissibleTaken(lib, base, entries, d);
      UpdateDistinct(lib, base, entries);
    }
    if KnownKeys(entries) && Takes(lib, base, entries, d) && Distinct(Artifacts(d)) {
      AdmissibleTaken(lib, base, entries, d);
      OverlayUnique(lib, base, entries, d, r.value);
    }
  }

  lemma UpdateDistinct(lib: Library, base: Config, entries: map<string, string>)
    requires CheckedUpdate(lib, base, entries).Ok?
    ensures Distinct(Artifacts(CheckedUpdate(lib, base, entries).value))
  {
  }

  /** How one entry is refused: too long or denoting nothing, naming no key, or an escape where a file name is due. */
  lemma RefusalExact(lib: Library, entries: map<string, string>, key: string)
    requires key in entries
    ensures var r := Refusal(lib, entries, key);
      && (r == Some(UnknownConfigKey) <==> |entries[key]| <= 1024 && forall k :: key != Name(k))
      && (r.None? <==> |entries[key]| <= 1024 && exists k, d :: key == Name(k) && Denotes(lib, k, entries[key], d))
      && (r == Some(PathEscape) <==> exists k :: key == Name(k) && Slot(k).Some? && entries[key] in {".", ".."})
      && (r.Some? ==> r.value in {UnknownConfigKey, InvalidConfigValue, PathEscape})
  {
    hide SetField, Denotes, SameField, ParseKey, Name, Slot;
    var v := entries[key];
    if k: Key :| key == Name(k) {
      ParseKeyName(k);
      NameInjective();
      SetFieldExact(lib, DEFAULT, k, v, DEFAULT);
      if SetField(lib, DEFAULT, k, v).Ok? {
        SetFieldExact(lib, DEFAULT, k, v, SetField(lib, DEFAULT, k, v).value);
        assert Denotes(lib, k, v, SetField(lib, DEFAULT, k, v).value);
      }
      if d: Config :| Denotes(lib, k, v, d) { FieldReached(lib, DEFAULT, k, v, d); }
      if Slot(k).Some? && (v == "." || v == "..") { DotsRefused(lib, k, v); }
    }
  }

  lemma DotsRefused(lib: Library, k: Key, v: string)
    requires Slot(k).Some? && (v == "." || v == "..")
    ensures SetField(lib, DEFAULT, k, v).Err?
  {
  }

  ghost predicate FirstRefusedAt(lib: Library, entries: map<string, string>, keys: seq<string>, i: nat) {
    i < |keys| && Refusal(lib, entries, keys[i]).Some? && forall j :: 0 <= j < i ==> Refusal(lib, entries, keys[j]).None?
  }

  lemma SortedIsOrder(entries: map<string, string>)
    ensures IsOrder(entries, SortedKeys(entries.Keys))
  {
  }

  /** A failing update reports the refusal of its first bad entry in key order, or else the clash of two artifact names. */
  lemma UpdateError(lib: Library, base: Config, entries: map<string, string>)
    ensures forall i: nat :: FirstRefusedAt(lib, entries, SortedKeys(entries.Keys), i) ==>
      CheckedUpdate(lib, base, entries) == Err(Refusal(lib, entries, SortedKeys(entries.Keys)[i]).value)
    ensures CheckedUpdate(lib, base, entries).Err? && (forall key :: key in entries ==> Refusal(lib, entries, key).None?) ==>
      CheckedUpdate(lib, base, entries) == Err(InvalidConfigValue)
  {
    hide Refusal, TryFold, Assigner, SortedKeys, IsOrder, Distinct;
    var keys := SortedKeys(entries.Keys);
    SortedIsOrder(entries);
    forall i: nat | FirstRefusedAt(lib, entries, keys, i)
      ensures CheckedUpdate(lib, base, entries) == Err(Refusal(lib, entries, keys[i]).value)
    {
      FoldError(lib, base, entries, keys, i);
    }
    if forall key :: key in entries ==> Refusal(lib, entries, key).None? {
      NoRefusalNoError(lib, base, entries, keys);
    }
  }

  lemma NoRefusalNoError(lib: Library, base: Config, entries: map<string, string>, keys: seq<string>)
    requires IsOrder(entries, keys) && forall key :: key in entries ==> Refusal(lib, entries, key).None?
    ensures TryFold(Assigner(lib, entries), base, keys).Ok?
  {
    hide TryFold, Assigner;
    assert forall k :: k in keys <==> k in Elements(keys);
    FoldMeaning(lib, base, entries, keys);
    forall k | k in keys ensures Admissible(lib, k, entries[k]) { assert Refusal(lib, entries, k).None?; }
  }
}
