/**
 Text helpers. A Rust string is modelled as its sequence of UTF-8 bytes, each byte
 written as the `char` with that code, so `|s|` is `str::len` and slicing is by byte.
 */
module Text {

  predicate IsDigit(c: char) { '0' <= c <= '9' }

  predicate IsUpper(c: char) { 'A' <= c <= 'Z' }

  predicate IsLower(c: char) { 'a' <= c <= 'z' }

  predicate IsAlphanumeric(c: char) { IsDigit(c) || IsUpper(c) || IsLower(c) }

  predicate IsAscii(s: string) { forall i :: 0 <= i < |s| ==> s[i] as int < 0x80 }

  /** ASCII control bytes, DEL included. */
  predicate IsControl(c: char) { c as int < 0x20 || c as int == 0x7f }

  predicate StartsWith(s: string, p: string) { |p| <= |s| && s[..|p|] == p }

  predicate EndsWith(s: string, p: string) { |p| <= |s| && s[|s| - |p|..] == p }

  predicate Distinct<T(==)>(s: seq<T>) { forall i, j :: 0 <= i < j < |s| ==> s[i] != s[j] }

  function Elements<T>(s: seq<T>): set<T> { set x | x in s }

  // ----- case folding -----

  function LowerChar(c: char): char {
    if IsUpper(c) then (c as int + 32) as char else c
  }

  function Lower(s: string): (r: string)
    ensures |r| == |s|
    ensures forall i :: 0 <= i < |s| ==> r[i] == LowerChar(s[i])
  {
    seq(|s|, i requires 0 <= i < |s| => LowerChar(s[i]))
  }

  // ----- encoding -----

  predicate InRange(s: string, i: nat, low: int, high: int) { i < |s| && low <= s[i] as int <= high }

  /** Well-formed UTF-8 (section 4 of RFC 3629). */
  predicate IsUtf8(s: string) {
    if s == [] then true
    else if InRange(s, 0, 0, 0x7f) then IsUtf8(s[1..])
    else if InRange(s, 0, 0xc2, 0xdf) then InRange(s, 1, 0x80, 0xbf) && IsUtf8(s[2..])
    else if InRange(s, 0, 0xe0, 0xef) then
      && InRange(s, 1, if s[0] as int == 0xe0 then 0xa0 else 0x80, if s[0] as int == 0xed then 0x9f else 0xbf)
      && InRange(s, 2, 0x80, 0xbf)
      && IsUtf8(s[3..])
    else
      && InRange(s, 0, 0xf0, 0xf4)
      && InRange(s, 1, if s[0] as int == 0xf0 then 0x90 else 0x80, if s[0] as int == 0xf4 then 0x8f else 0xbf)
      && InRange(s, 2, 0x80, 0xbf)
      && InRange(s, 3, 0x80, 0xbf)
      && IsUtf8(s[4..])
  }

  // ----- splitting at a separator -----

  /** `str::split`: always at least one part; the separators themselves are dropped. */
  function Split(s: string, c: char): (parts: seq<string>)
    ensures |parts| >= 1
  {
    if s == [] then [[]]
    else
      var rest := Split(s[1..], c);
      if s[0] == c then [[]] + rest else [[s[0]] + rest[0]] + rest[1..]
  }

  function Join(parts: seq<string>, c: char): string {
    if parts == [] then []
    else if |parts| == 1 then parts[0]
    else parts[0] + [c] + Join(parts[1..], c)
  }

  /** Splitting distributes over a join with one separator in the middle. */
  lemma {:induction false} SplitConcat(x: string, y: string, c: char)
    ensures Split(x + [c] + y, c) == Split(x, c) + Split(y, c)
  {
    var whole := x + [c] + y;
    if x == [] {
      assert whole[1..] == y;
    } else {
      assert whole[1..] == x[1..] + [c] + y;
      SplitConcat(x[1..], y, c);
    }
  }

  lemma {:induction false} SplitWhole(s: string, c: char)
    requires c !in s
    ensures Split(s, c) == [s]
  {
    if s != [] {
      SplitWhole(s[1..], c);
      assert [s[0]] + s[1..] == s;
    }
  }

  lemma {:induction false} SplitJoin(parts: seq<string>, c: char)
    requires parts != []
    requires forall i :: 0 <= i < |parts| ==> c !in parts[i]
    ensures Split(Join(parts, c), c) == parts
  {
    if |parts| == 1 {
      SplitWhole(parts[0], c);
    } else {
      SplitJoin(parts[1..], c);
      SplitConcat(parts[0], Join(parts[1..], c), c);
      SplitWhole(parts[0], c);
    }
  }

  lemma {:induction false} JoinSplit(s: string, c: char)
    ensures Join(Split(s, c), c) == s
  {
    if s != [] {
      JoinSplit(s[1..], c);
      var rest := Split(s[1..], c);
      if s[0] == c {
        assert ([[]] + rest)[1..] == rest;
      } else if |rest| > 1 {
        assert ([[s[0]] + rest[0]] + rest[1..])[1..] == rest[1..];
      }
    }
  }

  // ----- decimal numerals -----

  function Digit(n: nat): char
    requires n < 10
  {
    ('0' as int + n) as char
  }

  /** `to_string` of an unsigned integer. */
  function Decimal(n: nat): (s: string)
    ensures s != []
  {
    if n < 10 then [Digit(n)] else Decimal(n / 10) + [Digit(n % 10)]
  }

  predicate AllDigits(s: string) { forall i :: 0 <= i < |s| ==> IsDigit(s[i]) }

  /** The number an ASCII digit string denotes; leading zeros are allowed. */
  function Numeral(s: string): nat
    requires AllDigits(s)
  {
    if s == [] then 0
    else Numeral(s[..|s| - 1]) * 10 + (s[|s| - 1] as int - '0' as int)
  }

  lemma {:induction false} DecimalNumeral(n: nat)
    ensures AllDigits(Decimal(n)) && Numeral(Decimal(n)) == n
  {
    if n >= 10 {
      DecimalNumeral(n / 10);
      var d := Decimal(n);
      assert d[..|d| - 1] == Decimal(n / 10);
    }
  }

  lemma {:induction false} DecimalShort(n: nat, k: nat, bound: nat)
    requires k >= 1 && n < bound && bound == PowerOfTen(k)
    ensures |Decimal(n)| <= k
  {
    if n >= 10 {
      DecimalShort(n / 10, k - 1, PowerOfTen(k - 1));
    }
  }

  function PowerOfTen(k: nat): nat { if k == 0 then 1 else 10 * PowerOfTen(k - 1) }
}
