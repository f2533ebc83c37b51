/** IP addresses, CIDR membership by xor and shift, and address scopes. */
module Cidr {
  import opened Wrappers
  import opened Bytes

  type u128 = n: nat | n < 0x1_0000_0000_0000_0000_0000_0000_0000_0000

  datatype IpAddr = V4(v4: u32) | V6(v6: u128)

  // ----- bitwise operators on naturals -----

  function Pow2(k: nat): (r: nat)
    ensures r >= 1
  {
    if k == 0 then 1 else 2 * Pow2(k - 1)
  }

  /** Bit-by-bit exclusive or. */
  function Xor(a: nat, b: nat): nat
    decreases a + b
  {
    if a == 0 && b == 0 then 0 else 2 * Xor(a / 2, b / 2) + (if a % 2 == b % 2 then 0 else 1)
  }

  function ShiftRight(n: nat, k: nat): nat { Quotient(n, Pow2(k)) }

  function Quotient(n: nat, d: nat): nat
    requires d > 0
  {
    n / d
  }

  lemma {:induction false} XorZero(a: nat, b: nat)
    ensures Xor(a, b) == 0 <==> a == b
    decreases a + b
  {
    if a != 0 || b != 0 { XorZero(a / 2, b / 2); }
  }

  lemma DivPow2(n: nat, k: nat)
    requires k > 0
    ensures n / Pow2(k) == n / 2 / Pow2(k - 1)
  {
    DivTwice(n, 2, Pow2(k - 1));
  }

  lemma DivTwice(n: nat, a: nat, b: nat)
    requires a > 0 && b > 0
    ensures a * b > 0 && n / (a * b) == n / a / b
  {
    var q, r := n / a, n % a;
    var p, s := q / b, q % b;
    Recompose(n, a, b, q, r, p, s);
    QuotientUnique(n, a * b, p, a * s + r);
  }

  /** Two divisions with remainder make one, by the product. */
  lemma Recompose(n: nat, a: nat, b: nat, q: nat, r: nat, p: nat, s: nat)
    requires n == a * q + r && r < a
    requires q == b * p + s && s < b
    ensures 0 <= a * s + r < a * b && n == (a * b) * p + (a * s + r)
  {
    Distribute(a, b, p, s);
    MulMono(a, s, b - 1);
    MulMono(a, 0, s);
    assert a * (b - 1) == a * b - a;
  }

  lemma Distribute(a: nat, b: nat, p: nat, s: nat)
    ensures a * (b * p + s) == (a * b) * p + a * s
  {
  }

  lemma MulMono(a: nat, s: nat, t: nat)
    requires s <= t
    ensures a * s <= a * t
  {
  }

  lemma QuotientUnique(n: nat, d: nat, p: nat, r: nat)
    requires d > 0 && r < d && n == d * p + r
    ensures n / d == p
  {
    var q := n / d;
    assert n == d * q + n % d;
    if q < p {
      MulMono(d, q + 1, p);
    } else if q > p {
      MulMono(d, p + 1, q);
    }
  }

  lemma {:induction false} XorShifted(a: nat, b: nat, k: nat)
    ensures ShiftRight(Xor(a, b), k) == Xor(ShiftRight(a, k), ShiftRight(b, k))
    decreases k
  {
    if k > 0 {
      DivPow2(a, k);
      DivPow2(b, k);
      DivPow2(Xor(a, b), k);
      assert Xor(a, b) / 2 == Xor(a / 2, b / 2);
      XorShifted(a / 2, b / 2, k - 1);
    }
  }

  /** Xor-and-shift compares the high bits: it is zero exactly when the quotients by 2^k agree. */
  lemma XorShiftMeaning(a: nat, b: nat, k: nat)
    ensures ShiftRight(Xor(a, b), k) == 0 <==> a / Pow2(k) == b / Pow2(k)
  {
    XorShifted(a, b, k);
    XorZero(ShiftRight(a, k), ShiftRight(b, k));
  }

  // ----- CIDR blocks -----

  datatype IpCidr = IpCidr(network: IpAddr, prefix: nat) {
    predicate Contains(ip: IpAddr) {
      match (network, ip)
      case (V4(a), V4(b)) => prefix <= 32 && (prefix == 0 || ShiftRight(Xor(a, b), 32 - prefix) == 0)
      case (V6(a), V6(b)) => prefix <= 128 && (prefix == 0 || ShiftRight(Xor(a, b), 128 - prefix) == 0)
      case _ => false
    }
  }

  function Width(ip: IpAddr): nat { if ip.V4? then 32 else 128 }

  function Number(ip: IpAddr): nat { if ip.V4? then ip.v4 else ip.v6 }

  predicate SameFamily(a: IpAddr, b: IpAddr) { a.V4? == b.V4? }

  lemma {:induction false} Pow2Add(a: nat, b: nat)
    ensures Pow2(a + b) == Pow2(a) * Pow2(b)
  {
    if a > 0 { Pow2Add(a - 1, b); }
  }

  lemma Widths32()
    ensures Pow2(4) == 16 && Pow2(8) == 0x100 && Pow2(16) == 0x1_0000 && Pow2(32) == 0x1_0000_0000
    ensures Pow2(24) == 0x100_0000 && Pow2(17) == 0x2_0000
  {
    assert Pow2(2) == 4;
    Pow2Add(2, 2);
    Pow2Add(4, 4);
    Pow2Add(8, 8);
    Pow2Add(16, 16);
    Pow2Add(16, 8);
    Pow2Add(16, 1);
  }

  lemma Widths128()
    ensures Pow2(64) == 0x1_0000_0000_0000_0000 && Pow2(96) == 0x1_0000_0000_0000_0000_0000_0000
    ensures Pow2(128) == 0x1_0000_0000_0000_0000_0000_0000_0000_0000
    ensures Pow2(80) == 0x1_0000_0000_0000_0000_0000 && Pow2(112) == 0x1_0000_0000_0000_0000_0000_0000_0000
    ensures Pow2(105) == 0x200_0000_0000_0000_0000_0000_0000 && Pow2(108) == 0x1000_0000_0000_0000_0000_0000_0000
  {
    Widths32();
    assert Pow2(9) == 0x200 && Pow2(12) == 0x1000 by {
      Pow2Add(8, 1);
      Pow2Add(8, 4);
    }
    Pow2Add(32, 32);
    Pow2Add(64, 32);
    Pow2Add(64, 64);
    Pow2Add(64, 16);
    Pow2Add(96, 16);
    Pow2Add(96, 9);
    Pow2Add(96, 12);
  }

  lemma WholeFamily(ip: IpAddr)
    ensures Number(ip) / Pow2(Width(ip)) == 0
  {
    hide Pow2;
    Widths32();
    Widths128();
  }

  /** Membership means equal network numbers, for every prefix length of either family. */
  lemma ContainsMeaning(c: IpCidr, ip: IpAddr)
    ensures c.Contains(ip) <==>
      && SameFamily(c.network, ip)
      && c.prefix <= Width(ip)
      && Number(ip) / Pow2(Width(ip) - c.prefix) == Number(c.network) / Pow2(Width(ip) - c.prefix)
  {
    hide Pow2, Xor;
    if SameFamily(c.network, ip) && c.prefix <= Width(ip) {
      var k := Width(ip) - c.prefix;
      XorShiftMeaning(Number(c.network), Number(ip), k);
      if c.prefix == 0 {
        WholeFamily(ip);
        WholeFamily(c.network);
      }
    }
  }

  lemma CoarserQuotient(a: nat, b: nat, fine: nat, coarse: nat)
    requires fine <= coarse && a / Pow2(fine) == b / Pow2(fine)
    ensures a / Pow2(coarse) == b / Pow2(coarse)
  {
    Pow2Add(fine, coarse - fine);
    DivTwice(a, Pow2(fine), Pow2(coarse - fine));
    DivTwice(b, Pow2(fine), Pow2(coarse - fine));
  }

  /** Two blocks of one family are nested or disjoint: a shared address puts the longer prefix inside the shorter. */
  lemma NestedOrDisjoint(c: IpCidr, d: IpCidr, shared: IpAddr, ip: IpAddr)
    requires c.prefix <= d.prefix
    requires c.Contains(shared) && d.Contains(shared) && d.Contains(ip)
    ensures c.Contains(ip)
  {
    ContainsMeaning(c, shared);
    ContainsMeaning(d, shared);
    ContainsMeaning(d, ip);
    ContainsMeaning(c, ip);
    var w := Width(ip);
    CoarserQuotient(Number(ip), Number(shared), w - d.prefix, w - c.prefix);
  }

  // ----- scopes -----

  datatype AddressScope =
    | Global | Loopback | Private | LinkLocal | Multicast | Broadcast
    | Documentation | Benchmark | SpecialPurpose | Reserved | Unspecified

  function Ipv4(a: byte, b: byte, c: byte, d: byte): u32 {
    a * 0x100_0000 + b * 0x1_0000 + c * 0x100 + d
  }

  predicate InPrefix4(address: u32, network: u32, prefix: nat)
    requires prefix <= 32
  {
    ShiftRight(Xor(address, network), 32 - prefix) == 0
  }

  /** A network number with its 16-bit segments from the top; the others are zero. */
  function Ipv6(s0: u16, s1: u16, s2: u16, s3: u16): u128 {
    s0 * 0x1_0000_0000_0000_0000_0000_0000_0000 + s1 * 0x1_0000_0000_0000_0000_0000_0000
    + s2 * 0x1_0000_0000_0000_0000_0000 + s3 * 0x1_0000_0000_0000_0000
  }

  predicate InPrefix6(address: u128, network: u128, prefix: nat)
    requires prefix <= 128
  {
    ShiftRight(Xor(address, network), 128 - prefix) == 0
  }

  /** `to_ipv4_mapped`: the form `::ffff:a.b.c.d`. */
  function Mapped(v: u128): Option<u32> {
    if v / 0x1_0000_0000 == 0xffff then Some(v % 0x1_0000_0000) else None
  }

  function Scope4(v: u32): AddressScope {
    var o0, o1 := v / 0x100_0000, v / 0x1_0000 % 0x100;
    if v == 0 then Unspecified
    else if o0 == 127 then Loopback
    else if v == 0xffff_ffff then Broadcast
    else if 224 <= o0 <= 239 then Multicast
    else if o0 == 169 && o1 == 254 then LinkLocal
    else if o0 == 10 || (o0 == 172 && 16 <= o1 <= 31) || (o0 == 192 && o1 == 168) || (o0 == 100 && 64 <= o1 <= 127) then
      Private
    else if InPrefix4(v, Ipv4(192, 0, 2, 0), 24) || InPrefix4(v, Ipv4(198, 51, 100, 0), 24)
         || InPrefix4(v, Ipv4(203, 0, 113, 0), 24) then
      Documentation
    else if InPrefix4(v, Ipv4(198, 18, 0, 0), 15) then Benchmark
    else if o0 == 0 || InPrefix4(v, Ipv4(192, 0, 0, 0), 24) || InPrefix4(v, Ipv4(192, 31, 196, 0), 24)
         || InPrefix4(v, Ipv4(192, 52, 193, 0), 24) || InPrefix4(v, Ipv4(192, 88, 99, 0), 24)
         || InPrefix4(v, Ipv4(192, 175, 48, 0), 24) then
      SpecialPurpose
    else if o0 >= 240 then Reserved
    else Global
  }

  function Scope6(v: u128): AddressScope {
    var s0 := v / 0x1_0000_0000_0000_0000_0000_0000_0000;
    if Mapped(v).Some? then Scope4(Mapped(v).value)
    else if v == 0 then Unspecified
    else if v == 1 then Loopback
    else if s0 / 0x100 == 0xff then Multicast
    else if s0 / 0x40 == 0xfe80 / 0x40 then LinkLocal
    else if s0 / 0x200 == 0xfc00 / 0x200 then Private
    else if InPrefix6(v, Ipv6(0x2001, 0x0db8, 0, 0), 32) || InPrefix6(v, Ipv6(0x3fff, 0, 0, 0), 20) then Documentation
    else if InPrefix6(v, Ipv6(0x2001, 0x0002, 0, 0), 48) then Benchmark
    else if InPrefix6(v, Ipv6(0x2001, 0, 0, 0), 23) || InPrefix6(v, Ipv6(0x0064, 0xff9b, 0, 0), 96)
         || InPrefix6(v, Ipv6(0x0064, 0xff9b, 0x0001, 0), 48) || InPrefix6(v, Ipv6(0x0100, 0, 0, 0), 64)
         || InPrefix6(v, Ipv6(0x0100, 0, 0, 1), 64) || InPrefix6(v, Ipv6(0x2002, 0, 0, 0), 16) then
      SpecialPurpose
    else if s0 / 0x2000 != 1 then Reserved
    else Global
  }

  function Scope(ip: IpAddr): AddressScope {
    match ip
    case V4(v) => Scope4(v)
    case V6(v) => Scope6(v)
  }

  /** A prefix block as an interval. */
  lemma Prefix4Interval(v: u32, network: u32, prefix: nat, size: nat)
    requires prefix <= 32 && size == Pow2(32 - prefix) && network % size == 0
    ensures InPrefix4(v, network, prefix) <==> network <= v < network + size
  {
    XorShiftMeaning(v, network, 32 - prefix);
    QuotientInterval(v, network, size);
  }

  lemma Prefix6Interval(v: u128, network: u128, prefix: nat, size: nat)
    requires prefix <= 128 && size == Pow2(128 - prefix) && network % size == 0
    ensures InPrefix6(v, network, prefix) <==> network <= v < network + size
  {
    XorShiftMeaning(v, network, 128 - prefix);
    QuotientInterval(v, network, size);
  }

  lemma QuotientInterval(v: nat, network: nat, size: nat)
    requires size > 0 && network % size == 0
    ensures v / size == network / size <==> network <= v < network + size
  {
    var q := network / size;
    assert network == size * q;
    if network <= v < network + size {
      QuotientUnique(v, size, q, v - network);
    }
    if v / size == q {
      assert v == size * q + v % size;
    }
  }

  /** The IPv4 addresses that are not `Global`, as closed intervals. */
  const NOT_GLOBAL_4: seq<(nat, nat)> :=
    [(0x0000_0000, 0x00ff_ffff), (0x0a00_0000, 0x0aff_ffff), (0x6440_0000, 0x647f_ffff), (0x7f00_0000, 0x7fff_ffff),
     (0xa9fe_0000, 0xa9fe_ffff), (0xac10_0000, 0xac1f_ffff), (0xc000_0000, 0xc000_00ff), (0xc000_0200, 0xc000_02ff),
     (0xc01f_c400, 0xc01f_c4ff), (0xc034_c100, 0xc034_c1ff), (0xc058_6300, 0xc058_63ff), (0xc0a8_0000, 0xc0a8_ffff),
     (0xc0af_3000, 0xc0af_30ff), (0xc612_0000, 0xc613_ffff), (0xc633_6400, 0xc633_64ff), (0xcb00_7100, 0xcb00_71ff),
     (0xe000_0000, 0xffff_ffff)]

  ghost predicate InSome(v: nat, intervals: seq<(nat, nat)>) {
    exists i :: 0 <= i < |intervals| && intervals[i].0 <= v <= intervals[i].1
  }

  lemma Prefixes4(v: u32)
    ensures InPrefix4(v, Ipv4(192, 0, 2, 0), 24) <==> 0xc000_0200 <= v <= 0xc000_02ff
    ensures InPrefix4(v, Ipv4(198, 51, 100, 0), 24) <==> 0xc633_6400 <= v <= 0xc633_64ff
    ensures InPrefix4(v, Ipv4(203, 0, 113, 0), 24) <==> 0xcb00_7100 <= v <= 0xcb00_71ff
    ensures InPrefix4(v, Ipv4(198, 18, 0, 0), 15) <==> 0xc612_0000 <= v <= 0xc613_ffff
    ensures InPrefix4(v, Ipv4(192, 0, 0, 0), 24) <==> 0xc000_0000 <= v <= 0xc000_00ff
    ensures InPrefix4(v, Ipv4(192, 31, 196, 0), 24) <==> 0xc01f_c400 <= v <= 0xc01f_c4ff
    ensures InPrefix4(v, Ipv4(192, 52, 193, 0), 24) <==> 0xc034_c100 <= v <= 0xc034_c1ff
    ensures InPrefix4(v, Ipv4(192, 88, 99, 0), 24) <==> 0xc058_6300 <= v <= 0xc058_63ff
    ensures InPrefix4(v, Ipv4(192, 175, 48, 0), 24) <==> 0xc0af_3000 <= v <= 0xc0af_30ff
  {
    hide InPrefix4, Pow2;
    Widths32();
    Prefix4Interval(v, Ipv4(192, 0, 2, 0), 24, 0x100);
    Prefix4Interval(v, Ipv4(198, 51, 100, 0), 24, 0x100);
    Prefix4Interval(v, Ipv4(203, 0, 113, 0), 24, 0x100);
    Prefix4Interval(v, Ipv4(198, 18, 0, 0), 15, 0x2_0000);
    Prefix4Interval(v, Ipv4(192, 0, 0, 0), 24, 0x100);
    Prefix4Interval(v, Ipv4(192, 31, 196, 0), 24, 0x100);
    Prefix4Interval(v, Ipv4(192, 52, 193, 0), 24, 0x100);
    Prefix4Interval(v, Ipv4(192, 88, 99, 0), 24, 0x100);
    Prefix4Interval(v, Ipv4(192, 175, 48, 0), 24, 0x100);
  }


  /** `Global` is exactly the complement of the seventeen intervals. */
  lemma Global4(v: u32)
    ensures Scope4(v) == Global <==> !InSome(v, NOT_GLOBAL_4)
  {
    hide InPrefix4;
    Prefixes4(v);
    Listed4(v);
  }

  /** The same seventeen intervals, written out. */
  ghost predicate Excluded4(v: nat) {
    || 0x0000_0000 <= v <= 0x00ff_ffff || 0x0a00_0000 <= v <= 0x0aff_ffff || 0x6440_0000 <= v <= 0x647f_ffff
    || 0x7f00_0000 <= v <= 0x7fff_ffff || 0xa9fe_0000 <= v <= 0xa9fe_ffff || 0xac10_0000 <= v <= 0xac1f_ffff
    || 0xc000_0000 <= v <= 0xc000_00ff || 0xc000_0200 <= v <= 0xc000_02ff || 0xc01f_c400 <= v <= 0xc01f_c4ff
    || 0xc034_c100 <= v <= 0xc034_c1ff || 0xc058_6300 <= v <= 0xc058_63ff || 0xc0a8_0000 <= v <= 0xc0a8_ffff
    || 0xc0af_3000 <= v <= 0xc0af_30ff || 0xc612_0000 <= v <= 0xc613_ffff || 0xc633_6400 <= v <= 0xc633_64ff
    || 0xcb00_7100 <= v <= 0xcb00_71ff || 0xe000_0000 <= v <= 0xffff_ffff
  }

  lemma Listed4(v: nat)
    ensures InSome(v, NOT_GLOBAL_4) <==> Excluded4(v)
  {
    var s := NOT_GLOBAL_4;
    if Excluded4(v) {
      assert s[0].0 <= v <= s[0].1 || s[1].0 <= v <= s[1].1 || s[2].0 <= v <= s[2].1 || s[3].0 <= v <= s[3].1
          || s[4].0 <= v <= s[4].1 || s[5].0 <= v <= s[5].1 || s[6].0 <= v <= s[6].1 || s[7].0 <= v <= s[7].1
          || s[8].0 <= v <= s[8].1 || s[9].0 <= v <= s[9].1 || s[10].0 <= v <= s[10].1 || s[11].0 <= v <= s[11].1
          || s[12].0 <= v <= s[12].1 || s[13].0 <= v <= s[13].1 || s[14].0 <= v <= s[14].1 || s[15].0 <= v <= s[15].1
          || s[16].0 <= v <= s[16].1;
    }
  }

  /** IPv6 `Global` is `2000::/3` without four blocks. */
  lemma Global6(v: u128)
    ensures Mapped(v).Some? ==> (Scope6(v) == Global <==> !InSome(Mapped(v).value, NOT_GLOBAL_4))
    ensures Mapped(v).None? ==> (Scope6(v) == Global <==>
      && Ipv6(0x2000, 0, 0, 0) <= v < Ipv6(0x4000, 0, 0, 0)
      && !(Ipv6(0x2001, 0, 0, 0) <= v < Ipv6(0x2001, 0x0200, 0, 0))
      && !(Ipv6(0x2001, 0x0db8, 0, 0) <= v < Ipv6(0x2001, 0x0db9, 0, 0))
      && !(Ipv6(0x2002, 0, 0, 0) <= v < Ipv6(0x2003, 0, 0, 0))
      && !(Ipv6(0x3fff, 0, 0, 0) <= v < Ipv6(0x3fff, 0x1000, 0, 0)))
  {
    hide InPrefix6, Scope4, InSome;
    if Mapped(v).Some? {
      Global4(Mapped(v).value);
    } else {
      Prefixes6(v);
    }
  }

  lemma Prefixes6(v: u128)
    ensures InPrefix6(v, Ipv6(0x2001, 0x0db8, 0, 0), 32) <==> Ipv6(0x2001, 0x0db8, 0, 0) <= v < Ipv6(0x2001, 0x0db9, 0, 0)
    ensures InPrefix6(v, Ipv6(0x3fff, 0, 0, 0), 20) <==> Ipv6(0x3fff, 0, 0, 0) <= v < Ipv6(0x3fff, 0x1000, 0, 0)
    ensures InPrefix6(v, Ipv6(0x2001, 0x0002, 0, 0), 48) <==> Ipv6(0x2001, 0x0002, 0, 0) <= v < Ipv6(0x2001, 0x0002, 1, 0)
    ensures InPrefix6(v, Ipv6(0x2001, 0, 0, 0), 23) <==> Ipv6(0x2001, 0, 0, 0) <= v < Ipv6(0x2001, 0x0200, 0, 0)
    ensures InPrefix6(v, Ipv6(0x0064, 0xff9b, 0, 0), 96) <==>
              Ipv6(0x0064, 0xff9b, 0, 0) <= v < Ipv6(0x0064, 0xff9b, 0, 0) + 0x1_0000_0000
    ensures InPrefix6(v, Ipv6(0x0064, 0xff9b, 0x0001, 0), 48) <==> Ipv6(0x0064, 0xff9b, 1, 0) <= v < Ipv6(0x0064, 0xff9b, 2, 0)
    ensures InPrefix6(v, Ipv6(0x0100, 0, 0, 0), 64) <==> Ipv6(0x0100, 0, 0, 0) <= v < Ipv6(0x0100, 0, 0, 1)
    ensures InPrefix6(v, Ipv6(0x0100, 0, 0, 1), 64) <==> Ipv6(0x0100, 0, 0, 1) <= v < Ipv6(0x0100, 0, 0, 2)
    ensures InPrefix6(v, Ipv6(0x2002, 0, 0, 0), 16) <==> Ipv6(0x2002, 0, 0, 0) <= v < Ipv6(0x2003, 0, 0, 0)
  {
    hide InPrefix6, Pow2;
    Widths32();
    Widths128();
    Prefix6Interval(v, Ipv6(0x2001, 0x0db8, 0, 0), 32, 0x1_0000_0000_0000_0000_0000_0000);
    Prefix6Interval(v, Ipv6(0x3fff, 0, 0, 0), 20, 0x1000_0000_0000_0000_0000_0000_0000);
    Prefix6Interval(v, Ipv6(0x2001, 0x0002, 0, 0), 48, 0x1_0000_0000_0000_0000_0000);
    Prefix6Interval(v, Ipv6(0x2001, 0, 0, 0), 23, 0x200_0000_0000_0000_0000_0000_0000);
    Prefix6Interval(v, Ipv6(0x0064, 0xff9b, 0, 0), 96, 0x1_0000_0000);
    Prefix6Interval(v, Ipv6(0x0064, 0xff9b, 0x0001, 0), 48, 0x1_0000_0000_0000_0000_0000);
    Prefix6Interval(v, Ipv6(0x0100, 0, 0, 0), 64, 0x1_0000_0000_0000_0000);
    Prefix6Interval(v, Ipv6(0x0100, 0, 0, 1), 64, 0x1_0000_0000_0000_0000);
    Prefix6Interval(v, Ipv6(0x2002, 0, 0, 0), 16, 0x1_0000_0000_0000_0000_0000_0000_0000);
  }
}
