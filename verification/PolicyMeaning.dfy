/** What the policy's rules cover, as sets of ports, names and addresses. */
module PolicyMeaning {
  import opened Wrappers
  import opened Bytes
  import opened Text
  import opened Cidr
  import opened Policy

  // ----- ports -----

  ghost predicate Between(first: u16, port: u16, last: u16) { first <= port <= last }

  ghost function Ports(p: PortSelector): iset<u16> {
    match p
    case Single(port) => iset{port}
    case Range(first, last) => iset x: u16 | Between(first, x, last)
  }

  lemma PortsExact(p: PortSelector, port: u16)
    ensures p.Contains(port) <==> port in Ports(p)
  {
  }

  // ----- hosts -----

  /** A name of dot-separated labels: lower-case letters, digits and inner hyphens, at most 63 each and 253 in all. */
  ghost predicate HostText(host: string) {
    && |host| <= 253
    && exists labels: seq<string> :: labels != [] && host == Join(labels, '.') && forall l :: l in labels ==> LabelText(l)
  }

  ghost predicate LabelText(l: string) {
    && 1 <= |l| <= 63
    && l[0] != '-' && l[|l| - 1] != '-'
    && forall c :: c in l ==> 'a' <= c <= 'z' || '0' <= c <= '9' || c == '-'
  }

  lemma LabelExact(l: string)
    ensures ValidHostLabel(l) <==> LabelText(l)
  {
    if ValidHostLabel(l) {
      forall c | c in l ensures 'a' <= c <= 'z' || '0' <= c <= '9' || c == '-' {
        var i :| 0 <= i < |l| && l[i] == c;
      }
    }
    if LabelText(l) {
      forall i | 0 <= i < |l| ensures HostChar(l[i]) || l[i] == '-' { assert l[i] in l; }
    }
  }

  lemma HostExact(host: string)
    ensures ValidHostname(host) <==> HostText(host)
  {
    hide Split, Join, ValidHostLabel, LabelText;
    if ValidHostname(host) {
      var labels := Split(host, '.');
      JoinSplit(host, '.');
      forall l | l in labels ensures LabelText(l) {
        var i :| 0 <= i < |labels| && labels[i] == l;
        LabelExact(l);
      }
    }
    if HostText(host) {
      var labels :| labels != [] && host == Join(labels, '.') && forall l :: l in labels ==> LabelText(l);
      forall i | 0 <= i < |labels| ensures '.' !in labels[i] && ValidHostLabel(labels[i]) {
        assert labels[i] in labels;
        LabelExact(labels[i]);
        NoDot(labels[i]);
      }
      SplitJoin(labels, '.');
      JoinedAscii(labels);
    }
  }

  lemma NoDot(l: string)
    requires LabelText(l)
    ensures '.' !in l
  {
  }

  lemma {:induction false} JoinedAscii(labels: seq<string>)
    requires labels != [] && forall l :: l in labels ==> LabelText(l)
    ensures Join(labels, '.') != [] && IsAscii(Join(labels, '.'))
  {
    assert labels[0] in labels;
    assert forall i :: 0 <= i < |labels[0]| ==> labels[0][i] in labels[0];
    if |labels| > 1 {
      forall l | l in labels[1..] ensures l in labels { }
      JoinedAscii(labels[1..]);
    }
  }

  // ----- rules -----

  /** The address selector of a rule covers `ip`: the same address, or the same network number in the block's family. */
  ghost predicate CoversIp(d: DestinationSelector, ip: IpAddr) {
    match d
    case Hostname(_) => false
    case Ip(value) => value == ip
    case Block(cidr) =>
      && SameFamily(cidr.network, ip) && cidr.prefix <= Width(ip)
      && Number(ip) / Pow2(Width(ip) - cidr.prefix) == Number(cidr.network) / Pow2(Width(ip) - cidr.prefix)
  }

  lemma NamesIpExact(r: NetworkRule, protocol: NetworkProtocol, ip: IpAddr, port: u16)
    ensures NamesIp(r, protocol, ip, port) <==>
      r.protocol == protocol && port in Ports(r.ports) && CoversIp(r.destination, ip)
  {
    hide Pow2, Ports;
    PortsExact(r.ports, port);
    if r.destination.Block? { ContainsMeaning(r.destination.cidr, ip); }
  }

  lemma NamesHostExact(r: NetworkRule, protocol: NetworkProtocol, host: string, port: u16)
    requires HostText(host)
    ensures NamesHost(r, protocol, host, port) <==>
      r.protocol == protocol && port in Ports(r.ports) && r.destination == DestinationSelector.Hostname(host)
  {
    hide ValidHostname, HostText, Ports;
    PortsExact(r.ports, port);
    HostExact(host);
  }

  /** A rule is valid: TCP, some port and never port zero, and a well-formed destination that is no IPv4-mapped address. */
  ghost predicate GoodRule(r: NetworkRule) {
    && r.protocol == Tcp && Ports(r.ports) != iset{} && 0 !in Ports(r.ports)
    && match r.destination
       case Hostname(host) => HostText(host)
       case Ip(ip) => !MappedForm(ip)
       case Block(cidr) => cidr.prefix <= Width(cidr.network) && !MappedForm(cidr.network)
  }

  /** `::ffff:0:0/96`. */
  ghost predicate MappedForm(ip: IpAddr) { ip.V6? && 0xffff_0000_0000 <= ip.v6 <= 0xffff_ffff_ffff }

  lemma MappedExact(v: u128, a: u32)
    ensures Mapped(v) == Some(a) <==> v == 0xffff_0000_0000 + a
    ensures Mapped(v).Some? <==> 0xffff_0000_0000 <= v <= 0xffff_ffff_ffff
  {
  }

  lemma IsMappedExact(ip: IpAddr)
    ensures IsMapped(ip) <==> MappedForm(ip)
    ensures Canonical(ip) == if MappedForm(ip) then V4(ip.v6 - 0xffff_0000_0000) else ip
  {
    if ip.V6? && MappedForm(ip) { MappedExact(ip.v6, ip.v6 - 0xffff_0000_0000); }
    if ip.V6? { MappedExact(ip.v6, 0); }
  }

  lemma PortsGood(p: PortSelector)
    ensures Ports(p) != iset{} && 0 !in Ports(p) <==>
      match p case Single(port) => port != 0 case Range(first, last) => 1 <= first <= last
  {
    match p
    case Single(port) => assert port in Ports(p);
    case Range(first, last) =>
      if first <= last { assert first in Ports(p); }
      if first == 0 && Ports(p) != iset{} {
        var x :| x in Ports(p);
        assert 0 in Ports(p);
      }
      if first > last { assert forall x :: x !in Ports(p); }
  }

  /** A rule is refused exactly when it is not good; only an overlong host name is a limit error. */
  lemma RuleExact(r: NetworkRule)
    ensures RuleError(r).None? <==> GoodRule(r)
    ensures RuleError(r) == Some(LimitExceeded) <==>
      && r.protocol == Tcp && (r.ports.Range? ==> Ports(r.ports) != iset{} && 0 !in Ports(r.ports))
      && r.destination.Hostname? && |r.destination.host| > 253
  {
    hide ValidHostname, HostText, Ports, IsMapped, MappedForm;
    PortsGood(r.ports);
    match r.destination
    case Hostname(host) =>
      HostExact(host);
      if |host| > 253 { LongHost(host); }
    case Ip(ip) => IsMappedExact(ip);
    case Block(cidr) => IsMappedExact(cidr.network);
  }

  lemma LongHost(host: string)
    requires |host| > 253
    ensures !HostText(host)
  {
  }

  // ----- decisions -----

  ghost predicate GoodPolicy(rules: seq<NetworkRule>) { |rules| <= 64 && forall r :: r in rules ==> GoodRule(r) }

  lemma PolicyExact(rules: seq<NetworkRule>)
    ensures ValidPolicy(rules) <==> GoodPolicy(rules)
  {
    hide RuleError, GoodRule;
    forall r ensures RuleError(r).None? <==> GoodRule(r) { RuleExact(r); }
    if ValidPolicy(rules) {
      forall r | r in rules ensures GoodRule(r) {
        var i :| 0 <= i < |rules| && rules[i] == r;
        assert RuleError(rules[i]).None?;
      }
    }
    if GoodPolicy(rules) {
      forall i | 0 <= i < |rules| ensures RuleError(rules[i]).None? { assert rules[i] in rules; }
    }
  }

  ghost predicate SomeCovers(rules: seq<NetworkRule>, ip: IpAddr, port: u16, action: RuleAction) {
    exists r :: r in rules && r.action == action && r.protocol == Tcp && port in Ports(r.ports) && CoversIp(r.destination, ip)
  }

  ghost predicate SomeHost(rules: seq<NetworkRule>, host: string, port: u16, action: RuleAction) {
    exists r :: r in rules && r.action == action && r.protocol == Tcp && port in Ports(r.ports)
                && r.destination == DestinationSelector.Hostname(host)
  }

  lemma SomeCoversExact(rules: seq<NetworkRule>, ip: IpAddr, port: u16, action: RuleAction)
    ensures SomeRule(rules, r => NamesIp(r, Tcp, ip, port), action) <==> SomeCovers(rules, ip, port, action)
  {
    hide NamesIp, CoversIp, Ports;
    forall r ensures NamesIp(r, Tcp, ip, port) <==> r.protocol == Tcp && port in Ports(r.ports) && CoversIp(r.destination, ip) {
      NamesIpExact(r, Tcp, ip, port);
    }
  }

  lemma SomeHostExact(rules: seq<NetworkRule>, host: string, port: u16, action: RuleAction)
    requires HostText(host)
    ensures SomeRule(rules, r => NamesHost(r, Tcp, host, port), action) <==> SomeHost(rules, host, port, action)
  {
    hide NamesHost, Ports, HostText;
    forall r ensures NamesHost(r, Tcp, host, port) <==>
      r.protocol == Tcp && port in Ports(r.ports) && r.destination == DestinationSelector.Hostname(host) { NamesHostExact(r, Tcp, host, port); }
  }

  /** A requested address is allowed exactly when a good policy has an allow rule that covers it and no deny rule that does. */
  lemma RequestedExact(rules: seq<NetworkRule>, protocol: NetworkProtocol, ip: IpAddr, port: u16)
    ensures EvaluateRequestedIp(rules, protocol, ip, port) == Allow <==>
      && GoodPolicy(rules) && protocol == Tcp && port != 0
      && SomeCovers(rules, Canonical(ip), port, Allow) && !SomeCovers(rules, Canonical(ip), port, Deny)
  {
    hide EvaluateRequestedIp, ValidPolicy, GoodPolicy, SomeRule, SomeCovers, Canonical;
    RequestedIpMeaning(rules, protocol, ip, port);
    PolicyExact(rules);
    SomeCoversExact(rules, Canonical(ip), port, Allow);
    SomeCoversExact(rules, Canonical(ip), port, Deny);
  }

  /** A host name likewise, by the rules that give exactly that name. */
  lemma HostnameExact(rules: seq<NetworkRule>, protocol: NetworkProtocol, host: string, port: u16)
    ensures EvaluateHostname(rules, protocol, host, port) == Allow <==>
      && GoodPolicy(rules) && protocol == Tcp && port != 0 && HostText(host)
      && SomeHost(rules, host, port, Allow) && !SomeHost(rules, host, port, Deny)
  {
    hide EvaluateHostname, ValidPolicy, GoodPolicy, SomeRule, SomeHost, ValidHostname, HostText;
    HostnameMeaning(rules, protocol, host, port);
    PolicyExact(rules);
    HostExact(host);
    if HostText(host) {
      SomeHostExact(rules, host, port, Allow);
      SomeHostExact(rules, host, port, Deny);
    }
  }

  /** A resolved address is allowed exactly when its name is, no deny rule covers it, and it is global or covered by an allow rule. */
  lemma ResolvedExact(rules: seq<NetworkRule>, protocol: NetworkProtocol, host: string, ip: IpAddr, port: u16)
    ensures EvaluateResolved(rules, protocol, host, ip, port) == Allow <==>
      && EvaluateHostname(rules, protocol, host, port) == Allow
      && !SomeCovers(rules, Canonical(ip), port, Deny)
      && (Scope(Canonical(ip)) == Global || SomeCovers(rules, Canonical(ip), port, Allow))
  {
    hide EvaluateResolved, EvaluateHostname, SomeRule, SomeCovers, Canonical, Scope;
    ResolvedMeaning(rules, protocol, host, ip, port);
    HostnameExact(rules, protocol, host, port);
    SomeCoversExact(rules, Canonical(ip), port, Allow);
    SomeCoversExact(rules, Canonical(ip), port, Deny);
  }

  // ----- the other scopes -----

  /** Every class of IPv4 address as intervals. */
  lemma Scopes4(v: u32)
    ensures Scope4(v) == Unspecified <==> v == 0
    ensures Scope4(v) == Loopback <==> 0x7f00_0000 <= v <= 0x7fff_ffff
    ensures Scope4(v) == Broadcast <==> v == 0xffff_ffff
    ensures Scope4(v) == Multicast <==> 0xe000_0000 <= v <= 0xefff_ffff
    ensures Scope4(v) == LinkLocal <==> 0xa9fe_0000 <= v <= 0xa9fe_ffff
    ensures Scope4(v) == Private <==>
      || 0x0a00_0000 <= v <= 0x0aff_ffff || 0x6440_0000 <= v <= 0x647f_ffff
      || 0xac10_0000 <= v <= 0xac1f_ffff || 0xc0a8_0000 <= v <= 0xc0a8_ffff
    ensures Scope4(v) == Documentation <==>
      0xc000_0200 <= v <= 0xc000_02ff || 0xc633_6400 <= v <= 0xc633_64ff || 0xcb00_7100 <= v <= 0xcb00_71ff
    ensures Scope4(v) == Benchmark <==> 0xc612_0000 <= v <= 0xc613_ffff
    ensures Scope4(v) == Reserved <==> 0xf000_0000 <= v < 0xffff_ffff
  {
    hide InPrefix4;
    Prefixes4(v);
  }

  /** Every class of unmapped IPv6 address as intervals. */
  lemma Scopes6(v: u128)
    requires !MappedForm(V6(v))
    ensures Scope6(v) == Unspecified <==> v == 0
    ensures Scope6(v) == Loopback <==> v == 1
    ensures Scope6(v) == Multicast <==> Ipv6(0xff00, 0, 0, 0) <= v
    ensures Scope6(v) == LinkLocal <==> Ipv6(0xfe80, 0, 0, 0) <= v < Ipv6(0xfec0, 0, 0, 0)
    ensures Scope6(v) == Private <==> Ipv6(0xfc00, 0, 0, 0) <= v < Ipv6(0xfe00, 0, 0, 0)
    ensures Scope6(v) == Documentation <==>
      || Ipv6(0x2001, 0x0db8, 0, 0) <= v < Ipv6(0x2001, 0x0db9, 0, 0)
      || Ipv6(0x3fff, 0, 0, 0) <= v < Ipv6(0x3fff, 0x1000, 0, 0)
    ensures Scope6(v) == Benchmark <==> Benchmarked(v)
    ensures Scope6(v) == SpecialPurpose <==> Special(v) && !Benchmarked(v)
    ensures Scope6(v) in {Unspecified, Loopback, Multicast, LinkLocal, Private, Documentation, Benchmark, SpecialPurpose, Reserved, Global}
  {
    hide InPrefix6;
    MappedExact(v, 0);
    Prefixes6(v);
  }

  ghost predicate Benchmarked(v: u128) { Ipv6(0x2001, 0x0002, 0, 0) <= v < Ipv6(0x2001, 0x0002, 1, 0) }

  /** Protocol assignments, the two translation prefixes, the discard and dummy prefixes, and 6to4. */
  ghost predicate Special(v: u128) {
    || Ipv6(0x2001, 0, 0, 0) <= v < Ipv6(0x2001, 0x0200, 0, 0)
    || Ipv6(0x0064, 0xff9b, 0, 0) <= v < Ipv6(0x0064, 0xff9b, 0, 0) + 0x1_0000_0000
    || Ipv6(0x0064, 0xff9b, 1, 0) <= v < Ipv6(0x0064, 0xff9b, 2, 0)
    || Ipv6(0x0100, 0, 0, 0) <= v < Ipv6(0x0100, 0, 0, 2)
    || Ipv6(0x2002, 0, 0, 0) <= v < Ipv6(0x2003, 0, 0, 0)
  }
}
