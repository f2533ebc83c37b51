/** The network policy: rule validation and the three deny-overrides evaluators. */
module Policy {
  import opened Wrappers
  import opened Bytes
  import opened Text
  import opened Cidr

  const MAX_NETWORK_RULES := 64

  datatype NetworkProtocol = Tcp | Udp

  datatype DestinationSelector = Hostname(host: string) | Ip(ip: IpAddr) | Block(cidr: IpCidr)

  datatype PortSelector = Single(port: u16) | Range(first: u16, last: u16) {
    predicate Contains(p: u16) { if Single? then p == port else first <= p <= last }
  }

  datatype RuleAction = Allow | Deny

  datatype NetworkRule = NetworkRule(
    protocol: NetworkProtocol, destination: DestinationSelector, ports: PortSelector, action: RuleAction)

  datatype PolicyError = LimitExceeded | InvalidPolicy

  predicate HostChar(c: char) { IsLower(c) || IsDigit(c) }

  predicate ValidHostLabel(part: string) {
    && part != [] && |part| <= 63
    && HostChar(part[0]) && HostChar(part[|part| - 1])
    && forall i :: 0 <= i < |part| ==> HostChar(part[i]) || part[i] == '-'
  }

  predicate ValidHostname(host: string) {
    && host != [] && IsAscii(host) && |host| <= 253
    && forall i :: 0 <= i < |Split(host, '.')| ==> ValidHostLabel(Split(host, '.')[i])
  }

  predicate IsMapped(ip: IpAddr) { ip.V6? && Mapped(ip.v6).Some? }

  /** An IPv4-mapped address is judged as the IPv4 address it carries. */
  function Canonical(ip: IpAddr): IpAddr { if IsMapped(ip) then V4(Mapped(ip.v6).value) else ip }

  function RuleError(rule: NetworkRule): Option<PolicyError> {
    if rule.protocol != Tcp then Some(InvalidPolicy)
    else if rule.ports.Range? && (rule.ports.first == 0 || rule.ports.first > rule.ports.last) then Some(InvalidPolicy)
    else
      var destination := match rule.destination
        case Hostname(host) =>
          if |host| > 253 then Some(LimitExceeded)
          else if !ValidHostname(host) then Some(InvalidPolicy) else None
        case Block(cidr) =>
          if cidr.prefix > Width(cidr.network) || IsMapped(cidr.network) then Some(InvalidPolicy) else None
        case Ip(ip) => if IsMapped(ip) then Some(InvalidPolicy) else None;
      if destination.Some? then destination
      else if rule.ports == Single(0) then Some(InvalidPolicy)
      else None
  }

  predicate ValidPolicy(rules: seq<NetworkRule>) {
    |rules| <= MAX_NETWORK_RULES && forall i :: 0 <= i < |rules| ==> RuleError(rules[i]).None?
  }

  method Validate(rules: seq<NetworkRule>) returns (r: Result<(), PolicyError>)
    ensures r.Ok? <==> ValidPolicy(rules)
    ensures |rules| > MAX_NETWORK_RULES ==> r == Err(LimitExceeded)
    ensures r.Err? && |rules| <= MAX_NETWORK_RULES ==>
      exists i :: 0 <= i < |rules| && RuleError(rules[i]) == Some(r.error)
                  && forall j :: 0 <= j < i ==> RuleError(rules[j]).None?
  {
    hide RuleError;
    if |rules| > MAX_NETWORK_RULES { return Err(LimitExceeded); }
    for i := 0 to |rules|
      invariant forall j :: 0 <= j < i ==> RuleError(rules[j]).None?
    {
      var error := RuleError(rules[i]);
      if error.Some? { return Err(error.value); }
    }
    return Ok(());
  }

  // ----- evaluation -----

  function Filter(rules: seq<NetworkRule>, keep: NetworkRule -> bool): seq<NetworkRule> {
    if rules == [] then []
    else if keep(rules[0]) then [rules[0]] + Filter(rules[1..], keep)
    else Filter(rules[1..], keep)
  }

  /** Deny as soon as a deny rule appears; otherwise allow if there was any rule at all. */
  function Decide(rules: seq<NetworkRule>): RuleAction {
    if exists i :: 0 <= i < |rules| && rules[i].action == Deny then Deny
    else if rules == [] then Deny
    else Allow
  }

  method RunDecide(rules: seq<NetworkRule>) returns (d: RuleAction)
    ensures d == Decide(rules)
  {
    var allow := false;
    for i := 0 to |rules|
      invariant allow == (i > 0)
      invariant forall j :: 0 <= j < i ==> rules[j].action != Deny
    {
      if rules[i].action == Deny { return Deny; }
      allow := true;
    }
    return if allow then Allow else Deny;
  }

  predicate NamesHost(r: NetworkRule, protocol: NetworkProtocol, host: string, port: u16) {
    && r.protocol == protocol && r.ports.Contains(port)
    && r.destination.Hostname? && ValidHostname(r.destination.host) && r.destination.host == host
  }

  predicate NamesIp(r: NetworkRule, protocol: NetworkProtocol, ip: IpAddr, port: u16) {
    && r.protocol == protocol && r.ports.Contains(port)
    && match r.destination
       case Ip(value) => value == ip
       case Block(cidr) => cidr.Contains(ip)
       case Hostname(_) => false
  }

  predicate HasAction(rules: seq<NetworkRule>, action: RuleAction) {
    exists i :: 0 <= i < |rules| && rules[i].action == action
  }

  function EvaluateHostname(rules: seq<NetworkRule>, protocol: NetworkProtocol, host: string, port: u16): RuleAction {
    if !ValidPolicy(rules) || protocol != Tcp || port == 0 || !ValidHostname(host) then Deny
    else Decide(Filter(rules, r => NamesHost(r, protocol, host, port)))
  }

  function EvaluateRequestedIp(rules: seq<NetworkRule>, protocol: NetworkProtocol, ip: IpAddr, port: u16): RuleAction {
    if !ValidPolicy(rules) || protocol != Tcp || port == 0 then Deny
    else
      var target := Canonical(ip);
      var matching := Filter(rules, r => NamesIp(r, protocol, target, port));
      if Scope(target) != Global && !HasAction(matching, Allow) then Deny else Decide(matching)
  }

  function EvaluateResolved(rules: seq<NetworkRule>, protocol: NetworkProtocol, host: string, ip: IpAddr, port: u16): RuleAction {
    if EvaluateHostname(rules, protocol, host, port) == Deny then Deny
    else if !ValidPolicy(rules) || protocol != Tcp || port == 0 || !ValidHostname(host) then Deny
    else
      var target := Canonical(ip);
      var matching := Filter(rules, r => NamesIp(r, protocol, target, port));
      if HasAction(matching, Deny) then Deny
      else if Scope(target) == Global || HasAction(matching, Allow) then Allow
      else Deny
  }

  // ----- what the evaluators mean -----

  /** Some rule of the policy that names the target has this action. */
  ghost predicate SomeRule(rules: seq<NetworkRule>, named: NetworkRule -> bool, action: RuleAction) {
    exists r :: r in rules && named(r) && r.action == action
  }

  lemma {:induction false} FilterMembers(rules: seq<NetworkRule>, keep: NetworkRule -> bool, r: NetworkRule)
    ensures r in Filter(rules, keep) <==> r in rules && keep(r)
  {
    if rules != [] {
      FilterMembers(rules[1..], keep, r);
      assert rules == [rules[0]] + rules[1..];
    }
  }

  lemma FilterActions(rules: seq<NetworkRule>, named: NetworkRule -> bool, action: RuleAction)
    ensures HasAction(Filter(rules, named), action) <==> SomeRule(rules, named, action)
  {
    hide Filter;
    var kept := Filter(rules, named);
    forall r ensures r in kept <==> r in rules && named(r) { FilterMembers(rules, named, r); }
    if HasAction(kept, action) {
      var i :| 0 <= i < |kept| && kept[i].action == action;
      assert kept[i] in kept;
    }
    if SomeRule(rules, named, action) {
      var r :| r in rules && named(r) && r.action == action;
      assert r in kept;
      var i :| 0 <= i < |kept| && kept[i] == r;
    }
  }

  lemma DecideMeaning(rules: seq<NetworkRule>, named: NetworkRule -> bool)
    ensures Decide(Filter(rules, named)) == Allow <==> SomeRule(rules, named, Allow) && !SomeRule(rules, named, Deny)
  {
    hide Filter, SomeRule;
    var kept := Filter(rules, named);
    FilterActions(rules, named, Allow);
    FilterActions(rules, named, Deny);
    if kept != [] { assert kept[0].action == Allow || kept[0].action == Deny; }
  }

  /**
   A requested address is allowed exactly when the policy is valid, the request is TCP on
   a nonzero port, some rule naming the canonical address allows and none denies. The
   scope test in between decides nothing.
   */
  lemma RequestedIpMeaning(rules: seq<NetworkRule>, protocol: NetworkProtocol, ip: IpAddr, port: u16)
    ensures var named := r => NamesIp(r, protocol, Canonical(ip), port);
      EvaluateRequestedIp(rules, protocol, ip, port) == Allow <==>
        && ValidPolicy(rules) && protocol == Tcp && port != 0
        && SomeRule(rules, named, Allow) && !SomeRule(rules, named, Deny)
  {
    hide Filter, SomeRule, NamesIp, Scope, Decide, ValidPolicy;
    var named := r => NamesIp(r, protocol, Canonical(ip), port);
    DecideMeaning(rules, named);
    FilterActions(rules, named, Allow);
  }

  lemma HostnameMeaning(rules: seq<NetworkRule>, protocol: NetworkProtocol, host: string, port: u16)
    ensures var named := r => NamesHost(r, protocol, host, port);
      EvaluateHostname(rules, protocol, host, port) == Allow <==>
        && ValidPolicy(rules) && protocol == Tcp && port != 0 && ValidHostname(host)
        && SomeRule(rules, named, Allow) && !SomeRule(rules, named, Deny)
  {
    hide Filter, SomeRule, NamesHost, Decide, ValidPolicy, ValidHostname;
    DecideMeaning(rules, r => NamesHost(r, protocol, host, port));
  }

  /** A resolved address needs the name allowed, no rule against the address, and a global address or an allow rule for it. */
  lemma ResolvedMeaning(rules: seq<NetworkRule>, protocol: NetworkProtocol, host: string, ip: IpAddr, port: u16)
    ensures var named := r => NamesIp(r, protocol, Canonical(ip), port);
      EvaluateResolved(rules, protocol, host, ip, port) == Allow <==>
        && EvaluateHostname(rules, protocol, host, port) == Allow
        && !SomeRule(rules, named, Deny)
        && (Scope(Canonical(ip)) == Global || SomeRule(rules, named, Allow))
  {
    hide Filter, SomeRule, NamesIp, Scope, Decide, ValidPolicy, ValidHostname;
    var named := r => NamesIp(r, protocol, Canonical(ip), port);
    FilterActions(rules, named, Allow);
    FilterActions(rules, named, Deny);
  }

  /** The policy judges an IPv4-mapped IPv6 address exactly as the IPv4 address it maps. */
  lemma MappedJudgedAlike(rules: seq<NetworkRule>, protocol: NetworkProtocol, host: string, v: u128, port: u16)
    requires Mapped(v).Some?
    ensures EvaluateRequestedIp(rules, protocol, V6(v), port) == EvaluateRequestedIp(rules, protocol, V4(Mapped(v).value), port)
    ensures EvaluateResolved(rules, protocol, host, V6(v), port) == EvaluateResolved(rules, protocol, host, V4(Mapped(v).value), port)
  {
  }

  // ----- order and added rules -----

  ghost predicate SameRules(a: seq<NetworkRule>, b: seq<NetworkRule>) {
    |a| == |b| && forall r :: r in a <==> r in b
  }

  lemma SameActions(a: seq<NetworkRule>, b: seq<NetworkRule>, named: NetworkRule -> bool, action: RuleAction)
    requires SameRules(a, b)
    ensures SomeRule(a, named, action) == SomeRule(b, named, action)
  {
  }

  lemma SameValidity(a: seq<NetworkRule>, b: seq<NetworkRule>)
    requires SameRules(a, b)
    ensures ValidPolicy(a) == ValidPolicy(b)
  {
    hide RuleError;
    forall i | 0 <= i < |a| && ValidPolicy(b) ensures RuleError(a[i]).None? { assert a[i] in b; }
    forall i | 0 <= i < |b| && ValidPolicy(a) ensures RuleError(b[i]).None? { assert b[i] in a; }
  }

  lemma SameHostname(a: seq<NetworkRule>, b: seq<NetworkRule>, protocol: NetworkProtocol, host: string, port: u16)
    requires SameRules(a, b)
    ensures EvaluateHostname(a, protocol, host, port) == EvaluateHostname(b, protocol, host, port)
  {
    hide SameRules, SomeRule, NamesHost, ValidPolicy, EvaluateHostname, ValidHostname;
    var named := r => NamesHost(r, protocol, host, port);
    HostnameMeaning(a, protocol, host, port);
    HostnameMeaning(b, protocol, host, port);
    SameActions(a, b, named, Allow);
    SameActions(a, b, named, Deny);
    SameValidity(a, b);
  }

  /** Rule order is irrelevant: permuting the rules changes no decision of any evaluator. */
  lemma OrderIrrelevant(a: seq<NetworkRule>, b: seq<NetworkRule>, protocol: NetworkProtocol, host: string, ip: IpAddr, port: u16)
    requires multiset(a) == multiset(b)
    ensures EvaluateHostname(a, protocol, host, port) == EvaluateHostname(b, protocol, host, port)
    ensures EvaluateRequestedIp(a, protocol, ip, port) == EvaluateRequestedIp(b, protocol, ip, port)
    ensures EvaluateResolved(a, protocol, host, ip, port) == EvaluateResolved(b, protocol, host, ip, port)
  {
    hide SomeRule, NamesIp, ValidPolicy, EvaluateHostname, EvaluateRequestedIp, EvaluateResolved, Scope;
    Permuted(a, b);
    var named := r => NamesIp(r, protocol, Canonical(ip), port);
    SameHostname(a, b, protocol, host, port);
    SameActions(a, b, named, Allow);
    SameActions(a, b, named, Deny);
    SameValidity(a, b);
    RequestedIpMeaning(a, protocol, ip, port);
    RequestedIpMeaning(b, protocol, ip, port);
    ResolvedMeaning(a, protocol, host, ip, port);
    ResolvedMeaning(b, protocol, host, ip, port);
  }

  lemma Permuted(a: seq<NetworkRule>, b: seq<NetworkRule>)
    requires multiset(a) == multiset(b)
    ensures SameRules(a, b)
  {
    assert |a| == |multiset(a)| && |b| == |multiset(b)|;
    forall r ensures r in a <==> r in b {
      assert r in a <==> r in multiset(a);
      assert r in b <==> r in multiset(b);
    }
  }

  lemma AddedActions(rules: seq<NetworkRule>, r: NetworkRule, named: NetworkRule -> bool, action: RuleAction)
    ensures SomeRule(rules + [r], named, action) <==> SomeRule(rules, named, action) || (named(r) && r.action == action)
  {
    forall x ensures x in rules + [r] <==> x in rules || x == r {}
  }

  lemma FewerValid(rules: seq<NetworkRule>, r: NetworkRule)
    requires ValidPolicy(rules + [r])
    ensures ValidPolicy(rules)
  {
    hide RuleError;
    forall i | 0 <= i < |rules| ensures RuleError(rules[i]).None? { assert (rules + [r])[i] == rules[i]; }
  }

  /** Adding a deny rule, valid or not, never turns a denial into an approval in any evaluator. */
  lemma DenyOnlyRestricts(rules: seq<NetworkRule>, deny: NetworkRule, protocol: NetworkProtocol, host: string, ip: IpAddr, port: u16)
    requires deny.action == Deny
    ensures EvaluateHostname(rules + [deny], protocol, host, port) == Allow ==> EvaluateHostname(rules, protocol, host, port) == Allow
    ensures EvaluateRequestedIp(rules + [deny], protocol, ip, port) == Allow ==> EvaluateRequestedIp(rules, protocol, ip, port) == Allow
    ensures EvaluateResolved(rules + [deny], protocol, host, ip, port) == Allow ==> EvaluateResolved(rules, protocol, host, ip, port) == Allow
  {
    hide SomeRule, NamesIp, NamesHost, ValidPolicy, EvaluateHostname, EvaluateRequestedIp, EvaluateResolved, Scope, ValidHostname;
    var more := rules + [deny];
    var byHost := r => NamesHost(r, protocol, host, port);
    var byIp := r => NamesIp(r, protocol, Canonical(ip), port);
    if ValidPolicy(more) { FewerValid(rules, deny); }
    HostnameMeaning(rules, protocol, host, port);
    HostnameMeaning(more, protocol, host, port);
    RequestedIpMeaning(rules, protocol, ip, port);
    RequestedIpMeaning(more, protocol, ip, port);
    ResolvedMeaning(rules, protocol, host, ip, port);
    ResolvedMeaning(more, protocol, host, ip, port);
    AddedActions(rules, deny, byHost, Allow);
    AddedActions(rules, deny, byHost, Deny);
    AddedActions(rules, deny, byIp, Allow);
    AddedActions(rules, deny, byIp, Deny);
  }
}
