/** Matching one policy rule against one request, through the request's memoised view
    (app-policy/checker/match.go:87-335, 494-766 and app-policy/checker/requestcache.go:63-279). */
module RuleMatch {
  import opened HttpPath

  type Labels = map<string, string>

  /** One end of the flow. text is the printed address. */
  datatype End = End(v6: bool, bits: seq<bool>, text: string, port: int, principal: Option<string>, labels: Labels)

  datatype Flow = Flow(src: End, dst: End, protocol: int, httpMethod: Option<string>, path: Option<string>)

  datatype Net = BadCidr | Cidr(v6: bool, prefix: seq<bool>)

  datatype Range = Range(first: int, last: int)

  datatype Protocol = Name(name: string) | Number(number: int)

  datatype Accounts = Accounts(names: seq<string>, selector: string)

  datatype Http = Http(methods: seq<string>, paths: seq<PathMatch>)

  /** The criteria a rule puts on one end. */
  datatype Criteria = Criteria(
    ports: seq<Range>, notPorts: seq<Range>, named: seq<string>, notNamed: seq<string>,
    nets: seq<Net>, notNets: seq<Net>, ipSets: seq<string>, notIpSets: seq<string>,
    nsSelector: string, selector: string, notSelector: string, accounts: Option<Accounts>)

  datatype Rule = Rule(action: string, protocol: Option<Protocol>, notProtocol: Option<Protocol>,
                       src: Criteria, dst: Criteria, dstIpPortSets: seq<string>, http: Option<Http>)

  /** What rules refer to. An IP set is its membership test, and selects is the label selector
      library: false also for a selector that does not parse. */
  datatype References = References(
    ipSets: map<string, string -> bool>,
    serviceAccounts: map<(string, string), Labels>,
    namespaces: map<string, Labels>,
    selects: (string, Labels) -> bool)

  datatype Peer = Peer(name: string, namespace: string, labels: Labels)

  datatype Namespace = Namespace(name: string, labels: Labels)

  datatype Identity = Identity(peer: Option<Peer>, namespace: Option<Namespace>)

  // ---------- Direct reads ----------

  function Lower(s: string): string {
    seq(|s|, i requires 0 <= i < |s| =>
      if 'A' <= s[i] <= 'Z' then (s[i] as int + 32) as char
      else if s[i] == '\U{130}' then 'i'
      else if s[i] == '\U{212A}' then 'k'
      else s[i])
  }

  function Decimal(n: int): string
    decreases if n < 0 then 1 - n else n
  {
    if n < 0 then "-" + Decimal(-n)
    else if n < 10 then [('0' as int + n) as char]
    else Decimal(n / 10) + [('0' as int + n % 10) as char]
  }

  function ProtocolText(protocol: int): string {
    match protocol case 1 => "icmp" case 6 => "tcp" case 17 => "udp" case 132 => "sctp" case _ => ""
  }

  /** The member of an IP and port set that one end would be. */
  function PortKey(e: End, protocol: int): string {
    e.text + "," + ProtocolText(protocol) + ":" + Decimal(e.port)
  }

  /** parseSpiffeID, on the pieces of spiffe://domain/ns/namespace/sa/name. */
  function ParseSpiffe(id: string): Option<(string, string)> {
    var s := Split(id);
    if id == "" then Some(("", ""))
    else if |s| == 7 && s[0] == "spiffe:" && s[1] == "" && s[2] != "" && s[3] == "ns" && s[4] != "" &&
            s[5] == "sa" && s[6] != "" then Some((s[6], s[4]))
    else None
  }

  function PeerOf(principal: string, labels: Labels, refs: References): Option<Peer> {
    match ParseSpiffe(principal)
    case None => None
    case Some((name, ns)) =>
      Some(Peer(name, ns, if (name, ns) in refs.serviceAccounts then labels + refs.serviceAccounts[(name,
          ns)] else labels))
  }

  function NamespaceOf(name: string, refs: References): Namespace {
    Namespace(name, if name in refs.namespaces then refs.namespaces[name] else map[])
  }

  function IdentityOf(e: End, refs: References): Identity {
    if e.principal.None? then Identity(None, None)
    else
      match PeerOf(e.principal.value, e.labels, refs)
      case None => Identity(None, None)
      case Some(p) => Identity(Some(p), Some(NamespaceOf(p.namespace, refs)))
  }

  // ---------- What each criterion means ----------

  function Int32(x: int): int { (x + 0x8000_0000) % 0x1_0000_0000 - 0x8000_0000 }

  predicate Within(r: Range, port: int) { r.first <= Int32(port) <= r.last }

  predicate Holds(refs: References, id: string, value: string) {
    id in refs.ipSets && refs.ipSets[id](value)
  }

  predicate Excludes(refs: References, id: string, value: string) {
    id in refs.ipSets && !refs.ipSets[id](value)
  }

  ghost predicate NoneExclude(ids: seq<string>, refs: References, value: string) {
    forall i :: 0 <= i < |ids| ==> !Excludes(refs, ids[i], value)
  }

  ghost predicate NoneHold(ids: seq<string>, refs: References, value: string) {
    forall i :: 0 <= i < |ids| ==> !Holds(refs, ids[i], value)
  }

  ghost predicate PortListed(ranges: seq<Range>, named: seq<string>, refs: References, port: int, key: string) {
    || (exists r :: r in ranges && Within(r, port))
    || !NoneHold(named, refs, key)
  }

  ghost predicate PortOk(c: Criteria, e: End, protocol: int, refs: References) {
    var key := PortKey(e, protocol);
    && ((c.ports == [] && c.named == []) || PortListed(c.ports, c.named, refs, e.port, key))
    && !PortListed(c.notPorts, c.notNamed, refs, e.port, key)
  }

  predicate InNet(n: Net, e: End) { n.Cidr? && n.v6 == e.v6 && n.prefix <= e.bits }

  /** A malformed CIDR ends the search for a match, and fails an exclusion. */
  ghost predicate NetOk(c: Criteria, e: End) {
    && (c.nets == [] || exists i :: 0 <= i < |c.nets| && InNet(c.nets[i], e) && BadCidr !in c.nets[..i])
    && (forall n :: n in c.notNets ==> n.Cidr? && !InNet(n, e))
  }

  /** An IP set that is missing neither admits nor excludes. */
  ghost predicate SetsOk(all: seq<string>, notAny: seq<string>, refs: References, value: string) {
    NoneExclude(all, refs, value) && NoneHold(notAny, refs, value)
  }

  const PROTOCOL_NUMBERS: map<string, int> :=
    map["icmp" := 1, "icmpv6" := 58, "tcp" := 6, "udp" := 17, "udplite" := 136, "sctp" := 132]

  predicate IsProtocol(p: Protocol, number: int) {
    match p
    case Name(name) => Lower(name) in PROTOCOL_NUMBERS && PROTOCOL_NUMBERS[Lower(name)] == number
    case Number(n) => n == number
  }

  /** matchL4Protocol; an empty name would stand for number 0, which no valid flow has. */
  predicate ProtocolOk(r: Rule, number: int) {
    && 1 <= number <= 255
    && (r.protocol.Some? ==> IsProtocol(r.protocol.value, number))
    && (r.notProtocol.Some? ==> !IsProtocol(r.notProtocol.value, number))
  }

  predicate NameOk(names: seq<string>, name: string) { names == [] || name in names }

  /** computeNamespaceMatch: the names and the selector the peer's namespace must meet. */
  function NamespaceMatch(policyNs: string, c: Criteria): (seq<string>, string) {
    if c.nsSelector != "" then ([], c.nsSelector)
    else if policyNs != "" && (c.selector != "" || c.notSelector != "" ||
                               (c.accounts.Some? && (c.accounts.value.names != [] || c.accounts.value.selector != "")))
    then ([policyNs], "")
    else ([], "")
  }

  /** matchServiceAccounts and matchNamespace: an unknown identity meets every criterion. */
  predicate IdentityOk(policyNs: string, c: Criteria, id: Identity, refs: References) {
    var (names, selector) := NamespaceMatch(policyNs, c);
    && (id.peer.None? || c.accounts.None? || id.peer.value.name == "" ||
        (NameOk(c.accounts.value.names, id.peer.value.name) &&
         refs.selects(c.accounts.value.selector, id.peer.value.labels)))
    && (id.namespace.None? || id.namespace.value.name == "" ||
        (NameOk(names, id.namespace.value.name) && refs.selects(selector, id.namespace.value.labels)))
  }

  predicate MethodOk(methods: seq<string>, m: Option<string>) {
    m.None? || methods == [] || "*" in methods || m.value in methods
  }

  ghost predicate TransportOk(r: Rule, flow: Flow, refs: References) {
    ProtocolOk(r, flow.protocol) &&
    PortOk(r.src, flow.src, flow.protocol, refs) && PortOk(r.dst, flow.dst, flow.protocol, refs)
  }

  ghost predicate AddressesOk(r: Rule, flow: Flow) {
    NetOk(r.src, flow.src) && NetOk(r.dst, flow.dst)
  }

  ghost predicate AllSetsOk(r: Rule, flow: Flow, refs: References) {
    && SetsOk(r.src.ipSets, r.src.notIpSets, refs, flow.src.text)
    && SetsOk(r.dst.ipSets, r.dst.notIpSets, refs, flow.dst.text)
    && SetsOk(r.dstIpPortSets, [], refs, PortKey(flow.dst, flow.protocol))
  }

  ghost predicate NetworkOk(r: Rule, flow: Flow, refs: References) {
    TransportOk(r, flow, refs) && AddressesOk(r, flow) && AllSetsOk(r, flow, refs)
  }

  /** Whether a rule applies, every value read directly: all criteria at once, and the HTTP path
      looked at only if all the others hold. */
  ghost function Applies(policyNs: string, r: Rule, flow: Flow, refs: References): PathOutcome {
    if NetworkOk(r, flow, refs) &&
       IdentityOk(policyNs, r.src, IdentityOf(flow.src, refs), refs) &&
       IdentityOk(policyNs, r.dst, IdentityOf(flow.dst, refs), refs) &&
       (r.http.Some? ==> MethodOk(r.http.value.methods, flow.httpMethod))
    then if r.http.None? then Matched(true) else PathsOutcome(r.http.value.paths, flow.path)
    else Matched(false)
  }

  // ---------- The early-return loops ----------

  method MatchNet(nets: seq<Net>, e: End) returns (r: bool)
    ensures r <==> nets == [] || exists i :: 0 <= i < |nets| && InNet(nets[i], e) && BadCidr !in nets[..i]
  {
    if nets == [] { return true; }
    for i := 0 to |nets|
      invariant forall k :: 0 <= k < i ==> nets[k].Cidr? && !InNet(nets[k], e)
    {
      if nets[i].BadCidr? {
        assert forall k :: i < k < |nets| ==> nets[..k][i] == BadCidr;
        return false;
      }
      if InNet(nets[i], e) { return true; }
    }
    return false;
  }

  method MatchNotNet(nets: seq<Net>, e: End) returns (r: bool)
    ensures r <==> forall n :: n in nets ==> n.Cidr? && !InNet(n, e)
  {
    for i := 0 to |nets|
      invariant forall k :: 0 <= k < i ==> nets[k].Cidr? && !InNet(nets[k], e)
    {
      assert nets[i] in nets;
      if nets[i].BadCidr? || InNet(nets[i], e) { return false; }
    }
    return true;
  }

  method MatchIpSetsAll(ids: seq<string>, refs: References, value: string) returns (r: bool)
    ensures r <==> NoneExclude(ids, refs, value)
  {
    for i := 0 to |ids|
      invariant forall k :: 0 <= k < i ==> !Excludes(refs, ids[k], value)
    {
      if Excludes(refs, ids[i], value) { return false; }
    }
    return true;
  }

  method MatchIpSetsNotAny(ids: seq<string>, refs: References, value: string) returns (r: bool)
    ensures r <==> NoneHold(ids, refs, value)
  {
    for i := 0 to |ids|
      invariant forall k :: 0 <= k < i ==> !Holds(refs, ids[k], value)
    {
      if Holds(refs, ids[i], value) { return false; }
    }
    return true;
  }

  method MatchSets(all: seq<string>, notAny: seq<string>, refs: References, value: string) returns (r: bool)
    ensures r <==> SetsOk(all, notAny, refs, value)
  {
    r := MatchIpSetsAll(all, refs, value);
    if r { r := MatchIpSetsNotAny(notAny, refs, value); }
  }

  method MatchAddress(c: Criteria, e: End) returns (r: bool)
    ensures r <==> NetOk(c, e)
  {
    r := MatchNet(c.nets, e);
    if r { r := MatchNotNet(c.notNets, e); }
  }

  method MatchAddresses(rule: Rule, flow: Flow) returns (r: bool)
    ensures r <==> AddressesOk(rule, flow)
  {
    r := MatchAddress(rule.src, flow.src);
    if r { r := MatchAddress(rule.dst, flow.dst); }
  }

  method InSomeRange(ranges: seq<Range>, port: int) returns (r: bool)
    ensures r <==> exists x :: x in ranges && Within(x, port)
  {
    for i := 0 to |ranges|
      invariant forall k :: 0 <= k < i ==> !Within(ranges[k], port)
    {
      if Within(ranges[i], port) { return true; }
    }
    return false;
  }

  // ---------- The memoised view of a request ----------

  class RequestCache {
    const flow: Flow
    const refs: References
    var srcText: string
    var dstText: string
    var srcKey: string
    var dstKey: string
    var srcIdentity: Option<Identity>
    var dstIdentity: Option<Identity>
    var protocol: Option<int>

    /** Whatever has been memoised is what a direct read would give. */
    ghost predicate Valid()
      reads this
    {
      && (srcText == "" || srcText == flow.src.text)
      && (dstText == "" || dstText == flow.dst.text)
      && (srcKey == "" || srcKey == PortKey(flow.src, flow.protocol))
      && (dstKey == "" || dstKey == PortKey(flow.dst, flow.protocol))
      && (srcIdentity.None? || srcIdentity.value == IdentityOf(flow.src, refs))
      && (dstIdentity.None? || dstIdentity.value == IdentityOf(flow.dst, refs))
      && (protocol.None? || protocol.value == flow.protocol)
    }

    constructor (flow: Flow, refs: References)
      ensures Valid() && this.flow == flow && this.refs == refs
    {
      this.flow, this.refs := flow, refs;
      srcText, dstText, srcKey, dstKey := "", "", "", "";
      srcIdentity, dstIdentity, protocol := None, None, None;
    }

    method GetProtocol() returns (r: int)
      requires Valid()
      modifies this
      ensures Valid() && r == flow.protocol
    {
      if protocol.None? { protocol := Some(flow.protocol); }
      r := protocol.value;
    }

    method GetText(dst: bool) returns (r: string)
      requires Valid()
      modifies this
      ensures Valid() && r == (if dst then flow.dst else flow.src).text
    {
      if dst {
        if dstText == "" { dstText := flow.dst.text; }
        r := dstText;
      } else {
        if srcText == "" { srcText := flow.src.text; }
        r := srcText;
      }
    }

    method GetKey(dst: bool) returns (r: string)
      requires Valid()
      modifies this
      ensures Valid() && r == PortKey(if dst then flow.dst else flow.src, flow.protocol)
    {
      if dst {
        if dstKey == "" {
          var text := GetText(true);
          var p := GetProtocol();
          dstKey := PortKey(flow.dst.(text := text), p);
        }
        r := dstKey;
      } else {
        if srcKey == "" {
          var text := GetText(false);
          var p := GetProtocol();
          srcKey := PortKey(flow.src.(text := text), p);
        }
        r := srcKey;
      }
    }

    method GetIdentity(dst: bool) returns (r: Identity)
      requires Valid()
      modifies this
      ensures Valid() && r == IdentityOf(if dst then flow.dst else flow.src, refs)
    {
      if dst {
        if dstIdentity.None? { dstIdentity := Some(IdentityOf(flow.dst, refs)); }
        r := dstIdentity.value;
      } else {
        if srcIdentity.None? { srcIdentity := Some(IdentityOf(flow.src, refs)); }
        r := srcIdentity.value;
      }
    }

    /** The listing that matchPort and matchNotPort share: ranges first, and the key is built
        only if named ports have to be looked at. */
    method Listed(ranges: seq<Range>, named: seq<string>, dst: bool) returns (r: bool)
      requires Valid()
      modifies this
      ensures Valid()
      ensures var e := if dst then flow.dst else flow.src;
              r <==> PortListed(ranges, named, refs, e.port, PortKey(e, flow.protocol))
    {
      r := InSomeRange(ranges, (if dst then flow.dst else flow.src).port);
      if r || named == [] { return; }
      var key := GetKey(dst);
      var none := MatchIpSetsNotAny(named, refs, key);
      r := !none;
    }

    method MatchPort(c: Criteria, dst: bool) returns (r: bool)
      requires Valid()
      modifies this
      ensures Valid() && (r <==> PortOk(c, if dst then flow.dst else flow.src, flow.protocol, refs))
    {
      r := c.ports == [] && c.named == [];
      if !r { r := Listed(c.ports, c.named, dst); }
      if r {
        var excluded := Listed(c.notPorts, c.notNamed, dst);
        r := !excluded;
      }
    }

    method MatchIpSets(c: Criteria, dst: bool) returns (r: bool)
      requires Valid()
      modifies this
      ensures Valid()
      ensures r <==> SetsOk(c.ipSets, c.notIpSets, refs, (if dst then flow.dst else flow.src).text)
    {
      if c.ipSets == [] && c.notIpSets == [] { return true; }
      var text := GetText(dst);
      r := MatchSets(c.ipSets, c.notIpSets, refs, text);
    }

    method MatchDstIpPortSets(ids: seq<string>) returns (r: bool)
      requires Valid()
      modifies this
      ensures Valid() && (r <==> SetsOk(ids, [], refs, PortKey(flow.dst, flow.protocol)))
    {
      if ids == [] { return true; }
      var key := GetKey(true);
      r := MatchIpSetsAll(ids, refs, key);
    }

    method MatchTransport(rule: Rule) returns (r: bool)
      requires Valid()
      modifies this
      ensures Valid() && (r <==> TransportOk(rule, flow, refs))
    {
      var p := GetProtocol();
      r := ProtocolOk(rule, p);
      if r { r := MatchPort(rule.src, false); }
      if r { r := MatchPort(rule.dst, true); }
    }

    method MatchAllSets(rule: Rule) returns (r: bool)
      requires Valid()
      modifies this
      ensures Valid() && (r <==> AllSetsOk(rule, flow, refs))
    {
      r := MatchIpSets(rule.src, false);
      if r { r := MatchIpSets(rule.dst, true); }
      if r { r := MatchDstIpPortSets(rule.dstIpPortSets); }
    }

    method MatchNetwork(rule: Rule) returns (r: bool)
      requires Valid()
      modifies this
      ensures Valid() && (r <==> NetworkOk(rule, flow, refs))
    {
      r := MatchTransport(rule);
      if r { r := MatchAddresses(rule, flow); }
      if r { r := MatchAllSets(rule); }
    }

    /** match: criteria in the order of their cost, each stopping the rest, and every read
        through the memo, give the same answer as all of them read directly. */
    method Match(policyNs: string, rule: Rule) returns (r: PathOutcome)
      requires Valid()
      modifies this
      ensures Valid() && r == Applies(policyNs, rule, flow, refs)
    {
      var ok := MatchNetwork(rule);
      if ok {
        var id := GetIdentity(false);
        ok := IdentityOk(policyNs, rule.src, id, refs);
      }
      if ok {
        var id := GetIdentity(true);
        ok := IdentityOk(policyNs, rule.dst, id, refs);
      }
      if !ok { return Matched(false); }
      if rule.http.None? { return Matched(true); }
      if !MethodOk(rule.http.value.methods, flow.httpMethod) { return Matched(false); }
      r := MatchHttpPaths(rule.http.value.paths, flow.path);
    }
  }
}
