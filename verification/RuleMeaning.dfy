/** What each criterion of a policy rule means, taken alone, and that a rule applies if all of them
    do (app-policy/checker/match.go:87-335 and 494-766). */
module RuleMeaning {
  import opened HttpPath
  import opened RuleMatch

  // ---------- Text ----------

  /** The text is the word up to case. Two characters outside ASCII fold to ASCII letters. */
  predicate ReadsAs(text: string, word: string) {
    |text| == |word| &&
    forall k :: 0 <= k < |text| ==>
      || (text[k] == word[k] && !('A' <= text[k] <= 'Z'))
      || ('A' <= text[k] <= 'Z' && word[k] as int == text[k] as int + 32)
      || (text[k] == '\U{130}' && word[k] == 'i')
      || (text[k] == '\U{212A}' && word[k] == 'k')
  }

  lemma LowerExactly(text: string, word: string)
    requires forall k :: 0 <= k < |word| ==> word[k] != '\U{130}' && word[k] != '\U{212A}'
    ensures Lower(text) == word <==> ReadsAs(text, word)
  {
    if Lower(text) == word {
      assert forall k :: 0 <= k < |text| ==> Lower(text)[k] == word[k];
    }
  }

  // ---------- Rules with one criterion ----------

  const ANY_END := Criteria([], [], [], [], [], [], [], [], "", "", "", None)

  function Bare(): Rule {
    Rule("", None, None, ANY_END, ANY_END, [], None)
  }

  /** A rule that asks something of one end only. */
  function OnEnd(dst: bool, c: Criteria): Rule {
    if dst then Bare().(dst := c) else Bare().(src := c)
  }

  function EndAt(flow: Flow, dst: bool): End {
    if dst then flow.dst else flow.src
  }

  ghost predicate Fits(ns: string, r: Rule, flow: Flow, refs: References) {
    Applies(ns, r, flow, refs) == Matched(true)
  }

  /** Every flow has a protocol, and the empty selector selects everything. */
  ghost predicate Usual(flow: Flow, refs: References) {
    1 <= flow.protocol <= 255 && forall labels :: refs.selects("", labels)
  }

  /** A rule that asks nothing applies to everything. */
  lemma BareApplies(ns: string, flow: Flow, refs: References)
    requires Usual(flow, refs)
    ensures Fits(ns, Bare(), flow, refs)
  {
  }

  /** A flow without a valid protocol meets no rule. */
  lemma NoProtocolNoMatch(ns: string, r: Rule, flow: Flow, refs: References)
    requires !(1 <= flow.protocol <= 255)
    ensures Applies(ns, r, flow, refs) == Matched(false)
  {
  }

  /** The protocols that have names. */
  predicate IsNamed(name: string, number: int) {
    || (ReadsAs(name, "tcp") && number == 6) || (ReadsAs(name, "udp") && number == 17)
    || (ReadsAs(name, "icmp") && number == 1) || (ReadsAs(name, "icmpv6") && number == 58)
    || (ReadsAs(name, "sctp") && number == 132) || (ReadsAs(name, "udplite") && number == 136)
  }

  lemma NamesExactly(name: string, number: int)
    ensures IsProtocol(Name(name), number) <==> IsNamed(name, number)
  {
    LowerExactly(name, "tcp");
    LowerExactly(name, "udp");
    LowerExactly(name, "icmp");
    LowerExactly(name, "icmpv6");
    LowerExactly(name, "sctp");
    LowerExactly(name, "udplite");
  }

  predicate IsThe(p: Protocol, number: int) {
    match p case Name(name) => IsNamed(name, number) case Number(n) => n == number
  }

  /** A protocol by name, in any case, or by number; and anything but that. */
  lemma ProtocolExactly(ns: string, p: Protocol, flow: Flow, refs: References)
    requires Usual(flow, refs)
    ensures Fits(ns, Bare().(protocol := Some(p)), flow, refs) <==> IsThe(p, flow.protocol)
    ensures Fits(ns, Bare().(notProtocol := Some(p)), flow, refs) <==> !IsThe(p, flow.protocol)
  {
    if p.Name? { NamesExactly(p.name, flow.protocol); }
  }

  predicate InPrefix(e: End, n: Net) {
    n.Cidr? && n.v6 == e.v6 && |n.prefix| <= |e.bits| && e.bits[..|n.prefix|] == n.prefix
  }

  /** Networks are those of the end they are asked of: one of the list, before any that is malformed;
      or none of the list, and none malformed. */
  lemma NetsExactly(ns: string, dst: bool, nets: seq<Net>, flow: Flow, refs: References)
    requires Usual(flow, refs) && nets != []
    ensures Fits(ns, OnEnd(dst, ANY_END.(nets := nets)), flow, refs) <==>
            exists i :: 0 <= i < |nets| && InPrefix(EndAt(flow, dst), nets[i]) && BadCidr !in nets[..i]
    ensures Fits(ns, OnEnd(dst, ANY_END.(notNets := nets)), flow, refs) <==>
            forall n :: n in nets ==> n.Cidr? && !InPrefix(EndAt(flow, dst), n)
  {
    assert forall n :: InPrefix(EndAt(flow, dst), n) <==> InNet(n, EndAt(flow, dst));
  }

  /** The member "address,protocol:port" that a named port is looked up by. */
  function NamedPort(e: End, protocol: int): string {
    e.text + "," +
    (if protocol == 6 then "tcp" else if protocol == 17 then "udp" else if protocol == 132 then "sctp"
     else if protocol == 1 then "icmp" else "") +
    ":" + Decimal(e.port)
  }

  ghost predicate PortIn(e: End, protocol: int, ranges: seq<Range>, named: seq<string>, refs: References) {
    || (exists r :: r in ranges && r.first <= e.port <= r.last)
    || (exists id :: id in named && id in refs.ipSets && refs.ipSets[id](NamedPort(e, protocol)))
  }

  lemma PortInExactly(e: End, protocol: int, ranges: seq<Range>, named: seq<string>, refs: References)
    requires 0 <= e.port < 0x1_0000
    ensures PortIn(e, protocol, ranges, named, refs) <==>
            PortListed(ranges, named, refs, e.port, PortKey(e, protocol))
  {
    assert Int32(e.port) == e.port;
    assert NamedPort(e, protocol) == PortKey(e, protocol);
    assert forall r :: r in ranges ==> (Within(r, e.port) <==> r.first <= e.port <= r.last);
    if id :| id in named && id in refs.ipSets && refs.ipSets[id](NamedPort(e, protocol)) {
      var i :| 0 <= i < |named| && named[i] == id;
      assert Holds(refs, named[i], PortKey(e, protocol));
    }
  }

  /** Ports are those of the end they are asked of, by range or by name. */
  lemma PortsExactly(ns: string, dst: bool, ranges: seq<Range>, named: seq<string>, flow: Flow, refs: References)
    requires Usual(flow, refs) && 0 <= EndAt(flow, dst).port < 0x1_0000 && (ranges != [] || named != [])
    ensures var yes := PortIn(EndAt(flow, dst), flow.protocol, ranges, named, refs);
            && (Fits(ns, OnEnd(dst, ANY_END.(ports := ranges, named := named)), flow, refs) <==> yes)
            && (Fits(ns, OnEnd(dst, ANY_END.(notPorts := ranges, notNamed := named)), flow, refs) <==> !yes)
  {
    PortInExactly(EndAt(flow, dst), flow.protocol, ranges, named, refs);
  }

  /** IP sets hold the address of the end they are asked of. A set that is missing has no say. */
  lemma SetsExactly(ns: string, dst: bool, ids: seq<string>, flow: Flow, refs: References)
    requires Usual(flow, refs)
    ensures var text := EndAt(flow, dst).text;
            && (Fits(ns, OnEnd(dst, ANY_END.(ipSets := ids)), flow, refs) <==>
                  forall id :: id in ids && id in refs.ipSets ==> refs.ipSets[id](text))
            && (Fits(ns, OnEnd(dst, ANY_END.(notIpSets := ids)), flow, refs) <==>
                  forall id :: id in ids && id in refs.ipSets ==> !refs.ipSets[id](text))
  {
    EachSet(ids, refs, EndAt(flow, dst).text);
  }

  lemma EachSet(ids: seq<string>, refs: References, value: string)
    ensures NoneExclude(ids, refs, value) <==> forall id :: id in ids && id in refs.ipSets ==> refs.ipSets[id](value)
    ensures NoneHold(ids, refs, value) <==> forall id :: id in ids && id in refs.ipSets ==> !refs.ipSets[id](value)
  {
    forall id | id in ids
      ensures exists i :: 0 <= i < |ids| && ids[i] == id
    {
    }
    assert NoneExclude(ids, refs, value) <==> forall id :: id in ids ==> !Excludes(refs, id, value);
    assert NoneHold(ids, refs, value) <==> forall id :: id in ids ==> !Holds(refs, id, value);
  }

  /** Sets of addresses and ports hold those of the destination. */
  lemma PortSetsExactly(ns: string, ids: seq<string>, flow: Flow, refs: References)
    requires Usual(flow, refs)
    ensures Fits(ns, Bare().(dstIpPortSets := ids), flow, refs) <==>
            forall id :: id in ids && id in refs.ipSets ==> refs.ipSets[id](NamedPort(flow.dst, flow.protocol))
  {
    var key := PortKey(flow.dst, flow.protocol);
    assert key == NamedPort(flow.dst, flow.protocol);
    EachSet(ids, refs, key);
  }

  // ---------- Identities ----------

  /** The account that an end shows: its principal reads spiffe://domain/ns/namespace/sa/name. */
  ghost predicate Shows(e: End, name: string, namespace: string) {
    && name != "" && namespace != "" && '/' !in name && '/' !in namespace
    && exists domain: string :: domain != "" && '/' !in domain &&
         e.principal == Some("spiffe://" + domain + "/ns/" + namespace + "/sa/" + name)
  }

  lemma ShowsExactly(e: End, name: string, namespace: string)
    requires Shows(e, name, namespace)
    ensures ParseSpiffe(e.principal.value) == Some((name, namespace))
  {
    var domain: string :| domain != "" && '/' !in domain &&
      e.principal == Some("spiffe://" + domain + "/ns/" + namespace + "/sa/" + name);
    SplitSpiffe(domain, namespace, name);
  }

  lemma SplitSpiffe(domain: string, namespace: string, name: string)
    requires '/' !in domain && '/' !in namespace && '/' !in name
    ensures Split("spiffe://" + domain + "/ns/" + namespace + "/sa/" + name) ==
            ["spiffe:", "", domain, "ns", namespace, "sa", name]
  {
    var segs := ["spiffe:", "", domain, "ns", namespace, "sa", name];
    SplitJoin(segs);
    JoinSeven(segs);
    SpiffeText(domain, namespace, name);
  }

  lemma SpiffeText(domain: string, namespace: string, name: string)
    ensures "spiffe:" + "/" + "" + "/" + domain + "/" + "ns" + "/" + namespace + "/" + "sa" + "/" + name ==
            "spiffe://" + domain + "/ns/" + namespace + "/sa/" + name
  {
    var start := "spiffe:" + "/" + "" + "/" + domain;
    assert start == "spiffe://" + domain;
    var middle := start + "/" + "ns" + "/" + namespace;
    assert middle == start + "/ns/" + namespace;
    assert middle + "/" + "sa" + "/" + name == middle + "/sa/" + name;
  }

  lemma JoinSeven(s: seq<string>)
    requires |s| == 7
    ensures Join(s) == s[0] + "/" + s[1] + "/" + s[2] + "/" + s[3] + "/" + s[4] + "/" + s[5] + "/" + s[6]
  {
    assert Join(s[5..]) == s[5] + "/" + s[6] by { assert s[5..][1..] == [s[6]]; }
    assert Join(s[4..]) == s[4] + "/" + Join(s[5..]) by { assert s[4..][1..] == s[5..]; }
    assert Join(s[3..]) == s[3] + "/" + Join(s[4..]) by { assert s[3..][1..] == s[4..]; }
    assert Join(s[2..]) == s[2] + "/" + Join(s[3..]) by { assert s[2..][1..] == s[3..]; }
    assert Join(s[1..]) == s[1] + "/" + Join(s[2..]) by { assert s[1..][1..] == s[2..]; }
    assert Join(s) == s[0] + "/" + Join(s[1..]);
  }

  /** The labels of an account: those that came with the flow, with its own on top. */
  function AccountLabels(e: End, name: string, namespace: string, refs: References): Labels {
    if (name, namespace) in refs.serviceAccounts then e.labels + refs.serviceAccounts[(name, namespace)] else e.labels
  }

  function NamespaceLabels(namespace: string, refs: References): Labels {
    if namespace in refs.namespaces then refs.namespaces[namespace] else map[]
  }

  lemma IdentityExactly(e: End, name: string, namespace: string, refs: References)
    requires Shows(e, name, namespace)
    ensures IdentityOf(e, refs) == Identity(Some(Peer(name, namespace, AccountLabels(e, name, namespace, refs))),
                                            Some(Namespace(namespace, NamespaceLabels(namespace, refs))))
  {
    ShowsExactly(e, name, namespace);
  }

  /** Accounts by name and by selector, outside any namespace. */
  lemma AccountsExactly(dst: bool, a: Accounts, flow: Flow, refs: References, name: string, namespace: string)
    requires Usual(flow, refs) && Shows(EndAt(flow, dst), name, namespace)
    ensures Fits("", OnEnd(dst, ANY_END.(accounts := Some(a))), flow, refs) <==>
            && (a.names == [] || name in a.names)
            && refs.selects(a.selector, AccountLabels(EndAt(flow, dst), name, namespace, refs))
  {
    IdentityExactly(EndAt(flow, dst), name, namespace, refs);
  }

  /** A namespace selector looks at the labels of the account's namespace, whatever the policy's own. */
  lemma NamespaceSelectorExactly(ns: string, dst: bool, selector: string, flow: Flow, refs: References, name: string,
                                 namespace: string)
    requires Usual(flow, refs) && Shows(EndAt(flow, dst), name, namespace) && selector != ""
    ensures Fits(ns, OnEnd(dst, ANY_END.(nsSelector := selector)), flow, refs) <==>
            refs.selects(selector, NamespaceLabels(namespace, refs))
  {
    IdentityExactly(EndAt(flow, dst), name, namespace, refs);
  }

  /** Without one, a policy of a namespace that selects its peers means those of its own namespace. */
  lemma OwnNamespaceExactly(ns: string, dst: bool, c: Criteria, flow: Flow, refs: References, name: string,
                            namespace: string)
    requires Usual(flow, refs) && Shows(EndAt(flow, dst), name, namespace)
    requires c == ANY_END.(selector := c.selector, notSelector := c.notSelector)
    ensures Fits(ns, OnEnd(dst, c), flow, refs) <==>
            ns == "" || (c.selector == "" && c.notSelector == "") || namespace == ns
  {
    IdentityExactly(EndAt(flow, dst), name, namespace, refs);
  }

  /** The same for accounts. */
  lemma OwnNamespaceAccountsExactly(ns: string, dst: bool, a: Accounts, flow: Flow, refs: References, name: string,
                                    namespace: string)
    requires Usual(flow, refs) && Shows(EndAt(flow, dst), name, namespace) && ns != ""
    requires a.names != [] || a.selector != ""
    ensures Fits(ns, OnEnd(dst, ANY_END.(accounts := Some(a))), flow, refs) <==>
            && namespace == ns && (a.names == [] || name in a.names)
            && refs.selects(a.selector, AccountLabels(EndAt(flow, dst), name, namespace, refs))
  {
    IdentityExactly(EndAt(flow, dst), name, namespace, refs);
  }

  /** An end that shows no principal meets every such criterion. */
  lemma NoPrincipalMeetsAll(ns: string, dst: bool, c: Criteria, flow: Flow, refs: References)
    requires Usual(flow, refs) && EndAt(flow, dst).principal.None?
    requires c == ANY_END.(nsSelector := c.nsSelector, selector := c.selector, notSelector := c.notSelector,
                           accounts := c.accounts)
    ensures Fits(ns, OnEnd(dst, c), flow, refs)
  {
  }

  /** HTTP methods, with "*" for any. A flow without a method meets them all. */
  lemma MethodsExactly(ns: string, methods: seq<string>, flow: Flow, refs: References)
    requires Usual(flow, refs) && methods != []
    ensures Fits(ns, Bare().(http := Some(Http(methods, []))), flow, refs) <==>
            flow.httpMethod.None? || "*" in methods || flow.httpMethod.value in methods
  {
  }

  /** The normalised request is the path, or with a prefix also goes on below it. */
  predicate AtPath(m: PathMatch, req: string) {
    var n := Normalise(m.path);
    n.Some? && (n.value == req || (m.Prefix? && (n.value == "/" || n.value + "/" <= req)))
  }

  /** HTTP paths, exact or by prefix, of the normalised request. A flow without a path meets them all; one
      that is not absolute breaks the evaluation; one that cannot be normalised meets none. */
  lemma PathsExactly(ns: string, paths: seq<PathMatch>, flow: Flow, refs: References)
    requires Usual(flow, refs) && paths != []
    ensures Applies(ns, Bare().(http := Some(Http([], paths))), flow, refs) ==
            if flow.path.None? then Matched(true)
            else if flow.path.value == "" || flow.path.value[0] != '/' then InvalidPath
            else Matched(Normalise(flow.path.value).Some? &&
                         exists m :: m in paths && AtPath(m, Normalise(flow.path.value).value))
  {
    if flow.path.Some? && Normalise(flow.path.value).Some? {
      var req := Normalise(flow.path.value).value;
      NormalisedIsPlain(flow.path.value);
      forall i | 0 <= i < |paths|
        ensures Covers(paths[i], req) <==> AtPath(paths[i], req)
      {
        AtPathExactly(paths[i], req);
      }
      SomeAtPath(paths, req);
    }
  }

  lemma SomeAtPath(paths: seq<PathMatch>, req: string)
    requires forall i :: 0 <= i < |paths| ==> (Covers(paths[i], req) <==> AtPath(paths[i], req))
    ensures SomeCovers(paths, req) <==> exists m :: m in paths && AtPath(m, req)
  {
    if m :| m in paths && AtPath(m, req) {
      var i :| 0 <= i < |paths| && paths[i] == m;
      assert Covers(paths[i], req);
    }
  }

  lemma AtPathExactly(m: PathMatch, req: string)
    requires Plain(Segments(req)) && req == Rooted(Segments(req))
    ensures Covers(m, req) <==> AtPath(m, req)
  {
    AcceptsExactly(m, req);
    if Normalise(m.path).Some? { NormalisedIsPlain(m.path); }
  }

  // ---------- All of them together ----------

  /** The criteria of one end, a kind at a time. */
  function PortsPart(c: Criteria): Criteria {
    ANY_END.(ports := c.ports, notPorts := c.notPorts, named := c.named, notNamed := c.notNamed)
  }

  function NetsPart(c: Criteria): Criteria {
    ANY_END.(nets := c.nets, notNets := c.notNets)
  }

  function SetsPart(c: Criteria): Criteria {
    ANY_END.(ipSets := c.ipSets, notIpSets := c.notIpSets)
  }

  function IdentityPart(c: Criteria): Criteria {
    ANY_END.(nsSelector := c.nsSelector, selector := c.selector, notSelector := c.notSelector, accounts := c.accounts)
  }

  /** An end's criteria are met if each kind is. */
  lemma EndExactly(ns: string, dst: bool, c: Criteria, flow: Flow, refs: References)
    requires Usual(flow, refs)
    ensures Fits(ns, OnEnd(dst, c), flow, refs) <==>
            && Fits(ns, OnEnd(dst, PortsPart(c)), flow, refs) && Fits(ns, OnEnd(dst, NetsPart(c)), flow, refs)
            && Fits(ns, OnEnd(dst, SetsPart(c)), flow, refs) && Fits(ns, OnEnd(dst, IdentityPart(c)), flow, refs)
  {
  }

  /** And a rule applies if its protocol, both its ends, its sets of addresses and ports and its HTTP
      part do. The HTTP part alone can break the evaluation, and only where all the rest is met. */
  lemma RuleExactly(ns: string, r: Rule, flow: Flow, refs: References)
    requires Usual(flow, refs)
    ensures var rest := && Fits(ns, Bare().(protocol := r.protocol, notProtocol := r.notProtocol), flow, refs)
                        && Fits(ns, OnEnd(false, r.src), flow, refs) && Fits(ns, OnEnd(true, r.dst), flow, refs)
                        && Fits(ns, Bare().(dstIpPortSets := r.dstIpPortSets), flow, refs);
            Applies(ns, r, flow, refs) ==
            if rest then Applies(ns, Bare().(http := r.http), flow, refs) else Matched(false)
  {
  }
}
