/** Evaluation of tiered policy for one request (app-policy/checker/check.go:115-396). */
module CheckTiers {
  import opened HttpPath
  import opened RuleMatch

  datatype Action = Allow | Deny | Log | Pass

  /** What a list of rules says. Invalid stands for the panic on bad data that checkTiers
      recovers from. */
  datatype Verdict = NoMatch | Act(action: Action, index: nat) | Invalid

  datatype PolicyId = PolicyId(kind: string, namespace: string, name: string)

  datatype Policy = Policy(namespace: string, inbound: seq<Rule>, outbound: seq<Rule>)

  datatype Profile = Profile(inbound: seq<Rule>, outbound: seq<Rule>)

  datatype Tier = Tier(name: string, defaultAction: string, ingress: seq<PolicyId>, egress: seq<PolicyId>)

  datatype Endpoint = Endpoint(tiers: seq<Tier>, profiles: seq<string>)

  datatype Store = Store(policies: map<PolicyId, Policy>, profiles: map<string, Profile>, refs: References)

  datatype Scope = EnforcedOnly | StagedAsEnforced

  datatype Code = OK | PERMISSION_DENIED | INTERNAL | INVALID_ARGUMENT

  /** One step of the trace. */
  datatype RuleId = RuleId(kind: string, tier: string, name: string, namespace: string,
                           index: int, egress: bool, action: Action)

  const PROFILE: string := "__PROFILE__"
  const KIND_PROFILE: string := "Profile"
  const DEFAULT_INDEX := -1

  predicate KindIsStaged(kind: string) {
    kind in {"StagedNetworkPolicy", "StagedGlobalNetworkPolicy", "StagedKubernetesNetworkPolicy"}
  }

  /** actionFromString */
  function ActionFromString(s: string): Option<Action> {
    var l := Lower(s);
    if l == "allow" then Some(Allow)
    else if l == "deny" then Some(Deny)
    else if l == "pass" || l == "next-tier" then Some(Pass)
    else if l == "log" then Some(Log)
    else None
  }

  /** ruleActionFromStr */
  function DefaultAction(s: string): (a: Option<Action>)
    ensures s == "Pass" ==> a == Some(Pass)
  {
    assert Lower("Pass") == "pass";
    var l := Lower(s);
    if l == "allow" then Some(Allow)
    else if l == "deny" then Some(Deny)
    else if l == "pass" then Some(Pass)
    else None
  }

  // ---------- Rules ----------

  /** What one rule does: it is passed over if it does not apply or only logs. */
  datatype RuleEffect = PassedOver | Decides(action: Action) | Breaks

  ghost function Effect(rule: Rule, ns: string, flow: Flow, refs: References): RuleEffect {
    match Applies(ns, rule, flow, refs)
    case InvalidPath => Breaks
    case Matched(yes) =>
      if !yes then PassedOver
      else
        match ActionFromString(rule.action)
        case None => Breaks
        case Some(a) => if a == Log then PassedOver else Decides(a)
  }

  ghost function RulesVerdict(rules: seq<Rule>, ns: string, flow: Flow, refs: References, from: nat): Verdict
    requires from <= |rules|
    decreases |rules| - from
  {
    if from == |rules| then NoMatch
    else
      match Effect(rules[from], ns, flow, refs)
      case Breaks => Invalid
      case PassedOver => RulesVerdict(rules, ns, flow, refs, from + 1)
      case Decides(a) => Act(a, from)
  }

  ghost predicate AllPassedOver(rules: seq<Rule>, ns: string, flow: Flow, refs: References, to: nat)
    requires to <= |rules|
  {
    forall k :: 0 <= k < to ==> Effect(rules[k], ns, flow, refs) == PassedOver
  }

  lemma {:induction false} SkipPassedOver(rules: seq<Rule>, ns: string, flow: Flow, refs: References, to: nat)
    requires to <= |rules| && AllPassedOver(rules, ns, flow, refs, to)
    ensures RulesVerdict(rules, ns, flow, refs, 0) == RulesVerdict(rules, ns, flow, refs, to)
  {
    if to > 0 {
      SkipPassedOver(rules, ns, flow, refs, to - 1);
      assert Effect(rules[to - 1], ns, flow, refs) == PassedOver;
    }
  }

  /** The first rule that is not passed over settles the verdict, whatever comes after it. */
  lemma FirstDecides(rules: seq<Rule>, ns: string, flow: Flow, refs: References, i: nat)
    requires i <= |rules| && AllPassedOver(rules, ns, flow, refs, i)
    requires i < |rules| ==> Effect(rules[i], ns, flow, refs) != PassedOver
    ensures RulesVerdict(rules, ns, flow, refs, 0) ==
            if i == |rules| then NoMatch
            else if Effect(rules[i], ns, flow, refs).Breaks? then Invalid
            else Act(Effect(rules[i], ns, flow, refs).action, i)
  {
    SkipPassedOver(rules, ns, flow, refs, i);
  }

  /** checkRules */
  method CheckRules(rules: seq<Rule>, cache: RequestCache, ns: string) returns (v: Verdict)
    requires cache.Valid()
    modifies cache
    ensures cache.Valid() && v == RulesVerdict(rules, ns, cache.flow, cache.refs, 0)
  {
    for i := 0 to |rules|
      invariant cache.Valid()
      invariant RulesVerdict(rules, ns, cache.flow, cache.refs, 0) == RulesVerdict(rules, ns, cache.flow, cache.refs, i)
    {
      var m := cache.Match(ns, rules[i]);
      if m.InvalidPath? { return Invalid; }
      if m.yes {
        var a := ActionFromString(rules[i].action);
        if a.None? { return Invalid; }
        if a.value != Log { return Act(a.value, i); }
      }
    }
    return NoMatch;
  }

  // ---------- Tiers ----------

  function PoliciesOf(tier: Tier, egress: bool): seq<PolicyId> {
    if egress then tier.egress else tier.ingress
  }

  function PolicyEntry(p: PolicyId, tier: Tier, index: int, egress: bool, action: Action): RuleId {
    RuleId(p.kind, tier.name, p.name, p.namespace, index, egress, action)
  }

  /** How a tier ends: on to the next one, or with a final status. */
  datatype TierOutcome = Next(entries: seq<RuleId>) | Stop(code: Code, entries: seq<RuleId>)

  ghost function PolicyVerdict(p: Policy, egress: bool, flow: Flow, refs: References): Verdict {
    RulesVerdict(if egress then p.outbound else p.inbound, p.namespace, flow, refs, 0)
  }

  /** The policies of a tier from some point on. fallback is the entry for the tier's default
      action, owed once a policy in scope has not matched. */
  ghost function Walk(ps: seq<PolicyId>, scope: Scope, store: Store, tier: Tier, egress: bool, flow: Flow,
                      fallback: Option<RuleId>): TierOutcome
    decreases |ps|
  {
    if ps == [] then
      if fallback.None? then Next([])
      else if tier.defaultAction != "Pass" then Stop(PERMISSION_DENIED, [fallback.value])
      else Next([fallback.value])
    else if scope.EnforcedOnly? && KindIsStaged(ps[0].kind) then
      Walk(ps[1..], scope, store, tier, egress, flow, fallback)
    else if ps[0] !in store.policies then Stop(INTERNAL, [])
    else
      match PolicyVerdict(store.policies[ps[0]], egress, flow, store.refs)
      case Invalid => Stop(INVALID_ARGUMENT, [])
      case NoMatch =>
        if fallback.Some? then Walk(ps[1..], scope, store, tier, egress, flow, fallback)
        else (
          match DefaultAction(tier.defaultAction)
          case None => Stop(INVALID_ARGUMENT, [])
          case Some(a) =>
            Walk(ps[1..], scope, store, tier, egress, flow, Some(PolicyEntry(ps[0], tier, DEFAULT_INDEX, egress, a)))
        )
      case Act(a, i) =>
        var e := PolicyEntry(ps[0], tier, i, egress, a);
        match a
        case Allow => Stop(OK, [e])
        case Deny => Stop(PERMISSION_DENIED, [e])
        case Pass => Next([e])
        case Log => Stop(INVALID_ARGUMENT, [])
  }

  ghost function TierEnd(scope: Scope, store: Store, tier: Tier, egress: bool, flow: Flow): TierOutcome {
    Walk(PoliciesOf(tier, egress), scope, store, tier, egress, flow, None)
  }

  ghost function Profiles(names: seq<string>, store: Store, egress: bool, flow: Flow): (Code, seq<RuleId>)
    decreases |names|
  {
    if names == [] then (PERMISSION_DENIED, [])
    else if names[0] !in store.profiles then Profiles(names[1..], store, egress, flow)
    else
      var p := store.profiles[names[0]];
      match RulesVerdict(if egress then p.outbound else p.inbound, "", flow, store.refs, 0)
      case NoMatch => Profiles(names[1..], store, egress, flow)
      case Invalid => (INVALID_ARGUMENT, [])
      case Act(a, i) =>
        match a
        case Allow => (OK, [RuleId(KIND_PROFILE, PROFILE, names[0], "", i, egress, Allow)])
        case Log => (INVALID_ARGUMENT, [])
        case _ => (PERMISSION_DENIED, [RuleId(KIND_PROFILE, PROFILE, names[0], "", i, egress, Deny)])
  }

  ghost function AfterTiers(ep: Endpoint, store: Store, egress: bool, flow: Flow): (Code, seq<RuleId>) {
    if ep.profiles == [] then
      (PERMISSION_DENIED, [RuleId(KIND_PROFILE, PROFILE, PROFILE, "", DEFAULT_INDEX, egress, Deny)])
    else Profiles(ep.profiles, store, egress, flow)
  }

  /** The tiers from some point on, and then the profiles. */
  ghost function Tiers(tiers: seq<Tier>, scope: Scope, store: Store, ep: Endpoint, egress: bool,
                       flow: Flow): (Code, seq<RuleId>)
    decreases |tiers|
  {
    if tiers == [] then AfterTiers(ep, store, egress, flow)
    else
      match TierEnd(scope, store, tiers[0], egress, flow)
      case Stop(code, es) => (code, es)
      case Next(es) => var (code, rest) := Tiers(tiers[1..], scope, store, ep, egress, flow); (code, es + rest)
  }

  ghost function Evaluation(scope: Scope, store: Store, ep: Option<Endpoint>, egress: bool, flow: Flow): (Code,
                            seq<RuleId>) {
    if ep.None? then (PERMISSION_DENIED, [])
    else Tiers(ep.value.tiers, scope, store, ep.value, egress, flow)
  }

  // ---------- The loop nest ----------

  /** One policy's verdict: checkPolicy. */
  method CheckPolicy(p: Policy, egress: bool, cache: RequestCache) returns (v: Verdict)
    requires cache.Valid()
    modifies cache
    ensures cache.Valid() && v == PolicyVerdict(p, egress, cache.flow, cache.refs)
  {
    v := CheckRules(if egress then p.outbound else p.inbound, cache, p.namespace);
  }

  /** The inner loop of checkTiers and the tier's default action. The entry appended for the
      default is never missing. */
  method CheckTier(scope: Scope, store: Store, tier: Tier, egress: bool, cache: RequestCache) returns (r: TierOutcome)
    requires cache.Valid() && cache.refs == store.refs
    modifies cache
    ensures cache.Valid() && r == TierEnd(scope, store, tier, egress, cache.flow)
  {
    var ps := PoliciesOf(tier, egress);
    var fallback: Option<RuleId> := None;
    var policiesInScope := 0;
    for i := 0 to |ps|
      invariant cache.Valid() && 0 <= policiesInScope
      invariant policiesInScope > 0 <==> fallback.Some?
      invariant TierEnd(scope, store, tier, egress, cache.flow) ==
                Walk(ps[i..], scope, store, tier, egress, cache.flow, fallback)
    {
      assert ps[i..][0] == ps[i] && ps[i..][1..] == ps[i + 1..];
      if !(scope.EnforcedOnly? && KindIsStaged(ps[i].kind)) {
        policiesInScope := policiesInScope + 1;
        if ps[i] !in store.policies { return Stop(INTERNAL, []); }
        var v := CheckPolicy(store.policies[ps[i]], egress, cache);
        match v
        case Invalid => return Stop(INVALID_ARGUMENT, []);
        case NoMatch =>
          if fallback.None? {
            var a := DefaultAction(tier.defaultAction);
            if a.None? { return Stop(INVALID_ARGUMENT, []); }
            fallback := Some(PolicyEntry(ps[i], tier, DEFAULT_INDEX, egress, a.value));
          }
        case Act(Allow, k) => return Stop(OK, [PolicyEntry(ps[i], tier, k, egress, Allow)]);
        case Act(Deny, k) => return Stop(PERMISSION_DENIED, [PolicyEntry(ps[i], tier, k, egress, Deny)]);
        case Act(Pass, k) => return Next([PolicyEntry(ps[i], tier, k, egress, Pass)]);
        case Act(Log, _) => return Stop(INVALID_ARGUMENT, []);
      }
    }
    if policiesInScope > 0 {
      if tier.defaultAction != "Pass" { return Stop(PERMISSION_DENIED, [fallback.value]); }
      return Next([fallback.value]);
    }
    return Next([]);
  }

  method CheckProfiles(ep: Endpoint, store: Store, egress: bool, cache: RequestCache)
    returns (code: Code, trace: seq<RuleId>)
    requires cache.Valid() && cache.refs == store.refs
    modifies cache
    ensures (code, trace) == AfterTiers(ep, store, egress, cache.flow)
  {
    if ep.profiles == [] {
      return PERMISSION_DENIED, [RuleId(KIND_PROFILE, PROFILE, PROFILE, "", DEFAULT_INDEX, egress, Deny)];
    }
    var names := ep.profiles;
    for i := 0 to |names|
      invariant cache.Valid()
      invariant Profiles(names, store, egress, cache.flow) == Profiles(names[i..], store, egress, cache.flow)
    {
      assert names[i..][0] == names[i] && names[i..][1..] == names[i + 1..];
      if names[i] in store.profiles {
        var p := store.profiles[names[i]];
        var v := CheckRules(if egress then p.outbound else p.inbound, cache, "");
        match v
        case NoMatch =>
        case Invalid => return INVALID_ARGUMENT, [];
        case Act(Allow, k) => return OK, [RuleId(KIND_PROFILE, PROFILE, names[i], "", k, egress, Allow)];
        case Act(Log, _) => return INVALID_ARGUMENT, [];
        case Act(_, k) => return PERMISSION_DENIED, [RuleId(KIND_PROFILE, PROFILE, names[i], "", k, egress, Deny)];
      }
    }
    return PERMISSION_DENIED, [];
  }

  /** What is still to come goes after the trace so far. */
  ghost function Append(trace: seq<RuleId>, rest: (Code, seq<RuleId>)): (Code, seq<RuleId>) {
    (rest.0, trace + rest.1)
  }

  lemma AppendTier(trace: seq<RuleId>, tiers: seq<Tier>, scope: Scope, store: Store, ep: Endpoint, egress: bool,
                   flow: Flow)
    requires tiers != []
    ensures var end := TierEnd(scope, store, tiers[0], egress, flow);
            Append(trace, Tiers(tiers, scope, store, ep, egress, flow)) ==
            if end.Stop? then (end.code, trace + end.entries)
            else Append(trace + end.entries, Tiers(tiers[1..], scope, store, ep, egress, flow))
  {
    var end := TierEnd(scope, store, tiers[0], egress, flow);
    var rest := Tiers(tiers[1..], scope, store, ep, egress, flow);
    assert trace + (end.entries + rest.1) == trace + end.entries + rest.1;
  }

  /** The loop over tiers of checkTiers, and then the profiles. */
  method CheckEndpoint(scope: Scope, store: Store, ep: Endpoint, egress: bool, cache: RequestCache)
    returns (code: Code, trace: seq<RuleId>)
    requires cache.Valid() && cache.refs == store.refs
    modifies cache
    ensures (code, trace) == Tiers(ep.tiers, scope, store, ep, egress, cache.flow)
  {
    trace := [];
    ghost var answer := Tiers(ep.tiers, scope, store, ep, egress, cache.flow);
    assert ep.tiers[0..] == ep.tiers && [] + answer.1 == answer.1;
    for i := 0 to |ep.tiers|
      invariant cache.Valid()
      invariant answer == Append(trace, Tiers(ep.tiers[i..], scope, store, ep, egress, cache.flow))
    {
      AppendTier(trace, ep.tiers[i..], scope, store, ep, egress, cache.flow);
      assert ep.tiers[i..][1..] == ep.tiers[i + 1..];
      var end := CheckTier(scope, store, ep.tiers[i], egress, cache);
      trace := trace + end.entries;
      if end.Stop? { return end.code, trace; }
    }
    var entries;
    code, entries := CheckProfiles(ep, store, egress, cache);
    trace := trace + entries;
  }

  /** checkTiers */
  method Check(scope: Scope, store: Store, ep: Option<Endpoint>, egress: bool, flow: Flow)
    returns (code: Code, trace: seq<RuleId>)
    ensures (code, trace) == Evaluation(scope, store, ep, egress, flow)
  {
    if ep.None? { return PERMISSION_DENIED, []; }
    var cache := new RequestCache(flow, store.refs);
    code, trace := CheckEndpoint(scope, store, ep.value, egress, cache);
  }

  /** Evaluate: a trace only if the evaluation was completed. */
  method Evaluate(scope: Scope, store: Store, ep: Option<Endpoint>, egress: bool, flow: Flow)
    returns (trace: Option<seq<RuleId>>)
    ensures var (c, t) := Evaluation(scope, store, ep, egress, flow);
            trace == if c == INTERNAL || c == INVALID_ARGUMENT then None else Some(t)
  {
    var code, t := Check(scope, store, ep, egress, flow);
    trace := if code == INTERNAL || code == INVALID_ARGUMENT then None else Some(t);
  }

  // ---------- Staged policies ----------

  function Enforced(ps: seq<PolicyId>): seq<PolicyId> {
    if ps == [] then []
    else if KindIsStaged(ps[0].kind) then Enforced(ps[1..])
    else [ps[0]] + Enforced(ps[1..])
  }

  function EnforcedTier(tier: Tier): Tier {
    tier.(ingress := Enforced(tier.ingress), egress := Enforced(tier.egress))
  }

  function EnforcedTiers(tiers: seq<Tier>): seq<Tier> {
    seq(|tiers|, i requires 0 <= i < |tiers| => EnforcedTier(tiers[i]))
  }

  /** The endpoint with its staged policies deleted. */
  function EnforcedEndpoint(ep: Endpoint): Endpoint {
    ep.(tiers := EnforcedTiers(ep.tiers))
  }

  lemma {:induction false} WalkEnforced(ps: seq<PolicyId>, store: Store, tier: Tier, egress: bool, flow: Flow,
                                        fallback: Option<RuleId>)
    ensures Walk(ps, EnforcedOnly, store, tier, egress, flow, fallback) ==
            Walk(Enforced(ps), StagedAsEnforced, store, EnforcedTier(tier), egress, flow, fallback)
    decreases |ps|
  {
    if ps != [] {
      WalkEnforced(ps[1..], store, tier, egress, flow, fallback);
      if !KindIsStaged(ps[0].kind) {
        assert Enforced(ps)[1..] == Enforced(ps[1..]);
        var a := DefaultAction(tier.defaultAction);
        if a.Some? {
          WalkEnforced(ps[1..], store, tier, egress, flow, Some(PolicyEntry(ps[0], tier, DEFAULT_INDEX, egress,
              a.value)));
        }
      }
    }
  }

  lemma {:induction false} TiersEnforced(tiers: seq<Tier>, store: Store, ep: Endpoint, egress: bool, flow: Flow)
    ensures Tiers(tiers, EnforcedOnly, store, ep, egress, flow) ==
            Tiers(EnforcedTiers(tiers), StagedAsEnforced, store, EnforcedEndpoint(ep), egress, flow)
    decreases |tiers|
  {
    if tiers != [] {
      WalkEnforced(PoliciesOf(tiers[0], egress), store, tiers[0], egress, flow, None);
      TiersEnforced(tiers[1..], store, ep, egress, flow);
      assert EnforcedTiers(tiers)[1..] == EnforcedTiers(tiers[1..]);
    }
  }

  /** Enforced-only evaluation is full evaluation without the staged policies: the same status and
      the same trace. */
  lemma StagedInvisible(store: Store, ep: Endpoint, egress: bool, flow: Flow)
    ensures Evaluation(EnforcedOnly, store, Some(ep), egress, flow) ==
            Evaluation(StagedAsEnforced, store, Some(EnforcedEndpoint(ep)), egress, flow)
  {
    TiersEnforced(ep.tiers, store, ep, egress, flow);
  }

  /** A tier with no policy in scope contributes nothing, its default action included. */
  lemma {:induction false} AllStagedTierIsAbsent(tiers: seq<Tier>, tier: Tier, store: Store, ep: Endpoint,
                                                 egress: bool, flow: Flow, at: nat)
    requires at <= |tiers| && Enforced(PoliciesOf(tier, egress)) == []
    ensures Tiers(tiers[..at] + [tier] + tiers[at..], EnforcedOnly, store, ep, egress, flow) ==
            Tiers(tiers, EnforcedOnly, store, ep, egress, flow)
    decreases at
  {
    var more := tiers[..at] + [tier] + tiers[at..];
    if at == 0 {
      assert more[1..] == tiers;
      WalkEnforced(PoliciesOf(tier, egress), store, tier, egress, flow, None);
      var (c, rest) := Tiers(tiers, EnforcedOnly, store, ep, egress, flow);
      assert [] + rest == rest;
    } else {
      assert more[1..] == tiers[1..][..at - 1] + [tier] + tiers[1..][at - 1..];
      AllStagedTierIsAbsent(tiers[1..], tier, store, ep, egress, flow, at - 1);
    }
  }

  // ---------- What a trace says ----------

  /** The names, in order and each at most once, are among those given. */
  predicate Follows(entries: seq<RuleId>, names: seq<string>)
    decreases |names|
  {
    || entries == []
    || (names != [] && ((entries[0].tier == names[0] &&
        Follows(entries[1..], names[1..])) || Follows(entries, names[1..])))
  }

  function Names(tiers: seq<Tier>): seq<string> {
    if tiers == [] then [PROFILE] else [tiers[0].name] + Names(tiers[1..])
  }

  predicate Conclusive(e: RuleId) { e.action == Allow && e.index >= 0 }

  ghost predicate Explains(code: Code, trace: seq<RuleId>) {
    && (code == OK <==> trace != [] && Conclusive(trace[|trace| - 1]))
    && (forall k :: 0 <= k < |trace| - 1 ==> trace[k].action == Pass)
  }

  /** What a tier can add to the trace: at most one entry, naming it; a pass, if there is more to
      come; an entry for the default action only as the default says. */
  ghost predicate TierShape(r: TierOutcome, tier: Tier) {
    && |r.entries| <= 1 && (r.Stop? ==> Explains(r.code, r.entries))
    && (r.entries != [] ==>
          var e := r.entries[0];
          && e.tier == tier.name && (r.Next? ==> e.action == Pass)
          && (e.index < 0 ==> DefaultAction(tier.defaultAction) == Some(e.action)))
  }

  lemma {:induction false} WalkShape(ps: seq<PolicyId>, scope: Scope, store: Store, tier: Tier, egress: bool,
                                     flow: Flow,
                                     fallback: Option<RuleId>)
    requires fallback.Some? ==> fallback.value.tier == tier.name && fallback.value.index == DEFAULT_INDEX &&
                                DefaultAction(tier.defaultAction) == Some(fallback.value.action)
    ensures TierShape(Walk(ps, scope, store, tier, egress, flow, fallback), tier)
    decreases |ps|
  {
    if ps != [] && ps[0] in store.policies {
      var v := PolicyVerdict(store.policies[ps[0]], egress, flow, store.refs);
      WalkShape(ps[1..], scope, store, tier, egress, flow, fallback);
      var a := DefaultAction(tier.defaultAction);
      if a.Some? && v.NoMatch? {
        WalkShape(ps[1..], scope, store, tier, egress, flow, Some(PolicyEntry(ps[0], tier, DEFAULT_INDEX, egress,
            a.value)));
      }
    } else if ps != [] {
      WalkShape(ps[1..], scope, store, tier, egress, flow, fallback);
    }
  }

  lemma {:induction false} ProfilesShape(names: seq<string>, store: Store, egress: bool, flow: Flow)
    ensures var (code, es) := Profiles(names, store, egress, flow);
            |es| <= 1 && Explains(code, es) && (es != [] ==> es[0].tier == PROFILE && es[0].index >= 0)
    decreases |names|
  {
    if names != [] { ProfilesShape(names[1..], store, egress, flow); }
  }

  /** Every tier's default action is to pass or to deny. */
  predicate UsualDefaults(tiers: seq<Tier>) {
    forall t :: t in tiers ==> DefaultAction(t.defaultAction) != Some(Allow)
  }

  lemma {:induction false} TiersShape(tiers: seq<Tier>, scope: Scope, store: Store, ep: Endpoint, egress: bool,
                                      flow: Flow)
    ensures var (code, trace) := Tiers(tiers, scope, store, ep, egress, flow);
            Explains(code, trace) && Follows(trace, Names(tiers))
    decreases |tiers|
  {
    if tiers == [] {
      ProfilesShape(ep.profiles, store, egress, flow);
    } else {
      WalkShape(PoliciesOf(tiers[0], egress), scope, store, tiers[0], egress, flow, None);
      TiersShape(tiers[1..], scope, store, ep, egress, flow);
      var end := TierEnd(scope, store, tiers[0], egress, flow);
      assert Names(tiers)[1..] == Names(tiers[1..]);
      if end.Next? {
        var (_, rest) := Tiers(tiers[1..], scope, store, ep, egress, flow);
        assert end.entries == [] ==> end.entries + rest == rest;
        assert end.entries != [] ==> (end.entries + rest)[1..] == rest;
      }
    }
  }

  /** Whatever the endpoint, the store and the request: access is granted exactly when the trace
      ends with a rule that allows it; every earlier step passed; and the steps follow the order
      of the tiers, one for each at most. */
  lemma TraceExplainsStatus(scope: Scope, store: Store, ep: Option<Endpoint>, egress: bool, flow: Flow)
    ensures var (code, trace) := Evaluation(scope, store, ep, egress, flow);
            && Explains(code, trace) && (ep.None? ==> code == PERMISSION_DENIED && trace == [])
            && (ep.Some? ==> Follows(trace, Names(ep.value.tiers)))
            && (ep.Some? && UsualDefaults(ep.value.tiers) ==>
                  (code == OK <==> trace != [] && trace[|trace| - 1].action == Allow))
  {
    if ep.Some? {
      TiersShape(ep.value.tiers, scope, store, ep.value, egress, flow);
      TiersAllowExactly(ep.value.tiers, scope, store, ep.value, egress, flow);
      if UsualDefaults(ep.value.tiers) { UsualNeverAllow(ep.value.tiers, scope, store, egress, flow); }
    }
  }

  lemma {:induction false} UsualNeverAllow(tiers: seq<Tier>, scope: Scope, store: Store, egress: bool, flow: Flow)
    requires UsualDefaults(tiers)
    ensures !ReachesAllow(tiers, scope, store, egress, flow)
    decreases |tiers|
  {
    if tiers != [] {
      assert tiers[0] in tiers;
      UsualNeverAllow(tiers[1..], scope, store, egress, flow);
    }
  }

  // ---------- Default actions ----------

  function InScope(scope: Scope, ps: seq<PolicyId>): seq<PolicyId> {
    if scope.EnforcedOnly? then Enforced(ps) else ps
  }

  /** No policy has anything to say about the request. */
  ghost predicate AllMiss(ps: seq<PolicyId>, store: Store, egress: bool, flow: Flow) {
    forall p :: p in ps ==> p in store.policies && PolicyVerdict(store.policies[p], egress, flow, store.refs).NoMatch?
  }

  /** The tier has policies in scope and is left to its default action. */
  ghost predicate FallsThrough(tier: Tier, scope: Scope, store: Store, egress: bool, flow: Flow) {
    var ps := InScope(scope, PoliciesOf(tier, egress));
    ps != [] && AllMiss(ps, store, egress, flow)
  }

  /** The walk has nothing left but the tier's default action. */
  ghost predicate EndsInDefault(r: TierOutcome) { r.entries != [] && r.entries[0].index < 0 }

  /** One policy in scope: unless it is there and has nothing to say, the default is not reached. */
  lemma WalkOne(ps: seq<PolicyId>, scope: Scope, store: Store, tier: Tier, egress: bool, flow: Flow,
                fallback: Option<RuleId>)
    requires ps != [] && !(scope.EnforcedOnly? && KindIsStaged(ps[0].kind)) && DefaultAction(tier.defaultAction).Some?
    ensures var e := PolicyEntry(ps[0], tier, DEFAULT_INDEX, egress, DefaultAction(tier.defaultAction).value);
            EndsInDefault(Walk(ps, scope, store, tier, egress, flow, fallback)) <==>
            AllMiss([ps[0]], store, egress, flow) &&
            EndsInDefault(Walk(ps[1..], scope, store, tier, egress, flow, if fallback.Some? then fallback else Some(e)))
  {
    MissOneMore(ps[0], [], store, egress, flow);
  }

  lemma {:induction false} WalkFallsThrough(ps: seq<PolicyId>, scope: Scope, store: Store, tier: Tier, egress: bool,
                                            flow: Flow, fallback: Option<RuleId>)
    requires fallback.Some? ==> fallback.value.index == DEFAULT_INDEX
    requires DefaultAction(tier.defaultAction).Some?
    ensures EndsInDefault(Walk(ps, scope, store, tier, egress, flow, fallback)) <==>
            AllMiss(InScope(scope, ps), store, egress, flow) && (InScope(scope, ps) != [] || fallback.Some?)
    decreases |ps|
  {
    if ps != [] {
      var rest := ps[1..];
      if scope.EnforcedOnly? && KindIsStaged(ps[0].kind) {
        WalkFallsThrough(rest, scope, store, tier, egress, flow, fallback);
      } else {
        var e := PolicyEntry(ps[0], tier, DEFAULT_INDEX, egress, DefaultAction(tier.defaultAction).value);
        WalkOne(ps, scope, store, tier, egress, flow, fallback);
        WalkFallsThrough(rest, scope, store, tier, egress, flow, if fallback.Some? then fallback else Some(e));
        assert InScope(scope, ps) == [ps[0]] + InScope(scope, rest);
        MissOneMore(ps[0], InScope(scope, rest), store, egress, flow);
      }
    }
  }

  lemma MissOneMore(p: PolicyId, ps: seq<PolicyId>, store: Store, egress: bool, flow: Flow)
    ensures AllMiss([p] + ps, store, egress, flow) <==>
            AllMiss([p], store, egress, flow) && AllMiss(ps, store, egress, flow)
    ensures AllMiss([p], store, egress, flow) <==>
            p in store.policies && PolicyVerdict(store.policies[p], egress, flow, store.refs).NoMatch?
  {
    assert forall q :: q in [p] + ps <==> q in [p] || q in ps;
  }

  /** Every tier before some tier hands on, and that one is left to a default action of allow. */
  ghost predicate ReachesAllow(tiers: seq<Tier>, scope: Scope, store: Store, egress: bool, flow: Flow)
    decreases |tiers|
  {
    tiers != [] &&
    ((FallsThrough(tiers[0], scope, store, egress, flow) && DefaultAction(tiers[0].defaultAction) == Some(Allow)) ||
     (TierEnd(scope, store, tiers[0], egress, flow).Next? && ReachesAllow(tiers[1..], scope, store, egress, flow)))
  }

  /** What a tier that ends the evaluation on an allow has done: a rule allowed it, or its default
      action says so and does not. */
  lemma TierAllows(tier: Tier, scope: Scope, store: Store, egress: bool, flow: Flow)
    ensures var r := TierEnd(scope, store, tier, egress, flow);
            r.Stop? && r.code != OK && r.entries != [] && r.entries[0].action == Allow <==>
            FallsThrough(tier, scope, store, egress, flow) && DefaultAction(tier.defaultAction) == Some(Allow)
  {
    WalkShape(PoliciesOf(tier, egress), scope, store, tier, egress, flow, None);
    if DefaultAction(tier.defaultAction).Some? {
      WalkFallsThrough(PoliciesOf(tier, egress), scope, store, tier, egress, flow, None);
    }
  }

  lemma {:induction false} TiersAllowExactly(tiers: seq<Tier>, scope: Scope, store: Store, ep: Endpoint,
                                             egress: bool, flow: Flow)
    ensures var (code, trace) := Tiers(tiers, scope, store, ep, egress, flow);
            code != OK && trace != [] && trace[|trace| - 1].action == Allow <==>
            ReachesAllow(tiers, scope, store, egress, flow)
    decreases |tiers|
  {
    if tiers == [] {
      ProfilesShape(ep.profiles, store, egress, flow);
    } else {
      var end := TierEnd(scope, store, tiers[0], egress, flow);
      TierAllows(tiers[0], scope, store, egress, flow);
      WalkShape(PoliciesOf(tiers[0], egress), scope, store, tiers[0], egress, flow, None);
      TiersAllowExactly(tiers[1..], scope, store, ep, egress, flow);
    }
  }

  /** The trace ends in an allow and access is denied, exactly if the evaluation reaches a tier none
      of whose policies in scope has anything to say and whose default action is to allow. */
  lemma AllowByDefaultDeniesExactly(scope: Scope, store: Store, ep: Endpoint, egress: bool, flow: Flow)
    ensures var (code, trace) := Evaluation(scope, store, Some(ep), egress, flow);
            code != OK && trace != [] && trace[|trace| - 1].action == Allow <==>
            ReachesAllow(ep.tiers, scope, store, egress, flow)
  {
    TiersAllowExactly(ep.tiers, scope, store, ep, egress, flow);
  }

  /** For one: a single tier with one policy without rules. The trace ends in an allow, and access is
      denied. */
  lemma AllowByDefaultDenies(store: Store, p: PolicyId, name: string, profiles: seq<string>, flow: Flow)
    requires p in store.policies && store.policies[p].inbound == []
    ensures var ep := Endpoint([Tier(name, "Allow", [p], [])], profiles);
            Evaluation(StagedAsEnforced, store, Some(ep), false, flow) ==
            (PERMISSION_DENIED, [RuleId(p.kind, name, p.name, p.namespace, DEFAULT_INDEX, false, Allow)])
  {
    var tier := Tier(name, "Allow", [p], []);
    assert Lower("Allow") == "allow";
    assert [p][1..] == [];
    var e := PolicyEntry(p, tier, DEFAULT_INDEX, false, Allow);
    assert Walk([], StagedAsEnforced, store, tier, false, flow, Some(e)) == Stop(PERMISSION_DENIED, [e]);
    assert TierEnd(StagedAsEnforced, store, tier, false, flow) == Stop(PERMISSION_DENIED, [e]);
  }
}
