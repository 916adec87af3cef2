/** What an evaluation's status and trace mean, read off the endpoint's tiers and profiles and the
    text of their rules (app-policy/checker/check.go:115-396). */
module CheckMeaning {
  import opened HttpPath
  import opened RuleMatch
  import opened RuleMeaning
  import opened CheckTiers

  // ---------- What a rule says ----------

  ghost predicate RuleApplies(rule: Rule, ns: string, flow: Flow, refs: References) {
    Applies(ns, rule, flow, refs) == Matched(true)
  }

  /** A rule has no say: it does not apply, or it only logs. */
  ghost predicate NoSay(rule: Rule, ns: string, flow: Flow, refs: References) {
    || Applies(ns, rule, flow, refs) == Matched(false)
    || (RuleApplies(rule, ns, flow, refs) && ReadsAs(rule.action, "log"))
  }

  /** No rule before the i-th has a say. */
  ghost predicate NoneBefore(rules: seq<Rule>, ns: string, flow: Flow, refs: References, i: nat)
    requires i <= |rules|
  {
    forall k :: 0 <= k < i ==> NoSay(rules[k], ns, flow, refs)
  }

  /** The i-th rule is the first to have a say, and reads as one of the words. */
  ghost predicate Says(rules: seq<Rule>, ns: string, flow: Flow, refs: References, i: nat, words: set<string>) {
    && i < |rules| && NoneBefore(rules, ns, flow, refs, i) && RuleApplies(rules[i], ns, flow, refs)
    && exists w :: w in words && ReadsAs(rules[i].action, w)
  }

  /** The i-th rule is the first to have a say, and cannot be worked out: the request has no valid
      path, or the action is none of the known ones. */
  ghost predicate Garbled(rules: seq<Rule>, ns: string, flow: Flow, refs: References, i: nat) {
    && i < |rules| && NoneBefore(rules, ns, flow, refs, i)
    && (Applies(ns, rules[i], flow, refs) == InvalidPath ||
        (RuleApplies(rules[i], ns, flow, refs) &&
         forall w :: w in {"allow", "deny", "pass", "next-tier", "log"} ==> !ReadsAs(rules[i].action, w)))
  }

  /** What the words mean. */
  lemma WordsExactly(text: string)
    ensures var a := ActionFromString(text);
            && (a == Some(Allow) <==> ReadsAs(text, "allow")) && (a == Some(Deny) <==> ReadsAs(text, "deny"))
            && (a == Some(Pass) <==> ReadsAs(text, "pass") || ReadsAs(text, "next-tier"))
            && (a == Some(Log) <==> ReadsAs(text, "log"))
  {
    LowerExactly(text, "allow");
    LowerExactly(text, "deny");
    LowerExactly(text, "pass");
    LowerExactly(text, "next-tier");
    LowerExactly(text, "log");
  }

  lemma DefaultWordsExactly(text: string)
    ensures var a := DefaultAction(text);
            && (a == Some(Allow) <==> ReadsAs(text, "allow")) && (a == Some(Deny) <==> ReadsAs(text, "deny"))
            && (a == Some(Pass) <==> ReadsAs(text, "pass")) && a != Some(Log)
  {
    LowerExactly(text, "allow");
    LowerExactly(text, "deny");
    LowerExactly(text, "pass");
  }

  lemma EffectExactly(rule: Rule, ns: string, flow: Flow, refs: References)
    ensures var e, yes := Effect(rule, ns, flow, refs), RuleApplies(rule, ns, flow, refs);
            && (e == PassedOver <==> NoSay(rule, ns, flow, refs))
            && (e == Decides(Allow) <==> yes && ReadsAs(rule.action, "allow"))
            && (e == Decides(Deny) <==> yes && ReadsAs(rule.action, "deny"))
            && (e == Decides(Pass) <==> yes && (ReadsAs(rule.action, "pass") || ReadsAs(rule.action, "next-tier")))
            && e != Decides(Log)
  {
    WordsExactly(rule.action);
  }

  lemma NoneBeforeExactly(rules: seq<Rule>, ns: string, flow: Flow, refs: References, i: nat)
    requires i <= |rules|
    ensures NoneBefore(rules, ns, flow, refs, i) <==> AllPassedOver(rules, ns, flow, refs, i)
  {
    forall k | 0 <= k < i
      ensures NoSay(rules[k], ns, flow, refs) <==> Effect(rules[k], ns, flow, refs) == PassedOver
    {
      EffectExactly(rules[k], ns, flow, refs);
    }
  }

  /** The first rule that has a say. */
  lemma {:induction false} FirstSay(rules: seq<Rule>, ns: string, flow: Flow, refs: References, from: nat)
    returns (i: nat)
    requires from <= |rules| && NoneBefore(rules, ns, flow, refs, from)
    ensures i <= |rules| && NoneBefore(rules, ns, flow, refs, i)
    ensures i < |rules| ==> !NoSay(rules[i], ns, flow, refs)
    decreases |rules| - from
  {
    if from < |rules| && NoSay(rules[from], ns, flow, refs) {
      i := FirstSay(rules, ns, flow, refs, from + 1);
    } else {
      i := from;
    }
  }

  /** A list of rules is settled by the first one with a say. */
  lemma SaysSettles(rules: seq<Rule>, ns: string, flow: Flow, refs: References, i: nat)
    ensures var v := RulesVerdict(rules, ns, flow, refs, 0);
            && (Says(rules, ns, flow, refs, i, {"allow"}) ==> v == Act(Allow, i))
            && (Says(rules, ns, flow, refs, i, {"deny"}) ==> v == Act(Deny, i))
            && (Says(rules, ns, flow, refs, i, {"pass", "next-tier"}) ==> v == Act(Pass, i))
            && (Garbled(rules, ns, flow, refs, i) ==> v == Invalid)
            && (i == |rules| && NoneBefore(rules, ns, flow, refs, i) ==> v == NoMatch)
  {
    if i <= |rules| && NoneBefore(rules, ns, flow, refs, i) {
      NoneBeforeExactly(rules, ns, flow, refs, i);
      if i < |rules| {
        EffectExactly(rules[i], ns, flow, refs);
        WordsExactly(rules[i].action);
        if !NoSay(rules[i], ns, flow, refs) { FirstDecides(rules, ns, flow, refs, i); }
        if Says(rules, ns, flow, refs, i, {"allow"}) || Says(rules, ns, flow, refs, i, {"deny"}) ||
           Says(rules, ns, flow, refs, i, {"pass", "next-tier"}) || Garbled(rules, ns, flow, refs, i) {
          assert !NoSay(rules[i], ns, flow, refs);
        }
      } else {
        FirstDecides(rules, ns, flow, refs, i);
      }
    }
  }

  // ---------- One tier ----------

  /** The request: what to leave out, the policies, the direction and the flow. */
  datatype Request = Request(scope: Scope, store: Store, egress: bool, flow: Flow)

  function Ids(q: Request, tier: Tier): seq<PolicyId> {
    if q.egress then tier.egress else tier.ingress
  }

  function PolicyRules(q: Request, p: Policy): seq<Rule> {
    if q.egress then p.outbound else p.inbound
  }

  function ProfileRules(q: Request, p: Profile): seq<Rule> {
    if q.egress then p.outbound else p.inbound
  }

  /** Policies of this kind take part. */
  predicate TakesPart(q: Request, kind: string) {
    q.scope.StagedAsEnforced? ||
    (kind != "StagedNetworkPolicy" && kind != "StagedGlobalNetworkPolicy" && kind != "StagedKubernetesNetworkPolicy")
  }

  function WordsFor(a: Action): set<string> {
    match a
    case Allow => {"allow"}
    case Deny => {"deny"}
    case Pass => {"pass", "next-tier"}
    case Log => {"log"}
  }

  ghost predicate PolicySays(q: Request, id: PolicyId, i: nat, a: Action) {
    && id in q.store.policies && a != Log
    && var p := q.store.policies[id]; Says(PolicyRules(q, p), p.namespace, q.flow, q.store.refs, i, WordsFor(a))
  }

  ghost predicate PolicyGarbled(q: Request, id: PolicyId, i: nat) {
    && id in q.store.policies
    && var p := q.store.policies[id]; Garbled(PolicyRules(q, p), p.namespace, q.flow, q.store.refs, i)
  }

  /** The policy is there and none of its rules has a say. */
  ghost predicate Silent(q: Request, id: PolicyId) {
    && id in q.store.policies
    && var p := q.store.policies[id];
       var rules := PolicyRules(q, p);
       NoneBefore(rules, p.namespace, q.flow, q.store.refs, |rules|)
  }

  ghost predicate SilentBefore(q: Request, ids: seq<PolicyId>, n: nat)
    requires n <= |ids|
  {
    forall m :: 0 <= m < n && TakesPart(q, ids[m].kind) ==> Silent(q, ids[m])
  }

  predicate NoneTakesPart(q: Request, ids: seq<PolicyId>, n: nat)
    requires n <= |ids|
  {
    forall m :: 0 <= m < n ==> !TakesPart(q, ids[m].kind)
  }

  predicate DefaultIsKnown(tier: Tier) {
    ReadsAs(tier.defaultAction, "allow") || ReadsAs(tier.defaultAction, "deny") || ReadsAs(tier.defaultAction, "pass")
  }

  /** Evaluation gets as far as the n-th policy: it takes part, and any before it are silent, which
      leaves the tier's default action to be known. */
  ghost predicate GetsTo(q: Request, tier: Tier, n: nat) {
    var ids := Ids(q, tier);
    && n < |ids| && TakesPart(q, ids[n].kind) && SilentBefore(q, ids, n)
    && (NoneTakesPart(q, ids, n) || DefaultIsKnown(tier))
  }

  /** The n-th policy is the first to take part. */
  ghost predicate IsFirst(q: Request, tier: Tier, n: nat) {
    var ids := Ids(q, tier);
    n < |ids| && TakesPart(q, ids[n].kind) && NoneTakesPart(q, ids, n)
  }

  /** How a tier can go: a rule of a policy settles it, the default action does, no policy takes part,
      or it cannot be worked out, since a policy is missing, a rule is garbled, or the default is not
      known. */
  datatype TierCase =
    | ByRule(n: nat, i: nat, action: Action)
    | ByDefault(n: nat)
    | Absent
    | Lost(n: nat)
    | Unclear(n: nat, i: nat)
    | BadDefault(n: nat)

  ghost predicate TierHas(q: Request, tier: Tier, x: TierCase) {
    var ids := Ids(q, tier);
    match x
    case ByRule(n, i, a) => GetsTo(q, tier, n) && PolicySays(q, ids[n], i, a)
    case ByDefault(n) => IsFirst(q, tier, n) && SilentBefore(q, ids, |ids|) && DefaultIsKnown(tier)
    case Absent => NoneTakesPart(q, ids, |ids|)
    case Lost(n) => GetsTo(q, tier, n) && ids[n] !in q.store.policies
    case Unclear(n, i) => GetsTo(q, tier, n) && PolicyGarbled(q, ids[n], i)
    case BadDefault(n) => IsFirst(q, tier, n) && Silent(q, ids[n]) && !DefaultIsKnown(tier)
  }

  function EntryOf(q: Request, tier: Tier, id: PolicyId, index: int, a: Action): RuleId {
    RuleId(id.kind, tier.name, id.name, id.namespace, index, q.egress, a)
  }

  function DefaultEntry(q: Request, tier: Tier, id: PolicyId): RuleId {
    EntryOf(q, tier, id, -1,
            if ReadsAs(tier.defaultAction, "allow") then Allow
            else if ReadsAs(tier.defaultAction, "deny") then Deny
            else Pass)
  }

  ghost function TierGives(q: Request, tier: Tier, x: TierCase): TierOutcome
    requires TierHas(q, tier, x)
  {
    var ids := Ids(q, tier);
    match x
    case ByRule(n, i, a) =>
      var e := EntryOf(q, tier, ids[n], i, a);
      if a == Allow then Stop(OK, [e]) else if a == Deny then Stop(PERMISSION_DENIED, [e]) else Next([e])
    case ByDefault(n) =>
      var e := DefaultEntry(q, tier, ids[n]);
      if tier.defaultAction == "Pass" then Next([e]) else Stop(PERMISSION_DENIED, [e])
    case Absent => Next([])
    case Lost(_) => Stop(INTERNAL, [])
    case Unclear(_, _) => Stop(INVALID_ARGUMENT, [])
    case BadDefault(_) => Stop(INVALID_ARGUMENT, [])
  }

  ghost function WalkFrom(q: Request, tier: Tier, n: nat, fallback: Option<RuleId>): TierOutcome
    requires n <= |Ids(q, tier)|
  {
    Walk(Ids(q, tier)[n..], q.scope, q.store, tier, q.egress, q.flow, fallback)
  }

  /** What is owed once the policies before the n-th were silent, if the f-th is the first to take part. */
  function Owed(q: Request, tier: Tier, n: nat, f: nat): Option<RuleId>
    requires f < n ==> f < |Ids(q, tier)|
  {
    if f < n then Some(DefaultEntry(q, tier, Ids(q, tier)[f])) else None
  }

  lemma SilentExactly(q: Request, id: PolicyId)
    requires Silent(q, id)
    ensures PolicyVerdict(q.store.policies[id], q.egress, q.flow, q.store.refs) == NoMatch
  {
    var p := q.store.policies[id];
    SaysSettles(PolicyRules(q, p), p.namespace, q.flow, q.store.refs, |PolicyRules(q, p)|);
  }

  /** Silent policies, and those that take no part, are walked over. */
  lemma {:induction false} WalkTo(q: Request, tier: Tier, n: nat, f: nat)
    requires var ids := Ids(q, tier); n <= |ids| && f <= |ids| && SilentBefore(q, ids, n) && NoneTakesPart(q, ids, f)
    requires f < n ==> IsFirst(q, tier, f) && DefaultIsKnown(tier)
    ensures TierEnd(q.scope, q.store, tier, q.egress, q.flow) == WalkFrom(q, tier, n, Owed(q, tier, n, f))
  {
    var ids := Ids(q, tier);
    if n == 0 {
      assert ids[0..] == ids;
    } else {
      WalkTo(q, tier, n - 1, f);
      assert ids[n - 1..][0] == ids[n - 1] && ids[n - 1..][1..] == ids[n..];
      if TakesPart(q, ids[n - 1].kind) {
        SilentExactly(q, ids[n - 1]);
        DefaultWordsExactly(tier.defaultAction);
      }
    }
  }

  /** The first policy to take part, or the end of the list. */
  lemma {:induction false} FirstPart(q: Request, tier: Tier, from: nat) returns (f: nat)
    requires from <= |Ids(q, tier)| && NoneTakesPart(q, Ids(q, tier), from)
    ensures f <= |Ids(q, tier)| && NoneTakesPart(q, Ids(q, tier), f) && (f < |Ids(q, tier)| ==> IsFirst(q, tier, f))
    decreases |Ids(q, tier)| - from
  {
    var ids := Ids(q, tier);
    if from < |ids| && !TakesPart(q, ids[from].kind) {
      f := FirstPart(q, tier, from + 1);
    } else {
      f := from;
    }
  }

  lemma WalkToPolicy(q: Request, tier: Tier, n: nat) returns (fallback: Option<RuleId>)
    requires GetsTo(q, tier, n)
    ensures TierEnd(q.scope, q.store, tier, q.egress, q.flow) == WalkFrom(q, tier, n, fallback)
    ensures Ids(q, tier)[n..][0] == Ids(q, tier)[n]
  {
    var f := FirstPart(q, tier, 0);
    WalkTo(q, tier, n, f);
    fallback := Owed(q, tier, n, f);
  }

  lemma RuleSettles(q: Request, tier: Tier, n: nat, i: nat, a: Action)
    requires TierHas(q, tier, ByRule(n, i, a))
    ensures TierEnd(q.scope, q.store, tier, q.egress, q.flow) == TierGives(q, tier, ByRule(n, i, a))
  {
    var _ := WalkToPolicy(q, tier, n);
    var p := q.store.policies[Ids(q, tier)[n]];
    SaysSettles(PolicyRules(q, p), p.namespace, q.flow, q.store.refs, i);
  }

  lemma GarbledSettles(q: Request, tier: Tier, n: nat, i: nat)
    requires TierHas(q, tier, Unclear(n, i))
    ensures TierEnd(q.scope, q.store, tier, q.egress, q.flow) == Stop(INVALID_ARGUMENT, [])
  {
    var _ := WalkToPolicy(q, tier, n);
    var p := q.store.policies[Ids(q, tier)[n]];
    SaysSettles(PolicyRules(q, p), p.namespace, q.flow, q.store.refs, i);
  }

  /** Whichever case a tier is, it ends as that case says. */
  lemma TierSettles(q: Request, tier: Tier, x: TierCase)
    requires TierHas(q, tier, x)
    ensures TierEnd(q.scope, q.store, tier, q.egress, q.flow) == TierGives(q, tier, x)
  {
    var ids := Ids(q, tier);
    match x {
      case ByRule(n, i, a) => RuleSettles(q, tier, n, i, a);
      case ByDefault(n) => WalkTo(q, tier, |ids|, n);
      case Absent => WalkTo(q, tier, |ids|, |ids|);
      case Lost(n) => var _ := WalkToPolicy(q, tier, n);
      case Unclear(n, i) => GarbledSettles(q, tier, n, i);
      case BadDefault(n) =>
        WalkTo(q, tier, n, n);
        assert ids[n..][0] == ids[n];
        SilentExactly(q, ids[n]);
        DefaultWordsExactly(tier.defaultAction);
    }
  }

  /** A policy that is there has a say, is garbled, or is silent. */
  lemma PolicyCase(q: Request, id: PolicyId) returns (i: nat, a: Action)
    requires id in q.store.policies
    ensures Silent(q, id) || PolicyGarbled(q, id, i) || PolicySays(q, id, i, a)
  {
    var p := q.store.policies[id];
    i, a := RulesCase(PolicyRules(q, p), p.namespace, q.flow, q.store.refs);
  }

  lemma RulesCase(rules: seq<Rule>, ns: string, flow: Flow, refs: References) returns (i: nat, a: Action)
    ensures || NoneBefore(rules, ns, flow, refs, |rules|) || Garbled(rules, ns, flow, refs, i)
            || (a != Log && Says(rules, ns, flow, refs, i, WordsFor(a)))
  {
    i := FirstSay(rules, ns, flow, refs, 0);
    a := Allow;
    if i < |rules| && !Garbled(rules, ns, flow, refs, i) {
      var text := rules[i].action;
      assert RuleApplies(rules[i], ns, flow, refs);
      a := if ReadsAs(text, "allow") then Allow else if ReadsAs(text, "deny") then Deny else Pass;
      assert "allow" in WordsFor(Allow) && "deny" in WordsFor(Deny);
      assert "pass" in WordsFor(Pass) && "next-tier" in WordsFor(Pass);
    }
  }

  /** Every tier is one of the cases. */
  lemma {:induction false} SomeCase(q: Request, tier: Tier, from: nat) returns (x: TierCase)
    requires var ids := Ids(q, tier); from <= |ids| && SilentBefore(q, ids, from)
    requires NoneTakesPart(q, Ids(q, tier), from) || DefaultIsKnown(tier)
    ensures TierHas(q, tier, x)
    decreases |Ids(q, tier)| - from
  {
    var ids := Ids(q, tier);
    if from == |ids| {
      var f := FirstPart(q, tier, 0);
      x := if f < |ids| then ByDefault(f) else Absent;
    } else if !TakesPart(q, ids[from].kind) {
      x := SomeCase(q, tier, from + 1);
    } else if ids[from] !in q.store.policies {
      x := Lost(from);
    } else {
      var i, a := PolicyCase(q, ids[from]);
      if PolicyGarbled(q, ids[from], i) { x := Unclear(from, i); }
      else if PolicySays(q, ids[from], i, a) { x := ByRule(from, i, a); }
      else if DefaultIsKnown(tier) { x := SomeCase(q, tier, from + 1); }
      else { x := BadDefault(from); }
    }
  }

  // ---------- The profiles ----------

  /** The profile has nothing to add: it is not there, or none of its rules has a say. */
  ghost predicate ProfileSilent(q: Request, name: string) {
    name in q.store.profiles ==>
      var rules := ProfileRules(q, q.store.profiles[name]);
      NoneBefore(rules, "", q.flow, q.store.refs, |rules|)
  }

  ghost predicate ProfilesSilent(q: Request, names: seq<string>, n: nat)
    requires n <= |names|
  {
    forall m :: 0 <= m < n ==> ProfileSilent(q, names[m])
  }

  ghost predicate ProfileSays(q: Request, names: seq<string>, n: nat, i: nat, a: Action) {
    && n < |names| && ProfilesSilent(q, names, n) && names[n] in q.store.profiles && a != Log
    && Says(ProfileRules(q, q.store.profiles[names[n]]), "", q.flow, q.store.refs, i, WordsFor(a))
  }

  ghost predicate ProfileGarbled(q: Request, names: seq<string>, n: nat, i: nat) {
    && n < |names| && ProfilesSilent(q, names, n) && names[n] in q.store.profiles
    && Garbled(ProfileRules(q, q.store.profiles[names[n]]), "", q.flow, q.store.refs, i)
  }

  lemma {:induction false} ProfilesTo(q: Request, names: seq<string>, n: nat)
    requires n <= |names| && ProfilesSilent(q, names, n)
    ensures Profiles(names, q.store, q.egress, q.flow) == Profiles(names[n..], q.store, q.egress, q.flow)
  {
    if n == 0 {
      assert names[0..] == names;
    } else {
      ProfilesTo(q, names, n - 1);
      assert names[n - 1..][0] == names[n - 1] && names[n - 1..][1..] == names[n..];
      if names[n - 1] in q.store.profiles {
        var rules := ProfileRules(q, q.store.profiles[names[n - 1]]);
        SaysSettles(rules, "", q.flow, q.store.refs, |rules|);
      }
    }
  }

  // ---------- The evaluation ----------

  /** A step of the evaluation: one tier, and after the tiers what the profiles say. */
  datatype Step =
    | AtTier(t: nat, x: TierCase)
    | AtProfile(n: nat, i: nat, action: Action)
    | ProfileUnclear(n: nat, i: nat)
    | ProfilesEnd

  /** The tier hands on to the next one: none of its policies takes part, a rule passes, or its default
      action does. */
  ghost predicate HandsOn(q: Request, tier: Tier) {
    exists x :: TierHas(q, tier, x) && TierGives(q, tier, x).Next?
  }

  ghost predicate HandOnBefore(q: Request, tiers: seq<Tier>, t: nat)
    requires t <= |tiers|
  {
    forall u :: 0 <= u < t ==> HandsOn(q, tiers[u])
  }

  /** The evaluation takes this step. */
  ghost predicate Takes(q: Request, ep: Endpoint, y: Step) {
    match y
    case AtTier(t, x) => t < |ep.tiers| && HandOnBefore(q, ep.tiers, t) && TierHas(q, ep.tiers[t], x)
    case AtProfile(n, i, a) => HandOnBefore(q, ep.tiers, |ep.tiers|) && ProfileSays(q, ep.profiles, n, i, a)
    case ProfileUnclear(n, i) => HandOnBefore(q, ep.tiers, |ep.tiers|) && ProfileGarbled(q, ep.profiles, n, i)
    case ProfilesEnd => HandOnBefore(q, ep.tiers, |ep.tiers|) && ProfilesSilent(q, ep.profiles, |ep.profiles|)
  }

  /** And what it adds to the trace, with the status if it is the last. At a profile, to pass is to deny. */
  ghost function Gives(q: Request, ep: Endpoint, y: Step): TierOutcome
    requires Takes(q, ep, y)
  {
    match y
    case AtTier(t, x) => TierGives(q, ep.tiers[t], x)
    case AtProfile(n, i, a) =>
      var e := RuleId("Profile", "__PROFILE__", ep.profiles[n], "", i, q.egress, if a == Allow then Allow else Deny);
      Stop(if a == Allow then OK else PERMISSION_DENIED, [e])
    case ProfileUnclear(_, _) => Stop(INVALID_ARGUMENT, [])
    case ProfilesEnd =>
      if ep.profiles == []
      then Stop(PERMISSION_DENIED, [RuleId("Profile", "__PROFILE__", "__PROFILE__", "", -1, q.egress, Deny)])
      else Stop(PERMISSION_DENIED, [])
  }

  ghost function Answer(q: Request, ep: Endpoint): (Code, seq<RuleId>) {
    Evaluation(q.scope, q.store, Some(ep), q.egress, q.flow)
  }

  /** What comes after the tiers is settled by the profiles. */
  lemma ProfilesSettle(q: Request, ep: Endpoint, y: Step)
    requires Takes(q, ep, y) && !y.AtTier?
    ensures var (code, es) := AfterTiers(ep, q.store, q.egress, q.flow); Gives(q, ep, y) == Stop(code, es)
  {
    var names := ep.profiles;
    match y {
      case AtProfile(n, i, a) =>
        ProfilesTo(q, names, n);
        assert names[n..][0] == names[n];
        SaysSettles(ProfileRules(q, q.store.profiles[names[n]]), "", q.flow, q.store.refs, i);
      case ProfileUnclear(n, i) =>
        ProfilesTo(q, names, n);
        assert names[n..][0] == names[n];
        SaysSettles(ProfileRules(q, q.store.profiles[names[n]]), "", q.flow, q.store.refs, i);
      case ProfilesEnd => ProfilesTo(q, names, |names|);
    }
  }

  /** After the tiers, one of the profile steps is taken. */
  lemma {:induction false} SomeProfileStep(q: Request, ep: Endpoint, from: nat) returns (y: Step)
    requires from <= |ep.profiles| && ProfilesSilent(q, ep.profiles, from) && HandOnBefore(q, ep.tiers, |ep.tiers|)
    ensures Takes(q, ep, y) && !y.AtTier?
    decreases |ep.profiles| - from
  {
    var names := ep.profiles;
    if from == |names| {
      y := ProfilesEnd;
    } else if names[from] !in q.store.profiles {
      y := SomeProfileStep(q, ep, from + 1);
    } else {
      var rules := ProfileRules(q, q.store.profiles[names[from]]);
      var i, a := RulesCase(rules, "", q.flow, q.store.refs);
      if Garbled(rules, "", q.flow, q.store.refs, i) { y := ProfileUnclear(from, i); }
      else if a != Log && Says(rules, "", q.flow, q.store.refs, i, WordsFor(a)) { y := AtProfile(from, i, a); }
      else { y := SomeProfileStep(q, ep, from + 1); }
    }
  }

  lemma HandsOnExactly(q: Request, tier: Tier)
    ensures HandsOn(q, tier) <==> TierEnd(q.scope, q.store, tier, q.egress, q.flow).Next?
  {
    var x := SomeCase(q, tier, 0);
    TierSettles(q, tier, x);
    if HandsOn(q, tier) {
      var z :| TierHas(q, tier, z) && TierGives(q, tier, z).Next?;
      TierSettles(q, tier, z);
    }
  }

  /** The step is one at a tier, and gives the entry. */
  ghost predicate GivenBy(q: Request, ep: Endpoint, y: Step, e: RuleId) {
    y.AtTier? && Takes(q, ep, y) && e in Gives(q, ep, y).entries
  }

  /** Some step of a tier before the t-th gave the entry. */
  ghost predicate GivenBefore(q: Request, ep: Endpoint, t: nat, e: RuleId) {
    exists y :: GivenBy(q, ep, y, e) && y.t < t
  }

  lemma StepAtTier(q: Request, ep: Endpoint, t: nat, x: TierCase, e: RuleId)
    requires t < |ep.tiers| && HandOnBefore(q, ep.tiers, t) && TierHas(q, ep.tiers[t], x)
    ensures GivenBy(q, ep, AtTier(t, x), e) <==>
            e in TierEnd(q.scope, q.store, ep.tiers[t], q.egress, q.flow).entries
  {
    TierSettles(q, ep.tiers[t], x);
  }

  lemma GivenOneMore(q: Request, ep: Endpoint, t: nat, e: RuleId)
    requires t < |ep.tiers| && HandOnBefore(q, ep.tiers, t)
    ensures GivenBefore(q, ep, t + 1, e) <==>
            || GivenBefore(q, ep, t, e)
            || e in TierEnd(q.scope, q.store, ep.tiers[t], q.egress, q.flow).entries
  {
    var x := SomeCase(q, ep.tiers[t], 0);
    StepAtTier(q, ep, t, x, e);
    if y :| GivenBy(q, ep, y, e) && y.t == t {
      StepAtTier(q, ep, t, y.x, e);
    }
  }

  /** While every tier hands on, the answer is what they gave and then the answer of the rest. */
  lemma {:induction false} Reaches(q: Request, ep: Endpoint, t: nat) returns (before: seq<RuleId>)
    requires t <= |ep.tiers| && HandOnBefore(q, ep.tiers, t)
    ensures Answer(q, ep) == Append(before, Tiers(ep.tiers[t..], q.scope, q.store, ep, q.egress, q.flow))
    ensures forall e :: e in before <==> GivenBefore(q, ep, t, e)
  {
    if t == 0 {
      before := [];
      assert ep.tiers[0..] == ep.tiers;
      assert [] + Answer(q, ep).1 == Answer(q, ep).1;
    } else {
      var earlier := Reaches(q, ep, t - 1);
      before := ReachesNext(q, ep, t - 1, earlier);
    }
  }

  lemma ReachesNext(q: Request, ep: Endpoint, t: nat, earlier: seq<RuleId>) returns (before: seq<RuleId>)
    requires t < |ep.tiers| && HandOnBefore(q, ep.tiers, t + 1)
    requires Answer(q, ep) == Append(earlier, Tiers(ep.tiers[t..], q.scope, q.store, ep, q.egress, q.flow))
    requires forall e :: e in earlier <==> GivenBefore(q, ep, t, e)
    ensures Answer(q, ep) == Append(before, Tiers(ep.tiers[t + 1..], q.scope, q.store, ep, q.egress, q.flow))
    ensures forall e :: e in before <==> GivenBefore(q, ep, t + 1, e)
  {
    var given := TierEnd(q.scope, q.store, ep.tiers[t], q.egress, q.flow).entries;
    before := earlier + given;
    forall e
      ensures e in before <==> GivenBefore(q, ep, t + 1, e)
    {
      GivenOneMore(q, ep, t, e);
      InEither(e, earlier, given);
    }
    AppendTier(earlier, ep.tiers[t..], q.scope, q.store, ep, q.egress, q.flow);
    assert ep.tiers[t..][0] == ep.tiers[t] && ep.tiers[t..][1..] == ep.tiers[t + 1..];
    HandsOnExactly(q, ep.tiers[t]);
  }

  lemma InEither(e: RuleId, a: seq<RuleId>, b: seq<RuleId>)
    ensures e in a + b <==> e in a || e in b
  {
  }

  /** A step that ends the evaluation gives its status, and the end of its trace. */
  lemma StopSettles(q: Request, ep: Endpoint, y: Step) returns (before: seq<RuleId>)
    requires Takes(q, ep, y) && Gives(q, ep, y).Stop?
    ensures Answer(q, ep) == (Gives(q, ep, y).code, before + Gives(q, ep, y).entries)
    ensures forall e :: e in before <==> GivenBefore(q, ep, if y.AtTier? then y.t else |ep.tiers|, e)
  {
    var t := if y.AtTier? then y.t else |ep.tiers|;
    before := Reaches(q, ep, t);
    if y.AtTier? {
      TierSettles(q, ep.tiers[t], y.x);
      assert ep.tiers[t..][0] == ep.tiers[t];
    } else {
      ProfilesSettle(q, ep, y);
    }
  }

  /** Some step ends the evaluation. */
  lemma {:induction false} SomeStop(q: Request, ep: Endpoint, from: nat) returns (y: Step)
    requires from <= |ep.tiers| && HandOnBefore(q, ep.tiers, from)
    ensures Takes(q, ep, y) && Gives(q, ep, y).Stop?
    decreases |ep.tiers| - from
  {
    if from == |ep.tiers| {
      y := SomeProfileStep(q, ep, 0);
    } else if HandsOn(q, ep.tiers[from]) {
      y := SomeStop(q, ep, from + 1);
    } else {
      var x := SomeCase(q, ep.tiers[from], 0);
      y := AtTier(from, x);
    }
  }

  // ---------- What the status and the trace mean ----------

  /** The status is that of any step that ends the evaluation. */
  lemma StatusExactly(q: Request, ep: Endpoint, code: Code)
    ensures Answer(q, ep).0 == code <==>
            exists y :: Takes(q, ep, y) && Gives(q, ep, y).Stop? && Gives(q, ep, y).code == code
  {
    var y := SomeStop(q, ep, 0);
    var _ := StopSettles(q, ep, y);
    if z :| Takes(q, ep, z) && Gives(q, ep, z).Stop? && Gives(q, ep, z).code == code {
      var _ := StopSettles(q, ep, z);
    }
  }

  /** The trace holds exactly what the steps give: a rule's entry for each rule that settles a tier or
      ends the profiles, and an entry for each default action that is reached. */
  lemma TraceExactly(q: Request, ep: Endpoint, e: RuleId)
    ensures e in Answer(q, ep).1 <==> exists y :: Takes(q, ep, y) && e in Gives(q, ep, y).entries
  {
    var y := SomeStop(q, ep, 0);
    var before := StopSettles(q, ep, y);
    if z :| Takes(q, ep, z) && e in Gives(q, ep, z).entries {
      StepBeforeStop(q, ep, y, z, e);
    }
  }

  /** A step is one of a tier before the stop, or gives what the stop gives. */
  lemma StepBeforeStop(q: Request, ep: Endpoint, y: Step, z: Step, e: RuleId)
    requires Takes(q, ep, y) && Gives(q, ep, y).Stop? && Takes(q, ep, z) && e in Gives(q, ep, z).entries
    ensures GivenBefore(q, ep, if y.AtTier? then y.t else |ep.tiers|, e) || e in Gives(q, ep, y).entries
  {
    if y.AtTier? {
      HandsOnExactly(q, ep.tiers[y.t]);
      TierSettles(q, ep.tiers[y.t], y.x);
      if z.AtTier? && z.t == y.t { TierSettles(q, ep.tiers[z.t], z.x); }
    } else if !z.AtTier? {
      ProfilesSettle(q, ep, y);
      ProfilesSettle(q, ep, z);
    }
  }

  /** Where a rule of the endpoint stands. */
  datatype Place = InPolicy(t: nat, n: nat) | InProfile(n: nat)

  /** The i-th rule there is reached, applies, and reads as the action; every rule before it in its
      list does not apply or reads "log". */
  ghost predicate Decisive(q: Request, ep: Endpoint, at: Place, i: nat, a: Action) {
    match at
    case InPolicy(t, n) => Takes(q, ep, AtTier(t, ByRule(n, i, a)))
    case InProfile(n) => Takes(q, ep, AtProfile(n, i, a))
  }

  function PlaceEntry(q: Request, ep: Endpoint, at: Place, i: nat, a: Action): RuleId
    requires match at
             case InPolicy(t, n) => t < |ep.tiers| && n < |Ids(q, ep.tiers[t])|
             case InProfile(n) => n < |ep.profiles|
  {
    match at
    case InPolicy(t, n) => EntryOf(q, ep.tiers[t], Ids(q, ep.tiers[t])[n], i, a)
    case InProfile(n) => RuleId("Profile", "__PROFILE__", ep.profiles[n], "", i, q.egress, a)
  }

  /** Access is granted exactly if a rule that reads "allow" is decisive, and then the trace ends with
      that rule. */
  lemma GrantedExactly(q: Request, ep: Endpoint)
    ensures var (code, trace) := Answer(q, ep);
            && (code == OK <==> exists at: Place, i: nat :: Decisive(q, ep, at, i, Allow))
            && forall at: Place, i: nat :: Decisive(q, ep, at, i, Allow) ==>
                 trace != [] && trace[|trace| - 1] == PlaceEntry(q, ep, at, i, Allow)
  {
    var y := SomeStop(q, ep, 0);
    var _ := StopSettles(q, ep, y);
    if Answer(q, ep).0 == OK {
      assert Decisive(q, ep, if y.AtTier? then InPolicy(y.t, y.x.n) else InProfile(y.n),
                      if y.AtTier? then y.x.i else y.i, Allow);
    }
    forall at: Place, i: nat | Decisive(q, ep, at, i, Allow)
      ensures var (code, trace) := Answer(q, ep);
              code == OK && trace != [] && trace[|trace| - 1] == PlaceEntry(q, ep, at, i, Allow)
    {
      var _ := StopSettles(q, ep, StepOf(at, i, Allow));
    }
  }

  function StepOf(at: Place, i: nat, a: Action): Step {
    match at
    case InPolicy(t, n) => AtTier(t, ByRule(n, i, a))
    case InProfile(n) => AtProfile(n, i, a)
  }

  /** A decisive rule that reads "deny", or at a profile "pass" or "next-tier", denies access, and the
      trace ends with it as a deny. One that passes in a tier is in the trace as a pass. */
  lemma DeniedByRule(q: Request, ep: Endpoint, at: Place, i: nat, a: Action)
    requires Decisive(q, ep, at, i, a) && a != Allow
    ensures var (code, trace) := Answer(q, ep);
            if a == Deny || at.InProfile? then
              code == PERMISSION_DENIED && trace != [] && trace[|trace| - 1] == PlaceEntry(q, ep, at, i, Deny)
            else PlaceEntry(q, ep, at, i, Pass) in trace
  {
    if a == Deny || at.InProfile? {
      var _ := StopSettles(q, ep, StepOf(at, i, a));
    } else {
      TraceExactly(q, ep, PlaceEntry(q, ep, at, i, Pass));
      assert Takes(q, ep, StepOf(at, i, a));
    }
  }

  /** The t-th tier is reached and left to its default action; the n-th of its policies is the first to
      take part. */
  ghost predicate Defaults(q: Request, ep: Endpoint, t: nat, n: nat) {
    Takes(q, ep, AtTier(t, ByDefault(n)))
  }

  lemma DeniedOnlyBy(q: Request, ep: Endpoint)
    requires Answer(q, ep).0 == PERMISSION_DENIED
    ensures || (exists at: Place, i: nat :: Decisive(q, ep, at, i, Deny))
            || (exists n: nat, i: nat :: Decisive(q, ep, InProfile(n), i, Pass))
            || (exists t: nat, n: nat :: Defaults(q, ep, t, n) && ep.tiers[t].defaultAction != "Pass")
            || Takes(q, ep, ProfilesEnd)
  {
    var y := SomeStop(q, ep, 0);
    var _ := StopSettles(q, ep, y);
    if y.AtTier? && y.x.ByRule? { assert Decisive(q, ep, InPolicy(y.t, y.x.n), y.x.i, Deny); }
    if y.AtTier? && y.x.ByDefault? { assert Defaults(q, ep, y.t, y.x.n); }
    if y.AtProfile? { assert Decisive(q, ep, InProfile(y.n), y.i, y.action); }
  }

  /** Access is denied exactly if such a rule is decisive, a tier is left to a default action other than
      "Pass", or the tiers hand on and no profile has a say. */
  lemma DeniedExactly(q: Request, ep: Endpoint)
    ensures Answer(q, ep).0 == PERMISSION_DENIED <==>
            || (exists at: Place, i: nat :: Decisive(q, ep, at, i, Deny))
            || (exists n: nat, i: nat :: Decisive(q, ep, InProfile(n), i, Pass))
            || (exists t: nat, n: nat :: Defaults(q, ep, t, n) && ep.tiers[t].defaultAction != "Pass")
            || Takes(q, ep, ProfilesEnd)
  {
    if Answer(q, ep).0 == PERMISSION_DENIED { DeniedOnlyBy(q, ep); }
    if at: Place, i: nat :| Decisive(q, ep, at, i, Deny) { DeniedByRule(q, ep, at, i, Deny); }
    if n: nat, i: nat :| Decisive(q, ep, InProfile(n), i, Pass) { DeniedByRule(q, ep, InProfile(n), i, Pass); }
    if t: nat, n: nat :| Defaults(q, ep, t, n) && ep.tiers[t].defaultAction != "Pass" {
      var _ := StopSettles(q, ep, AtTier(t, ByDefault(n)));
    }
    if Takes(q, ep, ProfilesEnd) { var _ := StopSettles(q, ep, ProfilesEnd); }
  }
}
