/** The calculation of which policies and profiles are active on this host
    (felix/calc/active_rules_calculator.go:152-295, 338-353 and 355-566). Policies match
    endpoints through a label index, which reports each match when it starts and when it
    stops; the rule scanner is told which rules are in force. */
module ActiveRules {

  type PolicyKey = nat
  type EndpointKey = nat
  type ProfileId = nat

  /** forced is the performance hint that a policy is needed on every node. */
  datatype Policy = Policy(rules: nat, forced: bool)

  datatype ProfileRules = ProfileRules(rules: nat) | DummyDropRules

  datatype Label = Endpoint(key: EndpointKey) | ForceProgrammed

  datatype Match = Match(policy: PolicyKey, endpoint: EndpointKey)

  /** A callback from the label index. */
  datatype MatchEvent = Started(m: Match) | Stopped(m: Match)

  datatype Option<T> = None | Some(value: T)

  // ---------- Multidicts ----------

  function Put<K, V>(md: map<K, set<V>>, k: K, v: V): map<K, set<V>> {
    md[k := if k in md then md[k] + {v} else {v}]
  }

  function Discard<K, V>(md: map<K, set<V>>, k: K, v: V): map<K, set<V>> {
    if k !in md then md
    else if md[k] - {v} == {} then md - {k}
    else md[k := md[k] - {v}]
  }

  ghost predicate Has<K, V>(md: map<K, set<V>>, k: K, v: V) {
    k in md && v in md[k]
  }

  /** No key is kept without values. */
  ghost predicate Tidy<K(!new), V>(md: map<K, set<V>>) {
    forall k :: k in md ==> md[k] != {}
  }

  lemma PutHas<K(!new), V(!new)>(md: map<K, set<V>>, k: K, v: V)
    requires Tidy(md)
    ensures Tidy(Put(md, k, v)) && Put(md, k, v).Keys == md.Keys + {k}
    ensures forall a, b :: Has(Put(md, k, v), a, b) <==> Has(md, a, b) || (a == k && b == v)
  {
  }

  lemma DiscardHas<K(!new), V(!new)>(md: map<K, set<V>>, k: K, v: V)
    requires Tidy(md)
    ensures Tidy(Discard(md, k, v)) && Discard(md, k, v).Keys + {k} == md.Keys + {k}
    ensures forall a, b :: Has(Discard(md, k, v), a, b) <==> Has(md, a, b) && !(a == k && b == v)
  {
    if k in md && md[k] - {v} == {} {
      assert forall b :: b in md[k] ==> b == v || b in md[k] - {v};
    }
  }

  // ---------- What the label index reports ----------

  /** Every start is of a match that was not there, for a policy whose selector is known; every
      stop is of one that was. */
  ghost predicate ReportedOnce(matches: set<Match>, events: seq<MatchEvent>, known: set<PolicyKey>)
    decreases |events|
  {
    events != [] ==>
      match events[0]
      case Started(m) => m !in matches && m.policy in known && ReportedOnce(matches + {m}, events[1..], known)
      case Stopped(m) => m in matches && ReportedOnce(matches - {m}, events[1..], known)
  }

  ghost function AfterEvents(matches: set<Match>, events: seq<MatchEvent>): set<Match>
    decreases |events|
  {
    if events == [] then matches
    else AfterEvents(if events[0].Started? then matches + {events[0].m} else matches - {events[0].m}, events[1..])
  }

  // ---------- Changes to an endpoint's profiles ----------

  /** EndpointKeyToProfileIDMap.Update: what to drop and what to add. A profile named twice in
      the new list counts as added even if it was there before. */
  method ProfileDelta(oldIds: seq<ProfileId>, newIds: seq<ProfileId>)
    returns (removed: set<ProfileId>, added: set<ProfileId>)
    ensures forall id :: id in removed <==> id in oldIds && id !in newIds
    ensures forall id :: id in added <==> id in newIds && (id !in oldIds || multiset(newIds)[id] >= 2)
  {
    removed, added := {}, {};
    for i := 0 to |oldIds|
      invariant forall id :: id in removed <==> id in oldIds[..i]
    {
      removed := removed + {oldIds[i]};
    }
    assert oldIds[..|oldIds|] == oldIds;
    for i := 0 to |newIds|
      invariant forall id :: id in removed <==> id in oldIds && id !in newIds[..i]
      invariant forall id :: id in added <==> id in newIds[..i] && (id !in oldIds || multiset(newIds[..i])[id] >= 2)
    {
      assert newIds[..i + 1] == newIds[..i] + [newIds[i]];
      assert newIds[i] in newIds[..i] <==> multiset(newIds[..i])[newIds[i]] >= 1;
      if newIds[i] in removed {
        removed := removed - {newIds[i]};
      } else {
        added := added + {newIds[i]};
      }
    }
    assert newIds[..|newIds|] == newIds;
  }

  // ---------- The calculator ----------

  class ActiveRulesCalculator {
    var policies: map<PolicyKey, Policy>
    var profileRules: map<ProfileId, ProfileRules>
    var policyMatches: map<PolicyKey, set<Label>>
    var profileUsers: map<ProfileId, set<EndpointKey>>
    var endpointProfiles: map<EndpointKey, seq<ProfileId>>
    var inSync: bool
    var missingProfiles: set<ProfileId>

    /** The scanner's view: what it was last told is active, and with which rules. */
    var scannerPolicies: map<PolicyKey, Policy>
    var scannerProfiles: map<ProfileId, ProfileRules>

    /** What the label index has reported, and which policies hold a dummy match. */
    ghost var matches: set<Match>
    ghost var forced: set<PolicyKey>

    // ---- What the answer should be, from the inputs alone ----

    /** The scanner holds exactly the policies that match some local endpoint or are
        force-programmed, each as last stored. */
    ghost predicate RightPolicies()
      reads `policies, `scannerPolicies, `matches
    {
      && (forall k :: k in scannerPolicies <==>
            k in policies && (policies[k].forced || exists e :: Match(k, e) in matches))
      && (forall k :: k in scannerPolicies ==> scannerPolicies[k] == policies[k])
    }

    ghost predicate Uses(e: EndpointKey, id: ProfileId)
      reads `endpointProfiles
    {
      e in endpointProfiles && id in endpointProfiles[e]
    }

    ghost predicate Used(id: ProfileId)
      reads `endpointProfiles
    {
      exists e :: Uses(e, id)
    }

    /** The scanner holds exactly the profiles that some endpoint uses, each with its stored
        rules, or the drop rules if there are none. */
    ghost predicate RightProfiles()
      reads `endpointProfiles, `profileRules, `scannerProfiles
    {
      && (forall id :: id in scannerProfiles <==> Used(id))
      && (forall id :: id in scannerProfiles ==>
            scannerProfiles[id] == if id in profileRules then profileRules[id] else DummyDropRules)
    }

    /** Before the first sync, the profiles to complain about are those in use and unknown. */
    ghost predicate RightMissing()
      reads `endpointProfiles, `profileRules, `missingProfiles, `inSync
    {
      forall id :: id in missingProfiles <==> !inSync && id !in profileRules && Used(id)
    }

    // ---- The invariant ----

    ghost predicate MatchesFiled()
      reads `policyMatches, `matches, `forced
    {
      && Tidy(policyMatches)
      && (forall k, e :: Has(policyMatches, k, Endpoint(e)) <==> Match(k, e) in matches)
      && (forall k :: Has(policyMatches, k, ForceProgrammed) <==> k in forced)
    }

    /** The scanner and the calculator agree on which policies are active, and, but for the
        policy being updated, on their rules. */
    ghost predicate PoliciesTold(updating: set<PolicyKey>)
      reads `policies, `scannerPolicies, `policyMatches
    {
      && scannerPolicies.Keys == policyMatches.Keys
      && (forall k :: k in scannerPolicies && k !in updating ==> k in policies && scannerPolicies[k] == policies[k])
    }

    ghost predicate ProfilesTold()
      reads `profileUsers, `scannerProfiles, `profileRules, `missingProfiles, `inSync
    {
      && Tidy(profileUsers) && scannerProfiles.Keys == profileUsers.Keys
      && (forall id :: id in scannerProfiles ==>
            scannerProfiles[id] == if id in profileRules then profileRules[id] else DummyDropRules)
      && (forall id :: id in missingProfiles <==> !inSync && id in profileUsers && id !in profileRules)
    }

    ghost predicate UsersFiled()
      reads `profileUsers, `endpointProfiles
    {
      forall id, e :: Has(profileUsers, id, e) <==> Uses(e, id)
    }

    ghost predicate Valid()
      reads this
    {
      && MatchesFiled() && PoliciesTold({}) && ProfilesTold() && UsersFiled()
      && (forall k :: k in forced <==> k in policies && policies[k].forced)
      && (forall m :: m in matches ==> m.policy in policies)
    }

    lemma ActiveHasReason(k: PolicyKey)
      requires MatchesFiled() && k in policyMatches
      ensures k in forced || exists e :: Match(k, e) in matches
    {
      var l :| l in policyMatches[k];
      assert Has(policyMatches, k, l);
      if l.Endpoint? { assert Match(k, l.key) in matches; }
    }

    /** The incremental state amounts to the answer computed from scratch. */
    lemma ValidIsRight()
      requires Valid()
      ensures RightPolicies() && RightProfiles() && RightMissing()
    {
      forall k
        ensures k in scannerPolicies <==>
                  k in policies && (policies[k].forced || exists e :: Match(k, e) in matches)
      {
        if k in policyMatches { ActiveHasReason(k); }
        if k in policies && policies[k].forced { assert Has(policyMatches, k, ForceProgrammed); }
        if e :| Match(k, e) in matches { assert Has(policyMatches, k, Endpoint(e)); }
      }
      forall id
        ensures id in profileUsers <==> Used(id)
      {
        if id in profileUsers {
          var e :| e in profileUsers[id];
          assert Has(profileUsers, id, e);
        }
        if e :| Uses(e, id) { assert Has(profileUsers, id, e); }
      }
    }

    /** What the scanner holds depends on what the inputs are, not on the order they came in. */
    lemma HistoryIndependent(that: ActiveRulesCalculator)
      requires Valid() && that.Valid() && inSync == that.inSync
      requires policies == that.policies && matches == that.matches
      requires profileRules == that.profileRules && endpointProfiles == that.endpointProfiles
      ensures scannerPolicies == that.scannerPolicies && scannerProfiles == that.scannerProfiles
      ensures missingProfiles == that.missingProfiles
    {
      ValidIsRight();
      that.ValidIsRight();
      assert scannerPolicies.Keys == that.scannerPolicies.Keys;
      assert scannerProfiles.Keys == that.scannerProfiles.Keys && missingProfiles == that.missingProfiles by {
        forall id ensures Used(id) <==> that.Used(id) {
          if Used(id) { var e :| Uses(e, id); assert that.Uses(e, id); }
          if that.Used(id) { var e :| that.Uses(e, id); assert Uses(e, id); }
        }
      }
    }

    constructor ()
      ensures Valid() && policies == map[] && profileRules == map[] && endpointProfiles == map[]
      ensures matches == {} && !inSync
    {
      policies, profileRules, policyMatches, profileUsers, endpointProfiles := map[], map[], map[], map[], map[];
      inSync, missingProfiles, scannerPolicies, scannerProfiles := false, {}, map[], map[];
      matches, forced := {}, {};
    }

    // ---- Policies ----

    /** sendPolicyUpdate. The panic on an unknown active policy is out of reach. */
    method SendPolicyUpdate(k: PolicyKey, policy: Option<Policy>)
      requires k in policyMatches ==> policy.Some?
      modifies `scannerPolicies
      ensures scannerPolicies == if k in policyMatches then old(scannerPolicies)[k := policy.value]
                                 else old(scannerPolicies) - {k}
    {
      if k in policyMatches {
        scannerPolicies := scannerPolicies[k := policy.value];
      } else {
        scannerPolicies := scannerPolicies - {k};
      }
    }

    function Stored(k: PolicyKey): Option<Policy>
      reads this
    {
      if k in policies then Some(policies[k]) else None
    }

    /** onMatchStarted. The panic on a policy that is not stored is out of reach. */
    method OnMatchStarted(k: PolicyKey, l: Label, ghost updating: set<PolicyKey>)
      requires MatchesFiled() && PoliciesTold(updating) && k in policies
      modifies `policyMatches, `scannerPolicies, `matches, `forced
      ensures MatchesFiled() && PoliciesTold(updating)
      ensures matches == (if l.Endpoint? then old(matches) + {Match(k, l.key)} else old(matches))
      ensures forced == (if l.ForceProgrammed? then old(forced) + {k} else old(forced))
    {
      var wasActive := k in policyMatches;
      PutHas(policyMatches, k, l);
      policyMatches := Put(policyMatches, k, l);
      if l.Endpoint? { matches := matches + {Match(k, l.key)}; } else { forced := forced + {k}; }
      if !wasActive {
        SendPolicyUpdate(k, Stored(k));
      }
    }

    /** onMatchStopped */
    method OnMatchStopped(k: PolicyKey, l: Label, ghost updating: set<PolicyKey>)
      requires MatchesFiled() && PoliciesTold(updating)
      modifies `policyMatches, `scannerPolicies, `matches, `forced
      ensures MatchesFiled() && PoliciesTold(updating)
      ensures matches == (if l.Endpoint? then old(matches) - {Match(k, l.key)} else old(matches))
      ensures forced == (if l.ForceProgrammed? then old(forced) - {k} else old(forced))
    {
      DiscardHas(policyMatches, k, l);
      policyMatches := Discard(policyMatches, k, l);
      if l.Endpoint? { matches := matches - {Match(k, l.key)}; } else { forced := forced - {k}; }
      if k !in policyMatches {
        SendPolicyUpdate(k, Stored(k));
      }
    }

    /** The callbacks of one update of the label index, in order. */
    method HandleEvents(events: seq<MatchEvent>, ghost updating: set<PolicyKey>)
      requires MatchesFiled() && PoliciesTold(updating) && ReportedOnce(matches, events, policies.Keys)
      modifies `policyMatches, `scannerPolicies, `matches, `forced
      ensures MatchesFiled() && PoliciesTold(updating)
      ensures matches == AfterEvents(old(matches), events) && forced == old(forced)
    {
      for i := 0 to |events|
        invariant MatchesFiled() && PoliciesTold(updating) && forced == old(forced)
        invariant ReportedOnce(matches, events[i..], policies.Keys)
        invariant AfterEvents(matches, events[i..]) == AfterEvents(old(matches), events)
      {
        assert events[i..][1..] == events[i + 1..];
        match events[i]
        case Started(m) => OnMatchStarted(m.policy, Endpoint(m.endpoint), updating);
        case Stopped(m) => OnMatchStopped(m.policy, Endpoint(m.endpoint), updating);
      }
    }

    /** The dummy match, the index's callbacks and the final send, for a policy just stored. */
    method MatchStored(k: PolicyKey, policy: Policy, wasForced: bool, events: seq<MatchEvent>)
      requires MatchesFiled() && PoliciesTold({k}) && Stored(k) == Some(policy)
      requires wasForced == (k in forced) && ReportedOnce(matches, events, policies.Keys)
      modifies `policyMatches, `scannerPolicies, `matches, `forced
      ensures MatchesFiled() && PoliciesTold({}) && matches == AfterEvents(old(matches), events)
      ensures forced == if policy.forced then old(forced) + {k} else old(forced) - {k}
    {
      if !wasForced && policy.forced { OnMatchStarted(k, ForceProgrammed, {k}); }
      HandleEvents(events, {k});
      if wasForced && !policy.forced { OnMatchStopped(k, ForceProgrammed, {k}); }
      if k in policyMatches { SendPolicyUpdate(k, Some(policy)); }
    }

    /** The same for a policy just removed: the index gives up its matches. */
    method UnmatchRemoved(k: PolicyKey, wasForced: bool, events: seq<MatchEvent>)
      requires MatchesFiled() && PoliciesTold({k}) && k !in policies
      requires wasForced == (k in forced) && ReportedOnce(matches, events, policies.Keys)
      requires forall e :: Match(k, e) !in AfterEvents(matches, events)
      modifies `policyMatches, `scannerPolicies, `matches, `forced
      ensures MatchesFiled() && PoliciesTold({}) && matches == AfterEvents(old(matches), events)
      ensures forced == old(forced) - {k}
    {
      if wasForced { OnMatchStopped(k, ForceProgrammed, {k}); }
      HandleEvents(events, {k});
      if k in policyMatches {
        ActiveHasReason(k);
        assert false;
      }
    }

    /** OnUpdate for a policy that was added or changed. */
    method OnPolicyUpdate(k: PolicyKey, policy: Policy, events: seq<MatchEvent>)
      requires Valid() && ReportedOnce(matches, events, policies.Keys + {k})
      modifies `policies, `policyMatches, `scannerPolicies, `matches, `forced
      ensures Valid() && RightPolicies() && RightProfiles()
      ensures policies == old(policies)[k := policy]
      ensures matches == if old(Stored(k)) == Some(policy) then old(matches) else AfterEvents(old(matches), events)
    {
      var before := Stored(k);
      if before == Some(policy) {
        assert policies == policies[k := policy];
      } else {
        policies := policies[k := policy];
        assert policies.Keys == old(policies).Keys + {k};
        MatchStored(k, policy, before.Some? && before.value.forced, events);
        EventsKeepKnown(old(matches), events, policies.Keys, policies.Keys);
      }
      ValidIsRight();
    }

    /** OnUpdate for a policy that was deleted. */
    method OnPolicyDelete(k: PolicyKey, events: seq<MatchEvent>)
      requires Valid() && ReportedOnce(matches, events, policies.Keys - {k})
      requires forall e :: Match(k, e) !in AfterEvents(matches, events)
      modifies `policies, `policyMatches, `scannerPolicies, `matches, `forced
      ensures Valid() && RightPolicies() && RightProfiles()
      ensures policies == old(policies) - {k} && matches == AfterEvents(old(matches), events)
    {
      var before := Stored(k);
      policies := policies - {k};
      assert policies.Keys == old(policies).Keys - {k};
      UnmatchRemoved(k, before.Some? && before.value.forced, events);
      EventsKeepKnown(old(matches), events, policies.Keys, old(policies).Keys);
      ValidIsRight();
    }

    /** OnUpdate for anything that only moves labels. */
    method OnLabelsUpdate(events: seq<MatchEvent>)
      requires Valid() && ReportedOnce(matches, events, policies.Keys)
      modifies `policyMatches, `scannerPolicies, `matches, `forced
      ensures Valid() && RightPolicies() && RightProfiles()
      ensures matches == AfterEvents(old(matches), events)
    {
      HandleEvents(events, {});
      EventsKeepKnown(old(matches), events, policies.Keys, policies.Keys);
      ValidIsRight();
    }

    // ---- Profiles ----

    /** sendProfileUpdate */
    method SendProfileUpdate(id: ProfileId, rules: Option<ProfileRules>)
      modifies `scannerProfiles, `missingProfiles
      ensures scannerProfiles == if id in profileUsers
                                 then old(scannerProfiles)[id := if rules.Some? then rules.value else DummyDropRules]
                                 else old(scannerProfiles) - {id}
      ensures missingProfiles == if id in profileUsers && rules.None? && !inSync then old(missingProfiles) + {id}
                                 else old(missingProfiles) - {id}
    {
      var active, known := id in profileUsers, rules.Some?;
      missingProfiles := missingProfiles - {id};
      if active {
        if !known && !inSync {
          missingProfiles := missingProfiles + {id};
        }
        scannerProfiles := scannerProfiles[id := if known then rules.value else DummyDropRules];
      } else {
        scannerProfiles := scannerProfiles - {id};
      }
    }

    function StoredRules(id: ProfileId): Option<ProfileRules>
      reads this
    {
      if id in profileRules then Some(profileRules[id]) else None
    }

    method AddUser(id: ProfileId, e: EndpointKey)
      requires ProfilesTold()
      modifies `profileUsers, `scannerProfiles, `missingProfiles
      ensures ProfilesTold() && profileUsers == Put(old(profileUsers), id, e)
    {
      var wasActive := id in profileUsers;
      PutHas(profileUsers, id, e);
      profileUsers := Put(profileUsers, id, e);
      if !wasActive { SendProfileUpdate(id, StoredRules(id)); }
    }

    method DropUser(id: ProfileId, e: EndpointKey)
      requires ProfilesTold()
      modifies `profileUsers, `scannerProfiles, `missingProfiles
      ensures ProfilesTold() && profileUsers == Discard(old(profileUsers), id, e)
    {
      DiscardHas(profileUsers, id, e);
      profileUsers := Discard(profileUsers, id, e);
      if id !in profileUsers { SendProfileUpdate(id, StoredRules(id)); }
    }

    method AddUsers(e: EndpointKey, added: set<ProfileId>)
      requires ProfilesTold()
      modifies `profileUsers, `scannerProfiles, `missingProfiles
      ensures ProfilesTold()
      ensures forall id, x :: Has(profileUsers, id, x) <==> Has(old(profileUsers), id, x) || (x == e && id in added)
    {
      var todo := added;
      while todo != {}
        invariant ProfilesTold() && todo <= added
        invariant forall id, x :: Has(profileUsers, id, x) <==>
                    Has(old(profileUsers), id, x) || (x == e && id in added - todo)
      {
        var id :| id in todo;
        PutHas(profileUsers, id, e);
        AddUser(id, e);
        todo := todo - {id};
      }
    }

    method DropUsers(e: EndpointKey, removed: set<ProfileId>)
      requires ProfilesTold()
      modifies `profileUsers, `scannerProfiles, `missingProfiles
      ensures ProfilesTold()
      ensures forall id, x :: Has(profileUsers, id, x) <==> Has(old(profileUsers), id, x) && !(x == e && id in removed)
    {
      var todo := removed;
      while todo != {}
        invariant ProfilesTold() && todo <= removed
        invariant forall id, x :: Has(profileUsers, id, x) <==>
                    Has(old(profileUsers), id, x) && !(x == e && id in removed - todo)
      {
        var id :| id in todo;
        DiscardHas(profileUsers, id, e);
        DropUser(id, e);
        todo := todo - {id};
      }
    }

    /** updateEndpointProfileIDs; a deleted endpoint has no profiles. */
    method UpdateEndpointProfiles(e: EndpointKey, ids: seq<ProfileId>)
      requires ProfilesTold() && UsersFiled()
      modifies `endpointProfiles, `profileUsers, `scannerProfiles, `missingProfiles
      ensures ProfilesTold() && UsersFiled()
      ensures endpointProfiles == if ids == [] then old(endpointProfiles) - {e} else old(endpointProfiles)[e := ids]
    {
      var was := if e in endpointProfiles then endpointProfiles[e] else [];
      var removed, added := ProfileDelta(was, ids);
      endpointProfiles := if ids == [] then endpointProfiles - {e} else endpointProfiles[e := ids];
      ghost var users := profileUsers;
      AddUsers(e, added);
      DropUsers(e, removed);
      assert forall id, x :: Has(profileUsers, id, x) <==>
               (Has(users, id, x) || (x == e && id in added)) && !(x == e && id in removed);
    }

    /** OnUpdate for an endpoint: its profiles first, then the label index's callbacks. */
    method OnEndpointUpdate(e: EndpointKey, ids: seq<ProfileId>, events: seq<MatchEvent>)
      requires Valid() && ReportedOnce(matches, events, policies.Keys)
      modifies `endpointProfiles, `profileUsers, `scannerProfiles, `missingProfiles
      modifies `policyMatches, `scannerPolicies, `matches, `forced
      ensures Valid() && RightPolicies() && RightProfiles() && RightMissing()
      ensures matches == AfterEvents(old(matches), events)
      ensures endpointProfiles == if ids == [] then old(endpointProfiles) - {e} else old(endpointProfiles)[e := ids]
    {
      UpdateEndpointProfiles(e, ids);
      HandleEvents(events, {});
      EventsKeepKnown(old(matches), events, policies.Keys, policies.Keys);
      ValidIsRight();
    }

    method StoreRules(id: ProfileId, rules: Option<ProfileRules>)
      requires ProfilesTold()
      modifies `profileRules, `scannerProfiles, `missingProfiles
      ensures ProfilesTold()
      ensures profileRules == if rules.Some? then old(profileRules)[id := rules.value] else old(profileRules) - {id}
    {
      profileRules := if rules.Some? then profileRules[id := rules.value] else profileRules - {id};
      if id in profileUsers { SendProfileUpdate(id, rules); }
    }

    /** OnUpdate for a profile's rules: stored, or None if they were deleted. */
    method OnProfileRulesUpdate(id: ProfileId, rules: Option<ProfileRules>)
      requires Valid()
      modifies `profileRules, `scannerProfiles, `missingProfiles
      ensures Valid() && RightPolicies() && RightProfiles() && RightMissing()
      ensures profileRules == if rules.Some? then old(profileRules)[id := rules.value] else old(profileRules) - {id}
    {
      if rules.Some? && StoredRules(id) == rules {
        assert profileRules == profileRules[id := rules.value];
      } else {
        StoreRules(id, rules);
      }
      ValidIsRight();
    }

    /** OnStatusUpdate */
    method OnInSync()
      requires Valid()
      modifies `inSync, `missingProfiles
      ensures Valid() && inSync && missingProfiles == {} && RightMissing()
    {
      if !inSync {
        inSync := true;
        missingProfiles := {};
      }
      ValidIsRight();
    }
  }

  /** Events add no match of a policy that is not known. */
  lemma {:induction false} EventsKeepKnown(matches: set<Match>, events: seq<MatchEvent>,
                                          known: set<PolicyKey>, among: set<PolicyKey>)
    requires ReportedOnce(matches, events, known) && known <= among
    requires forall m :: m in matches ==> m.policy in among
    ensures forall m :: m in AfterEvents(matches, events) ==> m.policy in among
    decreases |events|
  {
    if events != [] {
      var next := if events[0].Started? then matches + {events[0].m} else matches - {events[0].m};
      EventsKeepKnown(next, events[1..], known, among);
    }
  }
}
