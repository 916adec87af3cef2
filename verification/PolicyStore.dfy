/** The store that policy is read from, and the swap of stores across reconnections
    (app-policy/policystore/store.go:58-166 and app-policy/policystore/process.go:28-245). */
module PolicyStore {

  datatype Option<T> = None | Some(value: T)

  type Id = nat

  /** A message's content, of no further interest here. */
  type Body = nat

  datatype SetType = IP | IP_AND_PORT | NET | UNRECOGNISED

  /** A member of an IP set as it is stored: its text or, in a set of CIDRs, the prefix it is parsed
      to, which other spellings of the same network share. */
  datatype Member = Text(text: string) | Net(v4: bool, prefix: seq<bool>)

  /** The live members of an IP set. */
  datatype IpSet = IpSet(kind: SetType, members: set<Member>)

  datatype Subscription = PerPod | PerHost | OtherSubscription

  /** One message of the Sync API; an id may be missing. */
  datatype Update =
    | IpSetUpdate(set_: string, kind: SetType, members: seq<Member>)
    | IpSetDelta(set_: string, added: seq<Member>, removed: seq<Member>)
    | IpSetRemove(set_: string)
    | ProfileUpdate(id: Option<Id>, body: Body)
    | ProfileRemove(id: Option<Id>)
    | PolicyUpdate(id: Option<Id>, body: Body)
    | PolicyRemove(id: Option<Id>)
    | EndpointUpdate(to: Subscription, endpoint: Id, body: Body)
    | EndpointRemove(to: Subscription, endpoint: Id)
    | ServiceAccountUpdate(id: Option<Id>, body: Body)
    | ServiceAccountRemove(id: Option<Id>)
    | NamespaceUpdate(id: Option<Id>, body: Body)
    | NamespaceRemove(id: Option<Id>)
    | Unknown

  datatype Contents = Contents(
    ipSets: map<string, IpSet>, profiles: map<Id, Body>, policies: map<Id, Body>,
    endpoint: Option<Body>, endpoints: map<Id, Body>, accounts: map<Id, Body>, namespaces: map<Id, Body>)

  const EMPTY := Contents(map[], map[], map[], None, map[], map[], map[])

  // ---------- Applying an update to a value ----------

  function Members(s: seq<Member>): set<Member> { set x | x in s }

  function Put(m: map<Id, Body>, id: Option<Id>, body: Body): map<Id, Body> {
    if id.None? then m else m[id.value := body]
  }

  function Drop(m: map<Id, Body>, id: Option<Id>): map<Id, Body> {
    if id.None? then m else m - {id.value}
  }

  predicate AboutSets(u: Update) {
    u.IpSetUpdate? || u.IpSetDelta? || u.IpSetRemove?
  }

  /** The IP sets after a message about one of them. */
  function SetsAfter(sets: map<string, IpSet>, u: Update): map<string, IpSet>
    requires AboutSets(u)
  {
    match u
    case IpSetUpdate(s, kind, ms) => if kind.UNRECOGNISED? then sets else sets[s := IpSet(kind, Members(ms))]
    case IpSetDelta(s, added, removed) =>
      if s !in sets then sets
      else sets[s := IpSet(sets[s].kind, sets[s].members + Members(added) - Members(removed))]
    case IpSetRemove(s) => sets - {s}
  }

  function Apply(c: Contents, u: Update): Contents {
    match u
    case IpSetUpdate(_, _, _) => c.(ipSets := SetsAfter(c.ipSets, u))
    case IpSetDelta(_, _, _) => c.(ipSets := SetsAfter(c.ipSets, u))
    case IpSetRemove(_) => c.(ipSets := SetsAfter(c.ipSets, u))
    case ProfileUpdate(id, body) => c.(profiles := Put(c.profiles, id, body))
    case ProfileRemove(id) => c.(profiles := Drop(c.profiles, id))
    case PolicyUpdate(id, body) => c.(policies := Put(c.policies, id, body))
    case PolicyRemove(id) => c.(policies := Drop(c.policies, id))
    case EndpointUpdate(to, e, body) => (
      match to
      case PerPod => c.(endpoint := Some(body))
      case PerHost => c.(endpoints := c.endpoints[e := body])
      case OtherSubscription => c
    )
    case EndpointRemove(to, e) => (
      match to
      case PerPod => c.(endpoint := None)
      case PerHost => c.(endpoints := c.endpoints - {e})
      case OtherSubscription => c
    )
    case ServiceAccountUpdate(id, body) => c.(accounts := Put(c.accounts, id, body))
    case ServiceAccountRemove(id) => c.(accounts := Drop(c.accounts, id))
    case NamespaceUpdate(id, body) => c.(namespaces := Put(c.namespaces, id, body))
    case NamespaceRemove(id) => c.(namespaces := Drop(c.namespaces, id))
    case Unknown => c
  }

  /** The updates, in order, onto an empty store. */
  function Replay(us: seq<Update>): Contents {
    if us == [] then EMPTY else Apply(Replay(us[..|us| - 1]), us[|us| - 1])
  }

  // ---------- A store ----------

  method AddAll(members: set<Member>, added: seq<Member>) returns (r: set<Member>)
    ensures r == members + Members(added)
  {
    r := members;
    for i := 0 to |added|
      invariant r == members + Members(added[..i])
    {
      r := r + {added[i]};
    }
    assert added[..|added|] == added;
  }

  method RemoveAll(members: set<Member>, removed: seq<Member>) returns (r: set<Member>)
    ensures r == members - Members(removed)
  {
    r := members;
    for i := 0 to |removed|
      invariant r == members - Members(removed[..i])
    {
      r := r - {removed[i]};
    }
    assert removed[..|removed|] == removed;
  }

  class Store {
    var ipSets: map<string, IpSet>
    var profiles: map<Id, Body>
    var policies: map<Id, Body>
    var endpoint: Option<Body>
    var endpoints: map<Id, Body>
    var accounts: map<Id, Body>
    var namespaces: map<Id, Body>

    ghost function Value(): Contents
      reads this
    {
      Contents(ipSets, profiles, policies, endpoint, endpoints, accounts, namespaces)
    }

    constructor ()
      ensures Value() == EMPTY
    {
      ipSets, profiles, policies, endpoint := map[], map[], map[], None;
      endpoints, accounts, namespaces := map[], map[], map[];
    }

    method ProcessIpSet(u: Update)
      requires AboutSets(u)
      modifies `ipSets
      ensures Value() == Apply(old(Value()), u)
    {
      match u
      case IpSetUpdate(s, kind, ms) =>
        if !kind.UNRECOGNISED? {
          var members := AddAll({}, ms);
          assert members == Members(ms);
          ipSets := ipSets[s := IpSet(kind, members)];
        }
      case IpSetDelta(s, added, removed) =>
        if s in ipSets {
          var members := AddAll(ipSets[s].members, added);
          members := RemoveAll(members, removed);
          ipSets := ipSets[s := ipSets[s].(members := members)];
        }
      case IpSetRemove(s) => ipSets := ipSets - {s};
    }

    /** ProcessUpdate */
    method ProcessUpdate(u: Update)
      modifies this
      ensures Value() == Apply(old(Value()), u)
    {
      match u
      case ProfileUpdate(id, body) => profiles := Put(profiles, id, body);
      case ProfileRemove(id) => profiles := Drop(profiles, id);
      case PolicyUpdate(id, body) => policies := Put(policies, id, body);
      case PolicyRemove(id) => policies := Drop(policies, id);
      case EndpointUpdate(PerPod, _, body) => endpoint := Some(body);
      case EndpointUpdate(PerHost, e, body) => endpoints := endpoints[e := body];
      case EndpointRemove(PerPod, _) => endpoint := None;
      case EndpointRemove(PerHost, e) => endpoints := endpoints - {e};
      case ServiceAccountUpdate(id, body) => accounts := Put(accounts, id, body);
      case ServiceAccountRemove(id) => accounts := Drop(accounts, id);
      case NamespaceUpdate(id, body) => namespaces := Put(namespaces, id, body);
      case NamespaceRemove(id) => namespaces := Drop(namespaces, id);
      case EndpointUpdate(OtherSubscription, _, _) =>
      case EndpointRemove(OtherSubscription, _) =>
      case IpSetUpdate(_, _, _) => ProcessIpSet(u);
      case IpSetDelta(_, _, _) => ProcessIpSet(u);
      case IpSetRemove(_) => ProcessIpSet(u);
      case Unknown =>
    }
  }

  // ---------- Histories ----------

  /** What the syncer does to the manager. */
  datatype Call = Reconnecting | Message(u: Update) | InSync

  /** The calls of each connection, oldest first. */
  ghost function Epochs(calls: seq<Call>): (es: seq<seq<Call>>)
    ensures es != []
  {
    if calls == [] then [[]]
    else
      var es, c := Epochs(calls[..|calls| - 1]), calls[|calls| - 1];
      if c.Reconnecting? then es + [[]] else es[..|es| - 1] + [es[|es| - 1] + [c]]
  }

  /** The latest epoch that reached in-sync; empty if there is none. */
  ghost function LastSynced(es: seq<seq<Call>>): seq<Call> {
    if es == [] then []
    else if InSync in es[|es| - 1] then es[|es| - 1]
    else LastSynced(es[..|es| - 1])
  }

  ghost function Updates(e: seq<Call>): seq<Update> {
    if e == [] then []
    else Updates(e[..|e| - 1]) + if e[|e| - 1].Message? then [e[|e| - 1].u] else []
  }

  /** What a reader ought to see after these calls. */
  ghost function Visible(calls: seq<Call>): Contents {
    Replay(Updates(LastSynced(Epochs(calls))))
  }

  ghost function Current(calls: seq<Call>): seq<Call> {
    Epochs(calls)[|Epochs(calls)| - 1]
  }

  lemma UpdatesMore(e: seq<Call>, u: Update)
    ensures Updates(e + [Message(u)]) == Updates(e) + [u]
  {
    assert (e + [Message(u)])[..|e|] == e;
  }

  lemma ReplayMore(e: seq<Call>, u: Update)
    ensures Replay(Updates(e + [Message(u)])) == Apply(Replay(Updates(e)), u)
  {
    UpdatesMore(e, u);
    var us := Updates(e);
    assert (us + [u])[..|us|] == us;
  }

  lemma InSyncAddsNoUpdate(e: seq<Call>)
    ensures Updates(e + [InSync]) == Updates(e)
  {
    assert (e + [InSync])[..|e|] == e;
  }

  /** The history one call later. */
  lemma OneMore(calls: seq<Call>, c: Call)
    ensures Current(calls + [c]) == if c.Reconnecting? then [] else Current(calls) + [c]
    ensures LastSynced(Epochs(calls + [c])) ==
            if !c.Reconnecting? && (c.InSync? || InSync in Current(calls)) then Current(calls) + [c]
            else LastSynced(Epochs(calls))
  {
    assert (calls + [c])[..|calls|] == calls;
    var es := Epochs(calls);
    if c.Reconnecting? {
      assert (es + [[]])[..|es|] == es;
    } else {
      var now := es[..|es| - 1] + [es[|es| - 1] + [c]];
      assert now[..|now| - 1] == es[..|es| - 1];
    }
  }

  /** What the present connection has sent so far. */
  ghost function Queued(calls: seq<Call>): Contents {
    Replay(Updates(Current(calls)))
  }

  lemma VisibleAfterMessage(calls: seq<Call>, u: Update)
    ensures Queued(calls + [Message(u)]) == Apply(Queued(calls), u)
    ensures Visible(calls + [Message(u)]) == if InSync in Current(calls) then Apply(Visible(calls), u)
        else Visible(calls)
    ensures InSync in Current(calls + [Message(u)]) <==> InSync in Current(calls)
  {
    OneMore(calls, Message(u));
    ReplayMore(Current(calls), u);
  }

  lemma VisibleAfterInSync(calls: seq<Call>)
    ensures Visible(calls + [InSync]) == Queued(calls) && InSync in Current(calls + [InSync])
    ensures InSync in Current(calls) ==> Queued(calls) == Visible(calls)
  {
    OneMore(calls, InSync);
    InSyncAddsNoUpdate(Current(calls));
  }

  lemma VisibleAfterReconnecting(calls: seq<Call>)
    ensures Visible(calls + [Reconnecting]) == Visible(calls) && Queued(calls + [Reconnecting]) == EMPTY
    ensures InSync !in Current(calls + [Reconnecting])
  {
    OneMore(calls, Reconnecting);
  }

  // ---------- The manager ----------

  class Manager {
    var current: Store
    var pending: Store?
    var toActive: bool
    ghost var calls: seq<Call>

    /** Writes go to a store that exists, and readers see what they ought to. */
    ghost predicate Valid()
      reads this, current, pending
    {
      && current != pending
      && (toActive <==> InSync in Current(calls))
      && (pending == null <==> toActive)
      && (pending != null ==> pending.Value() == Queued(calls))
      && current.Value() == Visible(calls)
    }

    constructor ()
      ensures Valid() && calls == [] && fresh(current) && pending != null && fresh(pending)
    {
      current := new Store();
      pending := new Store();
      toActive, calls := false, [];
      new;
      assert Epochs([]) == [[]] && LastSynced([]) == [];
    }

    /** DoWithLock with one message: the store it goes to is never missing. */
    method Process(u: Update)
      requires Valid()
      modifies this, current, pending
      ensures Valid() && calls == old(calls) + [Message(u)]
      ensures current == old(current) && pending == old(pending)
    {
      VisibleAfterMessage(calls, u);
      if toActive {
        current.ProcessUpdate(u);
      } else {
        pending.ProcessUpdate(u);
      }
      calls := calls + [Message(u)];
    }

    method OnReconnecting()
      requires Valid()
      modifies this
      ensures Valid() && calls == old(calls) + [Reconnecting]
      ensures current == old(current) && current.Value() == old(current.Value()) && fresh(pending)
    {
      VisibleAfterReconnecting(calls);
      pending := new Store();
      toActive := false;
      calls := calls + [Reconnecting];
    }

    /** OnInSync: a second one changes nothing. */
    method OnInSync()
      requires Valid()
      modifies this
      ensures Valid() && calls == old(calls) + [InSync] && toActive
      ensures current == if old(toActive) then old(current) else old(pending)
    {
      VisibleAfterInSync(calls);
      if !toActive {
        current := pending;
        pending := null;
        toActive := true;
      }
      calls := calls + [InSync];
    }

    /** DoWithReadLock: what any reader sees. */
    method Read() returns (ghost seen: Contents, store: Store)
      requires Valid()
      ensures store == current && seen == store.Value() == Visible(calls)
    {
      store := current;
      seen := current.Value();
    }
  }

  /** Updates of a connection that has not reached in-sync are invisible. */
  lemma {:induction false} UnsyncedInvisible(calls: seq<Call>, us: seq<Update>)
    requires InSync !in Current(calls)
    ensures Visible(calls + Messages(us)) == Visible(calls)
    ensures Visible(calls + Messages(us) + [InSync]) == Replay(Updates(Current(calls)) + us)
  {
    MessagesQueue(calls, us);
    OneMore(calls + Messages(us), InSync);
    InSyncAddsNoUpdate(Current(calls + Messages(us)));
  }

  ghost function Messages(us: seq<Update>): seq<Call> {
    seq(|us|, i requires 0 <= i < |us| => Message(us[i]))
  }

  lemma MessagesSnoc(calls: seq<Call>, us: seq<Update>, u: Update)
    ensures calls + Messages(us + [u]) == calls + Messages(us) + [Message(u)]
  {
  }

  lemma ConcatAssociates(a: seq<Update>, b: seq<Update>, c: seq<Update>)
    ensures a + (b + c) == a + b + c
  {
  }

  lemma {:induction false} MessagesQueue(calls: seq<Call>, us: seq<Update>)
    requires InSync !in Current(calls)
    ensures InSync !in Current(calls + Messages(us))
    ensures LastSynced(Epochs(calls + Messages(us))) == LastSynced(Epochs(calls))
    ensures Updates(Current(calls + Messages(us))) == Updates(Current(calls)) + us
    decreases |us|
  {
    if us == [] {
      assert calls + Messages(us) == calls;
    } else {
      var front, u := us[..|us| - 1], us[|us| - 1];
      MessagesQueue(calls, front);
      var sofar := calls + Messages(front);
      MessagesSnoc(calls, front, u);
      assert us == front + [u];
      OneMore(sofar, Message(u));
      UpdatesMore(Current(sofar), u);
      ConcatAssociates(Updates(Current(calls)), front, [u]);
    }
  }

  /** After a reconnection nothing of the old connection survives the next in-sync. */
  lemma ReconnectStartsAfresh(calls: seq<Call>, us: seq<Update>)
    ensures Visible(calls + [Reconnecting] + Messages(us)) == Visible(calls)
    ensures Visible(calls + [Reconnecting] + Messages(us) + [InSync]) == Replay(us)
  {
    OneMore(calls, Reconnecting);
    UnsyncedInvisible(calls + [Reconnecting], us);
    assert [] + us == us;
  }

  // ---------- What a store holds ----------

  /** A place of the store other than the IP sets. */
  datatype Slot =
    | ProfileAt(id: Id) | PolicyAt(id: Id) | AccountAt(id: Id) | NamespaceAt(id: Id) | EndpointAt(id: Id) | PodEndpoint

  function At(m: map<Id, Body>, id: Id): Option<Body> {
    if id in m then Some(m[id]) else None
  }

  function Held(c: Contents, slot: Slot): Option<Body> {
    match slot
    case ProfileAt(id) => At(c.profiles, id)
    case PolicyAt(id) => At(c.policies, id)
    case AccountAt(id) => At(c.accounts, id)
    case NamespaceAt(id) => At(c.namespaces, id)
    case EndpointAt(id) => At(c.endpoints, id)
    case PodEndpoint => c.endpoint
  }

  /** The message puts the body there. */
  predicate Puts(u: Update, slot: Slot, body: Body) {
    match slot
    case ProfileAt(id) => u == ProfileUpdate(Some(id), body)
    case PolicyAt(id) => u == PolicyUpdate(Some(id), body)
    case AccountAt(id) => u == ServiceAccountUpdate(Some(id), body)
    case NamespaceAt(id) => u == NamespaceUpdate(Some(id), body)
    case EndpointAt(id) => u == EndpointUpdate(PerHost, id, body)
    case PodEndpoint => u.EndpointUpdate? && u.to.PerPod? && u.body == body
  }

  /** The message empties it. */
  predicate Empties(u: Update, slot: Slot) {
    match slot
    case ProfileAt(id) => u == ProfileRemove(Some(id))
    case PolicyAt(id) => u == PolicyRemove(Some(id))
    case AccountAt(id) => u == ServiceAccountRemove(Some(id))
    case NamespaceAt(id) => u == NamespaceRemove(Some(id))
    case EndpointAt(id) => u == EndpointRemove(PerHost, id)
    case PodEndpoint => u.EndpointRemove? && u.to.PerPod?
  }

  ghost predicate Settles(u: Update, slot: Slot) {
    Empties(u, slot) || exists body :: Puts(u, slot, body)
  }

  /** The n-th message is the last about the slot, and puts the body there. */
  ghost predicate LastPuts(us: seq<Update>, slot: Slot, body: Body, n: nat) {
    n < |us| && Puts(us[n], slot, body) && forall m :: n < m < |us| ==> !Settles(us[m], slot)
  }

  /** What one message does to a place of each kind. */
  lemma ProfileAfter(c: Contents, u: Update, id: Id)
    ensures At(Apply(c, u).profiles, id) ==
            if u.ProfileUpdate? && u.id == Some(id) then Some(u.body)
            else if u == ProfileRemove(Some(id)) then None
            else At(c.profiles, id)
  {
  }

  lemma PolicyAfter(c: Contents, u: Update, id: Id)
    ensures At(Apply(c, u).policies, id) ==
            if u.PolicyUpdate? && u.id == Some(id) then Some(u.body)
            else if u == PolicyRemove(Some(id)) then None
            else At(c.policies, id)
  {
  }

  lemma AccountAfter(c: Contents, u: Update, id: Id)
    ensures At(Apply(c, u).accounts, id) ==
            if u.ServiceAccountUpdate? && u.id == Some(id) then Some(u.body)
            else if u == ServiceAccountRemove(Some(id)) then None
            else At(c.accounts, id)
  {
  }

  lemma NamespaceAfter(c: Contents, u: Update, id: Id)
    ensures At(Apply(c, u).namespaces, id) ==
            if u.NamespaceUpdate? && u.id == Some(id) then Some(u.body)
            else if u == NamespaceRemove(Some(id)) then None
            else At(c.namespaces, id)
  {
  }

  lemma EndpointAfter(c: Contents, u: Update, id: Id)
    ensures At(Apply(c, u).endpoints, id) ==
            if u.EndpointUpdate? && u.to.PerHost? && u.endpoint == id then Some(u.body)
            else if u == EndpointRemove(PerHost, id) then None
            else At(c.endpoints, id)
  {
  }

  lemma PodEndpointAfter(c: Contents, u: Update)
    ensures Apply(c, u).endpoint ==
            if u.EndpointUpdate? && u.to.PerPod? then Some(u.body)
            else if u.EndpointRemove? && u.to.PerPod? then None
            else c.endpoint
  {
  }

  /** A message about a slot has its effect, and none on any other. */
  lemma HeldAfter(c: Contents, u: Update, slot: Slot, body: Body)
    ensures Held(Apply(c, u), slot) == Some(body) <==>
            Puts(u, slot, body) || (!Settles(u, slot) && Held(c, slot) == Some(body))
  {
    SettlesExactly(u, slot);
    match slot
    case ProfileAt(id) => ProfileAfter(c, u, id);
    case PolicyAt(id) => PolicyAfter(c, u, id);
    case AccountAt(id) => AccountAfter(c, u, id);
    case NamespaceAt(id) => NamespaceAfter(c, u, id);
    case EndpointAt(id) => EndpointAfter(c, u, id);
    case PodEndpoint => PodEndpointAfter(c, u);
  }

  lemma SettlesExactly(u: Update, slot: Slot)
    ensures var update := u.ProfileUpdate? || u.PolicyUpdate? || u.ServiceAccountUpdate? || u.NamespaceUpdate? ||
                          u.EndpointUpdate?;
            Settles(u, slot) <==> Empties(u, slot) || (update && Puts(u, slot, u.body))
  {
  }

  /** A store holds a body exactly if the last message about its place put it there: whatever was
      removed is gone. */
  lemma {:induction false} LastWord(us: seq<Update>, slot: Slot, body: Body)
    ensures Held(Replay(us), slot) == Some(body) <==> exists n: nat :: LastPuts(us, slot, body, n)
    decreases |us|
  {
    if us != [] {
      var front, u := us[..|us| - 1], us[|us| - 1];
      LastWord(front, slot, body);
      HeldAfter(Replay(front), u, slot, body);
      LastPutsInFront(us, slot, body);
    }
  }

  lemma LastPutsInFront(us: seq<Update>, slot: Slot, body: Body)
    requires us != []
    ensures var front, u := us[..|us| - 1], us[|us| - 1];
            (exists n: nat :: LastPuts(us, slot, body, n)) <==>
            Puts(u, slot, body) || (!Settles(u, slot) && exists n: nat :: LastPuts(front, slot, body, n))
  {
    var front, u := us[..|us| - 1], us[|us| - 1];
    if Puts(u, slot, body) { assert LastPuts(us, slot, body, |us| - 1); }
    forall n: nat | n < |front|
      ensures LastPuts(us, slot, body, n) <==> LastPuts(front, slot, body, n) && !Settles(u, slot)
    {
      assert forall m :: 0 <= m < |front| ==> us[m] == front[m];
    }
  }

  // ---------- The IP sets ----------

  /** The message says what the set is, or that there is none. */
  predicate Renews(u: Update, s: string) {
    (u.IpSetUpdate? && u.set_ == s && !u.kind.UNRECOGNISED?) || u == IpSetRemove(s)
  }

  /** The set is that of the n-th message, with later deltas. */
  ghost predicate Based(us: seq<Update>, s: string, n: nat) {
    n < |us| && Renews(us[n], s) && us[n].IpSetUpdate? && forall m :: n < m < |us| ==> !Renews(us[m], s)
  }

  /** The message brings the member in: a delta that also removes it does not. */
  predicate Brings(u: Update, s: string, x: Member) {
    || (u.IpSetUpdate? && u.set_ == s && !u.kind.UNRECOGNISED? && x in u.members)
    || (u.IpSetDelta? && u.set_ == s && x in u.added && x !in u.removed)
  }

  predicate TakesOut(u: Update, s: string, x: Member) {
    u.IpSetDelta? && u.set_ == s && x in u.removed
  }

  /** The m-th message brought the member into the set of the n-th, and none after it took it out. */
  ghost predicate Brought(us: seq<Update>, s: string, x: Member, n: nat, m: nat) {
    && Based(us, s, n) && n <= m < |us| && Brings(us[m], s, x)
    && forall j :: m < j < |us| ==> !TakesOut(us[j], s, x)
  }

  /** The set is there and has the member. */
  ghost predicate Live(us: seq<Update>, s: string, x: Member) {
    s in Replay(us).ipSets && x in Replay(us).ipSets[s].members
  }

  /** What one message does to a set. */
  lemma SetAfter(c: Contents, u: Update, s: string)
    ensures var c' := Apply(c, u);
            if Renews(u, s) then
              (s in c'.ipSets <==> u.IpSetUpdate?) && (u.IpSetUpdate? ==> c'.ipSets[s].kind == u.kind)
            else (s in c'.ipSets <==> s in c.ipSets) && (s in c.ipSets ==> c'.ipSets[s].kind == c.ipSets[s].kind)
  {
  }

  lemma OtherMessages(c: Contents, u: Update)
    requires !AboutSets(u)
    ensures Apply(c, u).ipSets == c.ipSets
  {
  }

  lemma MemberAfter(c: Contents, u: Update, s: string, x: Member)
    requires s in Apply(c, u).ipSets
    ensures Renews(u, s) || s in c.ipSets
    ensures x in Apply(c, u).ipSets[s].members <==>
            Brings(u, s, x) || (!Renews(u, s) && x in c.ipSets[s].members && !TakesOut(u, s, x))
  {
    if AboutSets(u) {
      assert s in SetsAfter(c.ipSets, u);
      if u.IpSetDelta? && u.set_ == s { DeltaExactly(c.ipSets[s].members, u.added, u.removed, x); }
    } else {
      OtherMessages(c, u);
    }
  }

  lemma DeltaExactly(was: set<Member>, added: seq<Member>, removed: seq<Member>, x: Member)
    ensures x in was + Members(added) - Members(removed) <==> (x in was || x in added) && x !in removed
  {
  }

  /** A set is there exactly if it was last updated and not removed, with the kind it then had. */
  lemma {:induction false} SetExactly(us: seq<Update>, s: string)
    ensures s in Replay(us).ipSets <==> exists n: nat :: Based(us, s, n)
    ensures forall n: nat :: Based(us, s, n) ==> s in Replay(us).ipSets && Replay(us).ipSets[s].kind == us[n].kind
    decreases |us|
  {
    if us != [] {
      var front, u := us[..|us| - 1], us[|us| - 1];
      SetExactly(front, s);
      SetAfter(Replay(front), u, s);
      if Renews(u, s) && u.IpSetUpdate? { assert Based(us, s, |us| - 1); }
      BasedInFront(us, s);
    }
  }

  lemma BasedInFront(us: seq<Update>, s: string)
    requires us != []
    ensures var front, u := us[..|us| - 1], us[|us| - 1];
            forall n: nat :: n < |front| ==> (Based(us, s, n) <==> Based(front, s, n) && !Renews(u, s))
  {
    var front := us[..|us| - 1];
    assert forall m :: 0 <= m < |front| ==> us[m] == front[m];
  }

  lemma BroughtInFront(us: seq<Update>, s: string, x: Member, n: nat, m: nat)
    requires us != [] && n <= m < |us| - 1
    ensures var front, u := us[..|us| - 1], us[|us| - 1];
            Brought(us, s, x, n, m) <==> Brought(front, s, x, n, m) && !Renews(u, s) && !TakesOut(u, s, x)
  {
    var front := us[..|us| - 1];
    BasedInFront(us, s);
    assert forall j :: 0 <= j < |front| ==> us[j] == front[j];
  }

  /** And it has exactly the members that were brought in and not taken out since. */
  lemma {:induction false} MembersExactly(us: seq<Update>, s: string, x: Member)
    ensures Live(us, s, x) <==> exists n: nat, m: nat :: Brought(us, s, x, n, m)
    decreases |us|
  {
    if us != [] {
      var front := us[..|us| - 1];
      MembersExactly(front, s, x);
      if Live(us, s, x) { LiveIsBrought(us, front, s, x); }
      if n: nat, m: nat :| Brought(us, s, x, n, m) { BroughtIsLive(us, s, x, n, m); }
    }
  }

  lemma LiveIsBrought(us: seq<Update>, front: seq<Update>, s: string, x: Member)
    requires us != [] && front == us[..|us| - 1] && Live(us, s, x)
    requires Live(front, s, x) ==> exists n: nat, m: nat :: Brought(front, s, x, n, m)
    ensures exists n: nat, m: nat :: Brought(us, s, x, n, m)
  {
    var u, last := us[|us| - 1], |us| - 1;
    MemberAfter(Replay(front), u, s, x);
    if Renews(u, s) {
      assert Brought(us, s, x, last, last);
    } else if Brings(u, s, x) {
      SetExactly(us, s);
      var n: nat :| Based(us, s, n);
      assert Brought(us, s, x, n, last);
    } else {
      var n: nat, m: nat :| Brought(front, s, x, n, m);
      BroughtInFront(us, s, x, n, m);
    }
  }

  lemma BroughtIsLive(us: seq<Update>, s: string, x: Member, n: nat, m: nat)
    requires us != [] && Brought(us, s, x, n, m)
    requires Brought(us[..|us| - 1], s, x, n, m) ==> Live(us[..|us| - 1], s, x)
    ensures Live(us, s, x)
  {
    var front, u, last := us[..|us| - 1], us[|us| - 1], |us| - 1;
    SetExactly(us, s);
    MemberAfter(Replay(front), u, s, x);
    if m < last { BroughtInFront(us, s, x, n, m); }
  }
}
