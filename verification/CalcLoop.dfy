/** The throttled loop around the calculation graph (felix/calc/async_calc_graph.go:136-229). The
    graph and its event sequencer are the buffer between updates taken and updates sent. */
module CalcLoop {

  const BUCKET_SIZE := 10

  type Update = nat

  datatype Status = WaitForDatastore | ResyncInProgress | InSync

  datatype Event = Updates(updates: seq<Update>) | StatusIs(status: Status) | FlushTick | HealthTick

  datatype Output = Sent(update: Update) | InSyncMessage

  function Outputs(us: seq<Update>): seq<Output> {
    seq(|us|, i requires 0 <= i < |us| => Sent(us[i]))
  }

  // ---------- What the history of events says ----------

  ghost function Handled(events: seq<Event>): seq<Update> {
    if events == [] then []
    else
      var last := events[|events| - 1];
      Handled(events[..|events| - 1]) + if last.Updates? then last.updates else []
  }

  ghost function Ticks(events: seq<Event>): nat {
    if events == [] then 0
    else Ticks(events[..|events| - 1]) + if events[|events| - 1].FlushTick? then 1 else 0
  }

  ghost predicate Synced(events: seq<Event>) { StatusIs(InSync) in events }

  /** The updates handled before the first in-sync. */
  ghost function BeforeSync(events: seq<Event>): seq<Update> {
    if events == [] then []
    else if Synced(events[..|events| - 1]) then BeforeSync(events[..|events| - 1])
    else Handled(events)
  }

  /** What may have been sent: every update once and in order, up to those still waiting, and
      the in-sync message once, right after the updates handled before the first in-sync. */
  ghost predicate RightOutput(out: seq<Output>, events: seq<Event>, sent: seq<Update>, waiting: seq<Update>) {
    && sent + waiting == Handled(events)
    && if Synced(events)
       then BeforeSync(events) <= sent &&
            out == Outputs(BeforeSync(events)) + [InSyncMessage] + Outputs(sent[|BeforeSync(events)|..])
       else out == Outputs(sent)
  }

  lemma OneMore(events: seq<Event>, e: Event)
    ensures Handled(events + [e]) == Handled(events) + if e.Updates? then e.updates else []
    ensures Ticks(events + [e]) == Ticks(events) + if e.FlushTick? then 1 else 0
    ensures Synced(events + [e]) <==> Synced(events) || e == StatusIs(InSync)
    ensures BeforeSync(events + [e]) == if Synced(events) then BeforeSync(events) else Handled(events + [e])
  {
    assert (events + [e])[..|events|] == events;
  }

  lemma OutputsAppend(a: seq<Update>, b: seq<Update>)
    ensures Outputs(a + b) == Outputs(a) + Outputs(b)
  {
  }

  class AsyncCalcGraph {
    var initialSyncCompleted: bool
    var needToSendInSync: bool
    var bucket: nat
    var dirty: bool
    var waiting: seq<Update>
    var out: seq<Output>
    ghost var events: seq<Event>
    ghost var sent: seq<Update>
    ghost var ticks: nat
    ghost var flushes: nat

    /** Every flush was paid for by a tick, but for the one that the first in-sync forces. */
    ghost predicate Paid()
      reads this
    {
      bucket <= BUCKET_SIZE && flushes + bucket <= ticks + (if initialSyncCompleted then 1 else 0)
    }

    /** Between iterations. */
    ghost predicate Valid()
      reads this
    {
      && Paid() && (dirty ==> bucket == 0) && (!dirty ==> waiting == []) && !needToSendInSync
      && ticks == Ticks(events) && (initialSyncCompleted <==> Synced(events))
      && RightOutput(out, events, sent, waiting)
    }

    constructor ()
      ensures Valid() && events == [] && flushes == 0
    {
      initialSyncCompleted, needToSendInSync, bucket, dirty := false, false, 0, false;
      waiting, out, events, sent, flushes, ticks := [], [], [], [], 0, 0;
    }

    /** The select of one iteration, without the flush. */
    method Take(e: Event)
      requires Paid() && !needToSendInSync
      modifies `waiting, `dirty, `initialSyncCompleted, `needToSendInSync, `bucket, `ticks
      ensures Paid() && waiting == old(waiting) + More(e)
      ensures ticks == old(ticks) + if e.FlushTick? then 1 else 0
      ensures initialSyncCompleted <==> old(initialSyncCompleted) || e == StatusIs(InSync)
      ensures needToSendInSync <==> !old(initialSyncCompleted) && e == StatusIs(InSync)
      ensures needToSendInSync ==> dirty && bucket > 0
      ensures dirty <==> old(dirty) || e.Updates? || e.StatusIs?
      ensures e.FlushTick? ==> bucket > 0
    {
      match e
      case Updates(us) =>
        waiting := waiting + us;
        dirty := true;
      case StatusIs(status) =>
        if status == InSync && !initialSyncCompleted {
          initialSyncCompleted := true;
          needToSendInSync := true;
          dirty := true;
          if bucket == 0 {
            bucket := bucket + 1;
          }
        }
        dirty := true;
      case FlushTick =>
        ticks := ticks + 1;
        if bucket < BUCKET_SIZE {
          bucket := bucket + 1;
        }
      case HealthTick =>
    }

    /** maybeFlush */
    method MaybeFlush()
      modifies `bucket, `dirty, `waiting, `out, `needToSendInSync, `flushes, `sent
      ensures var flush := old(dirty) && old(bucket) > 0;
              && bucket == (if flush then old(bucket) - 1 else old(bucket))
              && flushes == (if flush then old(flushes) + 1 else old(flushes))
              && (dirty <==> old(dirty) && !flush)
              && (needToSendInSync <==> old(needToSendInSync) && !flush)
              && waiting == (if flush then [] else old(waiting))
              && sent == (if flush then old(sent) + old(waiting) else old(sent))
              && out == (if flush then old(out) + Outputs(old(waiting)) +
                                      (if old(needToSendInSync) then [InSyncMessage] else [])
                         else old(out))
    {
      if !dirty { return; }
      if bucket > 0 {
        bucket := bucket - 1;
        out := out + Outputs(waiting);
        sent := sent + waiting;
        waiting := [];
        flushes := flushes + 1;
        if needToSendInSync {
          out := out + [InSyncMessage];
          needToSendInSync := false;
        }
        dirty := false;
      }
    }

    /** The select and the flush: either nothing is sent, or all that waits and what is due. */
    method Turn(e: Event)
      requires Paid() && !needToSendInSync && (dirty ==> bucket == 0) && (!dirty ==> waiting == [])
      modifies this
      ensures Paid() && !needToSendInSync && (dirty ==> bucket == 0) && (!dirty ==> waiting == [])
      ensures events == old(events) && ticks == old(ticks) + if e.FlushTick? then 1 else 0
      ensures initialSyncCompleted <==> old(initialSyncCompleted) || e == StatusIs(InSync)
      ensures e.FlushTick? ==> !dirty
      ensures var first := !old(initialSyncCompleted) && e == StatusIs(InSync);
              var now := old(waiting) + More(e);
              || (!first && waiting == now && sent == old(sent) && out == old(out))
              || (waiting == [] && sent == old(sent) + now &&
                  out == old(out) + Outputs(now) + if first then [InSyncMessage] else [])
    {
      Take(e);
      MaybeFlush();
    }

    /** One iteration of the loop. A tick always sends what waits, and the first in-sync is
        reported, after everything before it, in the iteration that takes it. */
    method Iterate(e: Event)
      requires Valid()
      modifies this
      ensures Valid() && events == old(events) + [e]
      ensures flushes <= Ticks(events) + 1
      ensures e.FlushTick? ==> waiting == [] && !dirty
      ensures FirstSync(old(events), e) ==>
                waiting == [] && out == old(out) + Outputs(old(waiting)) + [InSyncMessage]
    {
      NextOutput(out, events, sent, waiting, e);
      OneMore(events, e);
      Turn(e);
      events := events + [e];
    }

    /** The loop, for as long as it runs. */
    method Loop(input: seq<Event>)
      requires Valid() && events == [] && flushes == 0
      modifies this
      ensures Valid() && events == input && flushes <= Ticks(input) + 1
    {
      for i := 0 to |input|
        invariant Valid() && events == input[..i]
      {
        assert input[..i + 1] == input[..i] + [input[i]];
        Iterate(input[i]);
      }
      assert input[..|input|] == input;
    }
  }

  ghost function More(e: Event): seq<Update> { if e.Updates? then e.updates else [] }

  ghost predicate FirstSync(events: seq<Event>, e: Event) { !Synced(events) && e == StatusIs(InSync) }

  /** What was right before the event is right after it, unless an in-sync message is due. */
  lemma Arrived(out: seq<Output>, events: seq<Event>, sent: seq<Update>, waiting: seq<Update>, e: Event)
    requires RightOutput(out, events, sent, waiting) && !FirstSync(events, e)
    ensures RightOutput(out, events + [e], sent, waiting + More(e))
  {
    OneMore(events, e);
    assert sent + (waiting + More(e)) == sent + waiting + More(e);
  }

  /** Sending what waits keeps the output right. */
  lemma Drained(out: seq<Output>, events: seq<Event>, sent: seq<Update>, waiting: seq<Update>)
    requires RightOutput(out, events, sent, waiting)
    ensures RightOutput(out + Outputs(waiting), events, sent + waiting, [])
  {
    var all := sent + waiting;
    assert all + [] == all;
    if Synced(events) {
      var b := BeforeSync(events);
      assert all[|b|..] == sent[|b|..] + waiting;
      OutputsAppend(sent[|b|..], waiting);
    } else {
      OutputsAppend(sent, waiting);
    }
  }

  /** With nothing waiting, the first in-sync is answered by its message. */
  lemma Answered(out: seq<Output>, events: seq<Event>, sent: seq<Update>, e: Event)
    requires RightOutput(out, events, sent, []) && FirstSync(events, e)
    ensures RightOutput(out + [InSyncMessage], events + [e], sent, [])
  {
    OneMore(events, e);
    assert sent + [] == sent && sent[|sent|..] == [];
    assert BeforeSync(events + [e]) == sent && Outputs([]) == [];
    assert out + [InSyncMessage] + [] == out + [InSyncMessage];
  }

  lemma NextOutput(out: seq<Output>, events: seq<Event>, sent: seq<Update>, waiting: seq<Update>, e: Event)
    requires RightOutput(out, events, sent, waiting)
    ensures !FirstSync(events, e) ==> RightOutput(out, events + [e], sent, waiting + More(e))
    ensures var message := if FirstSync(events, e) then [InSyncMessage] else [];
            RightOutput(out + Outputs(waiting + More(e)) + message, events + [e], sent + (waiting + More(e)), [])
  {
    if FirstSync(events, e) {
      assert waiting + More(e) == waiting;
      Drained(out, events, sent, waiting);
      Answered(out + Outputs(waiting), events, sent + waiting, e);
    } else {
      Arrived(out, events, sent, waiting, e);
      Drained(out, events + [e], sent, waiting + More(e));
      assert out + Outputs(waiting + More(e)) + [] == out + Outputs(waiting + More(e));
    }
  }
}
