/** The event ring of the xHCI driver (Kernel/Modules/XHCIController.cpp): the controller produces, the driver
    consumes.  There is no Link TRB; both sides wrap at the segment size and toggle their cycle state, section
    4.9.4 of the eXtensible Host Controller Interface for USB. */
module XhciEvents {
  import opened Common

  const TRB_EVENT_TRANSFER := 0x20
  const TRB_EVENT_CMD_COMPLETE := 0x21

  datatype EventTrb = EventTrb(data: nat, completionCode: nat, cycle: bool, trbType: nat, byte3: nat, slot: nat)

  datatype EndpointStatus = EndpointStatus(pendingTransfer: bool, timeEvent: nat, transferError: nat)

  datatype PortSlotLink = PortSlotLink(slotNumber: nat, commandAddress: nat)

  // ---------- which events one call of the event loop takes ----------

  /** How many slots in a row, from `i` to the end of the segment, carry cycle bit `c`. */
  function RunLength(ring: seq<EventTrb>, i: nat, c: bool): (n: nat)
    requires i <= |ring|
    ensures i + n <= |ring|
    ensures forall j :: i <= j < i + n ==> ring[j].cycle == c
    ensures i + n < |ring| ==> ring[i + n].cycle != c
    decreases |ring| - i
  {
    if i < |ring| && ring[i].cycle == c then 1 + RunLength(ring, i + 1, c) else 0
  }

  lemma RunLengthIs(ring: seq<EventTrb>, i: nat, c: bool, m: nat)
    requires i <= m <= |ring| && (forall j :: i <= j < m ==> ring[j].cycle == c) && (m < |ring| ==> ring[m].cycle != c)
    ensures RunLength(ring, i, c) == m - i
  {
  }

  /** The events taken from `deq` on: up to the first stale slot, going round the end of the segment once. */
  function Consumed(ring: seq<EventTrb>, deq: nat, ccs: bool): seq<EventTrb>
    requires deq < |ring|
  {
    var n := RunLength(ring, deq, ccs);
    if deq + n < |ring| then ring[deq..deq + n] else ring[deq..] + ring[..RunLength(ring, 0, !ccs)]
  }

  /** Where the loop stops, and in which cycle state. */
  function StopAt(ring: seq<EventTrb>, deq: nat, ccs: bool): (r: (nat, bool))
    requires deq < |ring|
    ensures r.0 < |ring|
  {
    var n := RunLength(ring, deq, ccs);
    if deq + n < |ring| then (deq + n, ccs)
    else
      assert ring[deq].cycle == ccs;
      (RunLength(ring, 0, !ccs), !ccs)
  }

  /** Whatever the ring holds, one call takes at most one event per slot and stops before a stale slot. */
  lemma AtMostOneLap(ring: seq<EventTrb>, deq: nat, ccs: bool)
    requires deq < |ring|
    ensures |Consumed(ring, deq, ccs)| <= |ring|
    ensures var (d, c) := StopAt(ring, deq, ccs); ring[d].cycle != c
  {
    var n := RunLength(ring, deq, ccs);
    if deq + n == |ring| {
      assert ring[deq].cycle == ccs;
    }
  }

  function Next(ring: seq<EventTrb>, deq: nat, ccs: bool): (nat, bool) {
    if deq + 1 == |ring| then (0, !ccs) else (deq + 1, ccs)
  }

  lemma TakeLast(ring: seq<EventTrb>, deq: nat, ccs: bool)
    requires deq + 1 == |ring| && ring[deq].cycle == ccs
    ensures Consumed(ring, deq, ccs) == [ring[deq]] + Consumed(ring, 0, !ccs)
    ensures StopAt(ring, deq, ccs) == StopAt(ring, 0, !ccs)
  {
    RunLengthIs(ring, deq, ccs, deq + 1);
    var m := RunLength(ring, 0, !ccs);
    assert m < |ring|;
    assert ring[deq..] == [ring[deq]] && ring[0..m] == ring[..m];
  }

  lemma TakeInside(ring: seq<EventTrb>, deq: nat, ccs: bool)
    requires deq + 1 < |ring| && ring[deq].cycle == ccs
    ensures Consumed(ring, deq, ccs) == [ring[deq]] + Consumed(ring, deq + 1, ccs)
    ensures StopAt(ring, deq, ccs) == StopAt(ring, deq + 1, ccs)
  {
    var n, rest := RunLength(ring, deq, ccs), ring[..RunLength(ring, 0, !ccs)];
    assert RunLength(ring, deq + 1, ccs) == n - 1;
    hide RunLength;
    SliceFront(ring, deq, deq + n);
    assert deq + n == |ring| ==> ring[deq..] == ring[deq..deq + n] && ring[deq + 1..] == ring[deq + 1..deq + n];
    assert [ring[deq]] + ring[deq + 1..] + rest == [ring[deq]] + (ring[deq + 1..] + rest);
  }

  lemma SliceFront(ring: seq<EventTrb>, i: nat, j: nat)
    requires i < j <= |ring|
    ensures ring[i..j] == [ring[i]] + ring[i + 1..j]
  {
  }

  /** Taking one event is the first step of taking them all. */
  lemma TakeOne(ring: seq<EventTrb>, deq: nat, ccs: bool)
    requires deq < |ring| && ring[deq].cycle == ccs
    ensures var (d, c) := Next(ring, deq, ccs);
      && Consumed(ring, deq, ccs) == [ring[deq]] + Consumed(ring, d, c)
      && StopAt(ring, deq, ccs) == StopAt(ring, d, c)
  {
    if deq + 1 == |ring| {
      TakeLast(ring, deq, ccs);
    } else {
      TakeInside(ring, deq, ccs);
    }
  }

  /** The loop has taken `done` out of `taken` and stands at `deq`; it will stop at `stop`. */
  predicate Underway(ring: seq<EventTrb>, taken: seq<EventTrb>, stop: (nat, bool), done: seq<EventTrb>, deq: nat,
                     ccs: bool) {
    deq < |ring| && taken == done + Consumed(ring, deq, ccs) && stop == StopAt(ring, deq, ccs)
  }

  lemma StaysUnderway(ring: seq<EventTrb>, taken: seq<EventTrb>, stop: (nat, bool), done: seq<EventTrb>, deq: nat,
                      ccs: bool)
    requires Underway(ring, taken, stop, done, deq, ccs) && ring[deq].cycle == ccs
    ensures var (d, c) := Next(ring, deq, ccs);
      Underway(ring, taken, stop, done + [ring[deq]], d, c)
    ensures |done| < |taken| && taken[|done|] == ring[deq]
  {
    TakeOne(ring, deq, ccs);
  }

  lemma StopsWhenStale(ring: seq<EventTrb>, taken: seq<EventTrb>, stop: (nat, bool), done: seq<EventTrb>, deq: nat,
                       ccs: bool)
    requires Underway(ring, taken, stop, done, deq, ccs) && ring[deq].cycle != ccs
    ensures done == taken && stop == (deq, ccs)
  {
  }

  // ---------- what the events do ----------

  const ENDPOINTS_PER_SLOT := 31
  const ROOT_SLOTS := 16

  /** A transfer event names a slot and an endpoint that exist. */
  predicate WellFormed(e: EventTrb) {
    e.trbType == TRB_EVENT_TRANSFER ==> 1 <= e.slot <= ROOT_SLOTS && 1 <= e.byte3 % 32
  }

  predicate AllWellFormed(events: seq<EventTrb>) {
    forall i :: 0 <= i < |events| ==> WellFormed(events[i])
  }

  predicate Targets(e: EventTrb, i: nat) {
    e.trbType == TRB_EVENT_TRANSFER && (e.slot - 1) * ENDPOINTS_PER_SLOT + e.byte3 % 32 - 1 == i
  }

  /** A transfer event names the endpoint by its slot and the low five bits of its byte 3: every endpoint of every slot
      can be named, each event names one, and different slots or endpoints are told apart. */
  lemma EventNamesEndpoint(e: EventTrb, slot: nat, dci: nat, high: nat)
    requires 1 <= slot <= ROOT_SLOTS && 1 <= dci <= ENDPOINTS_PER_SLOT
    requires e.trbType == TRB_EVENT_TRANSFER && e.slot == slot && e.byte3 == 32 * high + dci
    ensures WellFormed(e)
    ensures forall s, d :: 1 <= s <= ROOT_SLOTS && 1 <= d <= ENDPOINTS_PER_SLOT ==>
      (Targets(e, EndpointIndex(s, d)) <==> s == slot && d == dci)
  {
  }

  /** The endpoints of all slots, in order. */
  function EndpointIndex(slot: nat, dci: nat): (i: nat)
    requires 1 <= slot <= ROOT_SLOTS && 1 <= dci <= ENDPOINTS_PER_SLOT
    ensures i < ROOT_SLOTS * ENDPOINTS_PER_SLOT
    ensures i / ENDPOINTS_PER_SLOT == slot - 1 && i % ENDPOINTS_PER_SLOT == dci - 1
  {
    (slot - 1) * ENDPOINTS_PER_SLOT + dci - 1
  }

  predicate Completes(e: EventTrb, port: PortSlotLink) {
    e.trbType == TRB_EVENT_CMD_COMPLETE && e.data == port.commandAddress
  }

  /** Endpoint number `i` after `events`; `clock(k)` is the time at event number `k`. */
  function StatusAfter(st: EndpointStatus, i: nat, events: seq<EventTrb>, clock: nat -> nat): EndpointStatus {
    if events == [] then st
    else
      var n := |events| - 1;
      if Targets(events[n], i) then EndpointStatus(false, clock(n) % UINT32, events[n].completionCode)
      else StatusAfter(st, i, events[..n], clock)
  }

  function PendingAfter(pending: nat, events: seq<EventTrb>): nat {
    if events == [] then pending
    else
      var before := PendingAfter(pending, events[..|events| - 1]);
      if events[|events| - 1].trbType == TRB_EVENT_CMD_COMPLETE && before > 0 then before - 1 else before
  }

  function PortAfter(port: PortSlotLink, events: seq<EventTrb>): (p: PortSlotLink)
    ensures p.commandAddress == port.commandAddress
  {
    if events == [] then port
    else if Completes(events[|events| - 1], port) then port.(slotNumber := events[|events| - 1].slot)
    else PortAfter(port, events[..|events| - 1])
  }

  function EndpointHandled(st: EndpointStatus, i: nat, event: EventTrb, time: nat): EndpointStatus {
    if Targets(event, i) then EndpointStatus(false, time % UINT32, event.completionCode) else st
  }

  function PortHandled(port: PortSlotLink, event: EventTrb): PortSlotLink {
    if Completes(event, port) then port.(slotNumber := event.slot) else port
  }

  lemma OneMoreEvent(events: seq<EventTrb>, event: EventTrb, clock: nat -> nat)
    ensures forall st, i :: StatusAfter(st, i, events + [event], clock)
                            == EndpointHandled(StatusAfter(st, i, events, clock), i, event, clock(|events|))
    ensures forall port :: PortAfter(port, events + [event]) == PortHandled(PortAfter(port, events), event)
    ensures forall n :: PendingAfter(n, events + [event]) == PendingAfter(PendingAfter(n, events), [event])
  {
    var more := events + [event];
    assert more[..|more| - 1] == events;
  }

  /** Per endpoint the last event counts: it ends the wait and leaves its completion code. */
  lemma {:induction false} LastTransferEventCounts(st: EndpointStatus, i: nat, events: seq<EventTrb>,
                                                   clock: nat -> nat, k: nat)
    requires k < |events| && Targets(events[k], i) && forall j :: k < j < |events| ==> !Targets(events[j], i)
    ensures StatusAfter(st, i, events, clock)
            == EndpointStatus(false, clock(k) % UINT32, events[k].completionCode)
    decreases |events|
  {
    if k < |events| - 1 {
      LastTransferEventCounts(st, i, events[..|events| - 1], clock, k);
    }
  }

  /** An endpoint that no event names keeps its status. */
  lemma {:induction false} OtherEndpointsUnchanged(st: EndpointStatus, i: nat, events: seq<EventTrb>, clock: nat -> nat)
    requires forall j :: 0 <= j < |events| ==> !Targets(events[j], i)
    ensures StatusAfter(st, i, events, clock) == st
    decreases |events|
  {
    if events != [] {
      OtherEndpointsUnchanged(st, i, events[..|events| - 1], clock);
    }
  }

  /** A port has the slot number of the last completion of its command. */
  lemma {:induction false} LastCompletionCounts(port: PortSlotLink, events: seq<EventTrb>, k: nat)
    requires k < |events| && events[k].trbType == TRB_EVENT_CMD_COMPLETE && events[k].data == port.commandAddress
    requires forall j :: k < j < |events| && events[j].trbType == TRB_EVENT_CMD_COMPLETE ==>
      events[j].data != port.commandAddress
    ensures PortAfter(port, events) == PortSlotLink(events[k].slot, port.commandAddress)
    decreases |events|
  {
    if k < |events| - 1 {
      LastCompletionCounts(port, events[..|events| - 1], k);
    }
  }

  /** A port whose command is not completed keeps its slot number. */
  lemma {:induction false} OtherPortsUnchanged(port: PortSlotLink, events: seq<EventTrb>)
    requires forall j :: 0 <= j < |events| && events[j].trbType == TRB_EVENT_CMD_COMPLETE ==>
      events[j].data != port.commandAddress
    ensures PortAfter(port, events) == port
    decreases |events|
  {
    if events != [] {
      OtherPortsUnchanged(port, events[..|events| - 1]);
    }
  }

  function Completions(events: seq<EventTrb>): nat {
    if events == [] then 0
    else Completions(events[..|events| - 1]) + (if events[|events| - 1].trbType == TRB_EVENT_CMD_COMPLETE then 1 else 0)
  }

  /** Every completion takes one pending command off the count, which stops at zero. */
  lemma {:induction false} PendingCountsDown(pending: nat, events: seq<EventTrb>)
    ensures PendingAfter(pending, events)
            == if Completions(events) <= pending then pending - Completions(events) else 0
    decreases |events|
  {
    if events != [] {
      PendingCountsDown(pending, events[..|events| - 1]);
    }
  }

  // ---------- the controller as producer ----------

  /** Both ends of the event ring, with the events posted and handled so far. */
  datatype EventSystem = EventSystem(ring: seq<EventTrb>, enq: nat, pcs: bool, deq: nat, ccs: bool,
                                     posted: seq<EventTrb>, handled: seq<EventTrb>)

  datatype EventAction = Post(event: EventTrb) | HandleOne

  /** The controller posts while a slot is free; the driver handles while the slot it looks at is fresh. */
  predicate Enabled(s: EventSystem, a: EventAction) {
    s.enq < |s.ring| && s.deq < |s.ring| &&
    match a
    case Post(e) => |s.posted| - |s.handled| < |s.ring|
    case HandleOne => s.ring[s.deq].cycle == s.ccs
  }

  function EventStep(s: EventSystem, a: EventAction): EventSystem
    requires Enabled(s, a)
  {
    match a
    case Post(e) =>
      var stamped := e.(cycle := s.pcs);
      var last := s.enq + 1 == |s.ring|;
      s.(ring := s.ring[s.enq := stamped], enq := if last then 0 else s.enq + 1, pcs := s.pcs != last,
         posted := s.posted + [stamped])
    case HandleOne =>
      var last := s.deq + 1 == |s.ring|;
      s.(deq := if last then 0 else s.deq + 1, ccs := s.ccs != last, handled := s.handled + [s.ring[s.deq]])
  }

  function Unhandled(s: EventSystem): seq<EventTrb>
    requires s.enq < |s.ring| && s.deq < |s.ring|
  {
    if s.ccs == s.pcs then (if s.deq <= s.enq then s.ring[s.deq..s.enq] else []) else s.ring[s.deq..] + s.ring[..s.enq]
  }

  predicate EventInv(s: EventSystem) {
    && s.enq < |s.ring| && s.deq < |s.ring|
    && (forall i :: 0 <= i < s.enq ==> s.ring[i].cycle == s.pcs)
    && (forall i :: s.enq <= i < |s.ring| ==> s.ring[i].cycle == !s.pcs)
    && (if s.ccs == s.pcs then s.deq <= s.enq else s.enq <= s.deq)
    && s.posted == s.handled + Unhandled(s)
  }

  lemma FreshRingInv(ring: seq<EventTrb>)
    requires ring != [] && forall i :: 0 <= i < |ring| ==> !ring[i].cycle
    ensures EventInv(EventSystem(ring, 0, true, 0, true, [], []))
  {
  }

  lemma PostKeepsInv(s: EventSystem, e: EventTrb)
    requires EventInv(s) && Enabled(s, Post(e))
    ensures EventInv(EventStep(s, Post(e)))
  {
    var n := EventStep(s, Post(e));
    assert |Unhandled(s)| < |s.ring|;
    assert Unhandled(n) == Unhandled(s) + [e.(cycle := s.pcs)];
  }

  lemma HandleKeepsInv(s: EventSystem)
    requires EventInv(s) && Enabled(s, HandleOne)
    ensures EventInv(EventStep(s, HandleOne))
    ensures Unhandled(s) != [] && s.ring[s.deq] == s.posted[|s.handled|]
  {
    var n, e := EventStep(s, HandleOne), s.ring[s.deq];
    FreshIsPosted(s);
    UnhandledFront(s);
    hide Unhandled;
    assert s.handled + ([e] + Unhandled(n)) == s.handled + [e] + Unhandled(n);
  }

  /** A fresh slot lies before the producer. */
  lemma FreshIsPosted(s: EventSystem)
    requires EventInv(s) && s.ring[s.deq].cycle == s.ccs
    ensures s.ccs == s.pcs ==> s.deq < s.enq
  {
  }

  lemma UnhandledFront(s: EventSystem)
    requires s.enq < |s.ring| && s.deq < |s.ring| && s.ring[s.deq].cycle == s.ccs
    requires if s.ccs == s.pcs then s.deq < s.enq else s.enq <= s.deq
    ensures Unhandled(s) == [s.ring[s.deq]] + Unhandled(EventStep(s, HandleOne))
  {
    SliceFront(s.ring, s.deq, if s.ccs == s.pcs then s.enq else |s.ring|);
  }

  predicate EnabledRun(s: EventSystem, run: seq<EventAction>)
    decreases |run|
  {
    run == [] || (Enabled(s, run[0]) && EnabledRun(EventStep(s, run[0]), run[1..]))
  }

  function RunEvents(s: EventSystem, run: seq<EventAction>): EventSystem
    requires EnabledRun(s, run)
    decreases |run|
  {
    if run == [] then s else RunEvents(EventStep(s, run[0]), run[1..])
  }

  /** The events that the posts of a run put in. */
  function PutIn(run: seq<EventAction>): seq<EventTrb> {
    if run == [] then [] else (if run[0].Post? then [run[0].event] else []) + PutIn(run[1..])
  }

  /** The same event in every field but the cycle bit. */
  predicate SameEvent(a: EventTrb, b: EventTrb) {
    && a.data == b.data && a.completionCode == b.completionCode && a.trbType == b.trbType && a.byte3 == b.byte3
    && a.slot == b.slot
  }

  ghost predicate SameEvents(a: seq<EventTrb>, b: seq<EventTrb>) {
    |a| == |b| && forall k :: 0 <= k < |a| ==> SameEvent(a[k], b[k])
  }

  /** What a run posts are the events put in. */
  lemma {:induction false} PostedArePutIn(s: EventSystem, run: seq<EventAction>)
    requires EnabledRun(s, run)
    ensures var e := RunEvents(s, run); s.posted <= e.posted && SameEvents(e.posted[|s.posted|..], PutIn(run))
    decreases |run|
  {
    hide Enabled, EventStep, SameEvent;
    if run != [] {
      var n := EventStep(s, run[0]);
      PostedArePutIn(n, run[1..]);
      var one := OnePosted(s, run[0]);
      var rest := RunEvents(s, run).posted[|n.posted|..];
      assert RunEvents(s, run).posted == s.posted + (one + rest);
      assert PutIn(run) == (if run[0].Post? then [run[0].event] else []) + PutIn(run[1..]);
    }
  }

  lemma OnePosted(s: EventSystem, a: EventAction) returns (one: seq<EventTrb>)
    requires Enabled(s, a)
    ensures EventStep(s, a).posted == s.posted + one && SameEvents(one, if a.Post? then [a.event] else [])
  {
    one := if a.Post? then [a.event.(cycle := s.pcs)] else [];
  }

  /** Over every interleaving of posts and handled events, what was handled is an initial part of what was
      posted, in order; what was posted are the events put in, in every field but the cycle bit. */
  lemma {:induction false} EventRunIsFifo(s: EventSystem, run: seq<EventAction>)
    requires EventInv(s) && EnabledRun(s, run)
    ensures var e := RunEvents(s, run);
      && EventInv(e) && s.handled <= e.handled <= e.posted && s.posted <= e.posted
      && SameEvents(e.posted[|s.posted|..], PutIn(run))
    decreases |run|
  {
    PostedArePutIn(s, run);
    hide SameEvents, PutIn;
    if run != [] {
      match run[0] {
        case Post(e) => PostKeepsInv(s, e);
        case HandleOne => HandleKeepsInv(s);
      }
      EventRunIsFifo(EventStep(s, run[0]), run[1..]);
    }
  }

  /** On a ring that a correct producer filled, one call of the event loop takes exactly the events posted and
      not yet handled, in order, and stops with the producer's index and cycle state. */
  lemma ParseTakesAllPosted(s: EventSystem)
    requires EventInv(s)
    ensures s.posted == s.handled + Consumed(s.ring, s.deq, s.ccs)
    ensures StopAt(s.ring, s.deq, s.ccs) == (s.enq, s.pcs)
  {
    if s.ccs == s.pcs {
      RunLengthIs(s.ring, s.deq, s.ccs, s.enq);
    } else {
      RunLengthIs(s.ring, s.deq, s.ccs, |s.ring|);
      RunLengthIs(s.ring, 0, s.pcs, s.enq);
    }
  }
}
