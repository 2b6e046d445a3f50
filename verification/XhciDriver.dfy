/** The memory of the xHCI driver and the methods that change it in place
    (Kernel/Modules/XHCIController.cpp, Kernel/Modules/XHCIController.hpp).  Each ring method is proved
    against the value-level ring of `XhciRing`, the event loop against `XhciEvents`. */
module XhciDriver {
  import opened Common
  import opened XhciRing
  import opened XhciEvents

  /** A 32-bit counter after `n` increments. */
  function Counted(counter: nat, n: nat): (r: nat)
    ensures r < UINT32 && (counter + n - r) % UINT32 == 0
  {
    (counter + n) % UINT32
  }

  lemma CountOne(counter: nat, n: nat)
    ensures Counted(Counted(counter, n), 1) == Counted(counter, n + 1)
    ensures counter < UINT32 ==> Counted(counter, 0) == counter
  {
  }

  /** `struct Endpoint`, as far as rings and events use it. */
  datatype Endpoint = Endpoint(base: nat, enq: nat, pcs: bool, counter: nat, status: EndpointStatus)

  class Xhci {
    const commandRing: array<Trb>
    const commandBase: nat
    var enqCommand: nat
    var commandPcs: bool
    var commandCounter: nat
    var commandPending: nat

    // Slots[s]->Endpoints[e] and TransferRings[s][e], row by row
    const endpoints: array<Endpoint>
    const transferRings: seq<array<Trb>>

    const eventRing: array<EventTrb>
    var deqEvent: nat
    var eventCcs: bool
    var eventCounter: nat
    var erdp: nat

    // PortSlotLinks[i], with CommandPointer as a bus address
    const ports: array<PortSlotLink>

    ghost predicate Valid()
      reads this, commandRing, endpoints, transferRings
    {
      RingsValid() && deqEvent < eventRing.Length && eventCounter < UINT32
    }

    ghost predicate RingsValid()
      reads this`enqCommand, this`commandPcs, commandRing, endpoints, transferRings
    {
      && commandRing.Length == RING_SLOTS && Usable(CommandView())
      && endpoints.Length == |transferRings| == ROOT_SLOTS * ENDPOINTS_PER_SLOT
      && (forall i :: 0 <= i < |transferRings| ==>
          transferRings[i].Length == RING_SLOTS && transferRings[i] != commandRing)
      && (forall i, j :: 0 <= i < j < |transferRings| ==> transferRings[i] != transferRings[j])
      && (forall i :: 0 <= i < |transferRings| ==> Usable(TransferView(i)))
    }

    ghost function CommandView(): Ring
      reads this`enqCommand, this`commandPcs, commandRing
    {
      Ring(commandRing[..], commandBase, enqCommand, commandPcs)
    }

    ghost function TransferView(i: nat): Ring
      requires i < |transferRings| == endpoints.Length
      reads endpoints, transferRings[i]
    {
      Ring(transferRings[i][..], endpoints[i].base, endpoints[i].enq, endpoints[i].pcs)
    }

    /** The ring set-up of `start`; the event ring, which `start` leaves alone, comes from the caller. */
    constructor (commandBase: nat, transferBase: nat -> nat, events: array<EventTrb>, ports: array<PortSlotLink>)
      requires events.Length > 0
      ensures Valid() && fresh(commandRing) && fresh(endpoints) && (forall r :: r in transferRings ==> fresh(r))
      ensures eventRing == events && this.ports == ports
      ensures CommandView() == EmptyRing(commandBase)
      ensures forall i :: 0 <= i < |transferRings| ==> TransferView(i) == EmptyRing(transferBase(i))
    {
      var rings := NewRings(transferBase);
      var command := NewRing(commandBase);
      var eps := new Endpoint[ROOT_SLOTS * ENDPOINTS_PER_SLOT](
        i => Endpoint(transferBase(i), 0, true, 0, EndpointStatus(false, 0, 0)));
      this.commandRing, this.commandBase, enqCommand, commandPcs := command, commandBase, 0, true;
      commandCounter, commandPending := 0, 0;
      endpoints, transferRings := eps, rings;
      eventRing, deqEvent, eventCcs, eventCounter, erdp := events, 0, true, 0, 0;
      this.ports := ports;
      new;
      forall i | 0 <= i < |transferRings| ensures TransferView(i) == EmptyRing(transferBase(i)) {
        assert transferRings[i][..] == EmptyRing(transferBase(i)).slots;
      }
    }

    static method NewRings(bases: nat -> nat) returns (rings: seq<array<Trb>>)
      ensures |rings| == ROOT_SLOTS * ENDPOINTS_PER_SLOT
      ensures forall j :: 0 <= j < |rings| ==> fresh(rings[j]) && rings[j][..] == EmptyRing(bases(j)).slots
      ensures forall j, k :: 0 <= j < k < |rings| ==> rings[j] != rings[k]
    {
      rings := [];
      for i := 0 to ROOT_SLOTS * ENDPOINTS_PER_SLOT
        invariant |rings| == i
        invariant forall j :: 0 <= j < i ==> fresh(rings[j]) && rings[j][..] == EmptyRing(bases(j)).slots
        invariant forall j, k :: 0 <= j < k < i ==> rings[j] != rings[k]
      {
        var ring := NewRing(bases(i));
        rings := rings + [ring];
      }
    }

    static method NewRing(base: nat) returns (ring: array<Trb>)
      ensures fresh(ring) && ring[..] == EmptyRing(base).slots
    {
      ring := new Trb[RING_SLOTS](_ => BLANK);
      ring[LINK_SLOT] := ring[LINK_SLOT].(parameter := base, toggleCycle := true, trbType := TRB_TYPE_LINK);
    }

    /** `stamped` is what becomes of the caller's TRB. */
    method EnqueueCommand(command: Trb) returns (slot: nat, stamped: Trb)
      requires Valid()
      modifies this`enqCommand, this`commandPcs, this`commandCounter, this`commandPending, commandRing
      ensures Valid()
      ensures CommandView() == Enqueue(old(CommandView()), command)
      ensures Delivered(old(commandRing[..]), commandRing[..], slot, command, old(commandPcs))
      ensures slot == old(enqCommand) && stamped == Stamped(command, old(commandPcs))
      ensures commandCounter == Counted(old(commandCounter), 1)
      ensures commandPending == Counted(old(commandPending), 1)
    {
      stamped := command.(cycle := commandPcs);
      slot := enqCommand;
      commandRing[slot] := stamped;
      enqCommand := enqCommand + 1;
      commandCounter := Counted(commandCounter, 1);
      commandPending := Counted(commandPending, 1);
      if commandRing[enqCommand].trbType == TRB_TYPE_LINK {
        commandRing[enqCommand] := commandRing[enqCommand].(cycle := commandPcs);
        enqCommand := 0;
        commandPcs := !commandPcs;
      }
      EnqueueDelivers(old(CommandView()), command);
    }

    method SetEnqueueCommandPtr()
      requires Valid()
      modifies commandRing
      ensures Valid()
      ensures CommandView() == MarkEnd(old(CommandView()))
      ensures commandRing[..] == old(commandRing[..])[enqCommand := Trb(0, 0, !commandPcs, false, 0, 0)]
    {
      commandRing[enqCommand] := BLANK.(cycle := !commandPcs);
    }

    method EnqueueTransfer(transfer: Trb, slotNumber: nat, dci: nat) returns (slot: nat, stamped: Trb)
      requires Valid() && 1 <= slotNumber <= ROOT_SLOTS && 1 <= dci <= ENDPOINTS_PER_SLOT
      modifies endpoints, transferRings[EndpointIndex(slotNumber, dci)]
      ensures Valid()
      ensures var i := EndpointIndex(slotNumber, dci);
        && TransferView(i) == Enqueue(old(TransferView(i)), transfer)
        && Delivered(old(transferRings[i][..]), transferRings[i][..], slot, transfer, old(endpoints[i].pcs))
        && slot == old(endpoints[i].enq) && stamped == Stamped(transfer, old(endpoints[i].pcs))
        && endpoints[i].counter == Counted(old(endpoints[i].counter), 1)
        && endpoints[i].status == old(endpoints[i].status)
      ensures forall j :: 0 <= j < |transferRings| && j != EndpointIndex(slotNumber, dci) ==>
                TransferView(j) == old(TransferView(j)) && endpoints[j] == old(endpoints[j])
    {
      var i := EndpointIndex(slotNumber, dci);
      assert Usable(TransferView(i));
      var ring := transferRings[i];
      stamped := transfer.(cycle := endpoints[i].pcs);
      slot := endpoints[i].enq;
      ring[slot] := stamped;
      endpoints[i] := endpoints[i].(enq := slot + 1, counter := Counted(endpoints[i].counter, 1));
      if ring[slot + 1].trbType == TRB_TYPE_LINK {
        ring[slot + 1] := ring[slot + 1].(cycle := endpoints[i].pcs);
        endpoints[i] := endpoints[i].(enq := 0, pcs := !endpoints[i].pcs);
      }
      assert TransferView(i) == Enqueue(old(TransferView(i)), transfer);
      EnqueueDelivers(old(TransferView(i)), transfer);
      forall j | 0 <= j < |transferRings| ensures Usable(TransferView(j)) {
        assert old(Usable(TransferView(j)));
        assert j != i ==> TransferView(j) == old(TransferView(j));
      }
    }

    method SetEnqueueTransferPtr(slotNumber: nat, dci: nat)
      requires Valid() && 1 <= slotNumber <= ROOT_SLOTS && 1 <= dci <= ENDPOINTS_PER_SLOT
      modifies transferRings[EndpointIndex(slotNumber, dci)]
      ensures Valid()
      ensures var i := EndpointIndex(slotNumber, dci);
        && TransferView(i) == MarkEnd(old(TransferView(i)))
        && transferRings[i][..]
           == old(transferRings[i][..])[endpoints[i].enq := Trb(0, 0, !endpoints[i].pcs, false, 0, 0)]
      ensures forall j :: 0 <= j < |transferRings| && j != EndpointIndex(slotNumber, dci) ==>
        TransferView(j) == old(TransferView(j))
    {
      var i := EndpointIndex(slotNumber, dci);
      assert Usable(TransferView(i));
      transferRings[i][endpoints[i].enq] := BLANK.(cycle := !endpoints[i].pcs);
    }

    // ---------- the event loop ----------

    /** The endpoints, ports and pending commands are `es`, `ps` and `pending` after `events`. */
    ghost predicate EffectsAre(es: seq<Endpoint>, ps: seq<PortSlotLink>, pending: nat, events: seq<EventTrb>,
                               clock: nat -> nat)
      reads this`commandPending, endpoints, ports
    {
      && commandPending == PendingAfter(pending, events)
      && |es| == endpoints.Length && |ps| == ports.Length
      && (forall i :: 0 <= i < |es| ==> endpoints[i] == es[i].(status := StatusAfter(es[i].status, i, events, clock)))
      && (forall i :: 0 <= i < |ps| ==> ports[i] == PortAfter(ps[i], events))
    }

    /** Takes every fresh event; `clock(k)` is the time read for event number `k` of this call. */
    method ParseEvents(clock: nat -> nat)
      requires Valid() && AllWellFormed(Consumed(eventRing[..], deqEvent, eventCcs))
      modifies this`deqEvent, this`eventCcs, this`eventCounter, this`commandPending, this`erdp, endpoints, ports
      ensures Valid()
      ensures var taken := Consumed(eventRing[..], old(deqEvent), old(eventCcs));
        && (deqEvent, eventCcs) == StopAt(eventRing[..], old(deqEvent), old(eventCcs)) && erdp == deqEvent
        && eventCounter == Counted(old(eventCounter), |taken|)
        && EffectsAre(old(endpoints[..]), old(ports[..]), old(commandPending), taken, clock)
    {
      var events := TakeFreshEvents(clock);
      erdp := events;
      RingsKept();
    }

    /** The loop of `ParseEvents`. */
    method TakeFreshEvents(clock: nat -> nat) returns (events: nat)
      requires deqEvent < eventRing.Length && eventCounter < UINT32
      requires endpoints.Length == ROOT_SLOTS * ENDPOINTS_PER_SLOT
      requires AllWellFormed(Consumed(eventRing[..], deqEvent, eventCcs))
      modifies this`deqEvent, this`eventCcs, this`eventCounter, this`commandPending, endpoints, ports
      ensures events == deqEvent && (deqEvent, eventCcs) == StopAt(eventRing[..], old(deqEvent), old(eventCcs))
      ensures var taken := Consumed(eventRing[..], old(deqEvent), old(eventCcs));
        && eventCounter == Counted(old(eventCounter), |taken|)
        && EffectsAre(old(endpoints[..]), old(ports[..]), old(commandPending), taken, clock)
    {
      hide Taking, EffectsAre, Consumed, StopAt, AllWellFormed, Counted;
      ghost var es, ps, pending := endpoints[..], ports[..], commandPending;
      ghost var taken, stop := Consumed(eventRing[..], deqEvent, eventCcs), StopAt(eventRing[..], deqEvent, eventCcs);
      ghost var done: seq<EventTrb> := [];
      NothingTaken(clock);
      events := deqEvent;
      var count := 0;
      while eventRing[events].cycle == eventCcs
        invariant events == deqEvent < eventRing.Length && count == |done| <= |taken|
        invariant endpoints.Length == ROOT_SLOTS * ENDPOINTS_PER_SLOT
        invariant Taking(taken, stop, done, old(eventCounter), es, ps, pending, clock)
        decreases |taken| - |done|
      {
        ghost var event := eventRing[events];
        events := TakeEvent(events, clock(count), taken, stop, done, old(eventCounter), es, ps, pending, clock);
        done, count := done + [event], count + 1;
      }
      AllTaken(taken, stop, done, old(eventCounter), es, ps, pending, clock);
    }

    /** The events `done` have been taken out of `taken`. */
    ghost predicate Taking(taken: seq<EventTrb>, stop: (nat, bool), done: seq<EventTrb>, counter: nat,
                           es: seq<Endpoint>, ps: seq<PortSlotLink>, pending: nat, clock: nat -> nat)
      reads this`deqEvent, this`eventCcs, this`eventCounter, this`commandPending, eventRing, endpoints, ports
    {
      && Underway(eventRing[..], taken, stop, done, deqEvent, eventCcs)
      && eventCounter == Counted(counter, |done|)
      && EffectsAre(es, ps, pending, done, clock)
    }

    lemma AllTaken(taken: seq<EventTrb>, stop: (nat, bool), done: seq<EventTrb>, counter: nat,
                   es: seq<Endpoint>, ps: seq<PortSlotLink>, pending: nat, clock: nat -> nat)
      requires Taking(taken, stop, done, counter, es, ps, pending, clock)
      requires deqEvent < eventRing.Length && eventRing[deqEvent].cycle != eventCcs
      ensures (deqEvent, eventCcs) == stop && eventCounter == Counted(counter, |taken|)
      ensures EffectsAre(es, ps, pending, taken, clock)
    {
      StopsWhenStale(eventRing[..], taken, stop, done, deqEvent, eventCcs);
    }

    /** The body of the loop. */
    method TakeEvent(events: nat, time: nat, ghost taken: seq<EventTrb>, ghost stop: (nat, bool),
                     ghost done: seq<EventTrb>, ghost counter: nat, ghost es: seq<Endpoint>,
                     ghost ps: seq<PortSlotLink>, ghost pending: nat, ghost clock: nat -> nat) returns (next: nat)
      requires events == deqEvent < eventRing.Length && eventRing[events].cycle == eventCcs
      requires endpoints.Length == ROOT_SLOTS * ENDPOINTS_PER_SLOT && time == clock(|done|)
      requires Taking(taken, stop, done, counter, es, ps, pending, clock) && AllWellFormed(taken)
      modifies this`deqEvent, this`eventCcs, this`eventCounter, this`commandPending, endpoints, ports
      ensures next == deqEvent < eventRing.Length && |done| < |taken|
      ensures Taking(taken, stop, done + [eventRing[events]], counter, es, ps, pending, clock)
    {
      hide EffectsAre;
      StaysUnderway(eventRing[..], taken, stop, done, deqEvent, eventCcs);
      CountOne(counter, |done|);
      HandleEvent(eventRing[events], time, es, ps, pending, done, clock);
      next := AdvanceEvent(events);
    }

    lemma NothingTaken(clock: nat -> nat)
      requires deqEvent < eventRing.Length && eventCounter < UINT32
      ensures Taking(Consumed(eventRing[..], deqEvent, eventCcs), StopAt(eventRing[..], deqEvent, eventCcs), [],
                     eventCounter, endpoints[..], ports[..], commandPending, clock)
    {
      CountOne(eventCounter, 0);
    }

    /** Events touch no ring. */
    twostate lemma RingsKept()
      requires old(RingsValid()) && CommandView() == old(CommandView())
      requires forall i :: 0 <= i < |transferRings| ==> transferRings[i][..] == old(transferRings[i][..])
      requires forall i :: 0 <= i < endpoints.Length ==>
        endpoints[i] == old(endpoints[i]).(status := endpoints[i].status)
      ensures RingsValid()
    {
      forall i | 0 <= i < |transferRings| ensures Usable(TransferView(i)) {
        assert old(Usable(TransferView(i))) && TransferView(i) == old(TransferView(i));
      }
    }

    /** Moves past one event; both copies of the dequeue pointer wrap together. */
    method AdvanceEvent(events: nat) returns (next: nat)
      requires events == deqEvent < eventRing.Length
      modifies this`deqEvent, this`eventCcs, this`eventCounter
      ensures (deqEvent, eventCcs) == Next(eventRing[..], old(deqEvent), old(eventCcs)) && next == deqEvent
      ensures eventCounter == Counted(old(eventCounter), 1)
    {
      deqEvent := deqEvent + 1;
      eventCounter := Counted(eventCounter, 1);
      if deqEvent == eventRing.Length {
        deqEvent := 0;
        next := 0;
        eventCcs := !eventCcs;
      } else {
        next := events + 1;
      }
    }

    /** One event on top of `done`. */
    method HandleEvent(event: EventTrb, time: nat, ghost es: seq<Endpoint>, ghost ps: seq<PortSlotLink>,
                       ghost pending: nat, ghost done: seq<EventTrb>, ghost clock: nat -> nat)
      requires endpoints.Length == ROOT_SLOTS * ENDPOINTS_PER_SLOT && WellFormed(event) && time == clock(|done|)
      requires EffectsAre(es, ps, pending, done, clock)
      modifies this`commandPending, endpoints, ports
      ensures EffectsAre(es, ps, pending, done + [event], clock)
    {
      OneMoreEvent(done, event, clock);
      if event.trbType == TRB_EVENT_TRANSFER {
        var i := EndpointIndex(event.slot, event.byte3 % 32);
        endpoints[i] := endpoints[i].(status := EndpointStatus(false, time % UINT32, event.completionCode));
      } else if event.trbType == TRB_EVENT_CMD_COMPLETE {
        if commandPending > 0 {
          commandPending := commandPending - 1;
        }
        LinkPorts(event);
      }
    }

    method LinkPorts(event: EventTrb)
      requires event.trbType == TRB_EVENT_CMD_COMPLETE
      modifies ports
      ensures forall j :: 0 <= j < ports.Length ==> ports[j] == PortHandled(old(ports[j]), event)
    {
      for i := 0 to ports.Length
        invariant forall j :: 0 <= j < ports.Length ==>
          ports[j] == if j < i then PortHandled(old(ports[j]), event) else old(ports[j])
      {
        if ports[i].commandAddress == event.data {
          ports[i] := ports[i].(slotNumber := event.slot);
        }
      }
    }
  }
}
