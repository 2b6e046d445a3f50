/** Command and transfer rings of the xHCI driver (Kernel/Modules/XHCIController.cpp).

    The driver is the producer and the controller the consumer of a 256-slot ring of transfer request
    blocks (TRBs).  Nothing but the cycle bit of each slot tells the consumer which slots are new: sections
    4.9.2 and 4.9.3 of the eXtensible Host Controller Interface for USB.  The ring is described here as a
    value; `XhciDriver` holds the memory and the methods that change it. */
module XhciRing {

  const RING_SLOTS := 256
  const LINK_SLOT := 255
  const TRB_BYTES := 16
  const TRB_TYPE_RESERVED := 0
  const TRB_TYPE_LINK := 6

  /** A TRB: 64-bit parameter, status word, and the control word split into the cycle bit, bit 1 (TC in a
      Link TRB), the type and the remaining bits. */
  datatype Trb = Trb(parameter: nat, status: nat, cycle: bool, toggleCycle: bool, trbType: nat, control: nat)

  /** The all-zero TRB that marks the end of what was enqueued. */
  const BLANK := Trb(0, 0, false, false, TRB_TYPE_RESERVED, 0)

  /** The same TRB in every field but the cycle bit. */
  predicate SameTrb(a: Trb, b: Trb) {
    && a.parameter == b.parameter && a.status == b.status && a.toggleCycle == b.toggleCycle
    && a.trbType == b.trbType && a.control == b.control
  }

  /** The driver writes the producer cycle state into the caller's TRB before it copies it. */
  function Stamped(t: Trb, cycle: bool): (r: Trb)
    ensures SameTrb(r, t) && r.cycle == cycle
  {
    t.(cycle := cycle)
  }

  /** Producer side: the slots, the bus address of slot 0, the enqueue index and the producer cycle state. */
  datatype Ring = Ring(slots: seq<Trb>, base: nat, enq: nat, pcs: bool)

  /** The ring as `start` sets it up: zero slots and a Link TRB back to slot 0 that toggles the cycle. */
  function EmptyRing(base: nat): Ring {
    Ring(seq(LINK_SLOT, i => BLANK) + [Trb(base, 0, false, true, TRB_TYPE_LINK, 0)], base, 0, true)
  }

  /** What the driver's own accesses need: the enqueue index names a data slot and the last slot is a Link. */
  predicate Usable(r: Ring) {
    |r.slots| == RING_SLOTS && r.enq < LINK_SLOT && r.slots[LINK_SLOT].trbType == TRB_TYPE_LINK
  }

  // ---------- the driver's writes ----------

  /** First shared write of an enqueue: the TRB, with the producer cycle state, goes to the enqueue slot. */
  function Store(r: Ring, t: Trb): Ring
    requires r.enq < |r.slots|
  {
    r.(slots := r.slots[r.enq := Stamped(t, r.pcs)], enq := r.enq + 1)
  }

  predicate AtLink(r: Ring) {
    r.enq < |r.slots| && r.slots[r.enq].trbType == TRB_TYPE_LINK
  }

  /** Second shared write, made only on reaching a Link: hand the Link over and start the next lap. */
  function HandOverLink(r: Ring): Ring
    requires AtLink(r)
  {
    r.(slots := r.slots[r.enq := Stamped(r.slots[r.enq], r.pcs)], enq := 0, pcs := !r.pcs)
  }

  /** A whole enqueue. */
  function Enqueue(r: Ring, t: Trb): Ring
    requires r.enq < |r.slots|
  {
    var stored := Store(r, t);
    if AtLink(stored) then HandOverLink(stored) else stored
  }

  /** The end marker: a blank TRB that the consumer must not take. */
  function MarkEnd(r: Ring): Ring
    requires r.enq < |r.slots|
  {
    r.(slots := r.slots[r.enq := Stamped(BLANK, !r.pcs)])
  }

  /** Slot `slot` now holds `t` with this cycle bit.  Of all other slots at most a Link behind it has changed, and of
      that only the cycle bit. */
  ghost predicate Delivered(before: seq<Trb>, after: seq<Trb>, slot: nat, t: Trb, cycle: bool) {
    && slot < |after| == |before| && SameTrb(after[slot], t) && after[slot].cycle == cycle
    && forall k :: 0 <= k < |after| && k != slot && after[k] != before[k] ==>
         k == slot + 1 && before[k].trbType == TRB_TYPE_LINK && SameTrb(after[k], before[k]) && after[k].cycle == cycle
  }

  /** What an enqueue puts into the ring is the caller's TRB, and it does no other damage. */
  lemma EnqueueDelivers(r: Ring, t: Trb)
    requires r.enq < |r.slots|
    ensures Delivered(r.slots, Enqueue(r, t).slots, r.enq, t, r.pcs)
  {
    var stored := Store(r, t);
    assert Delivered(r.slots, stored.slots, r.enq, t, r.pcs);
  }

  /** The end marker is a TRB of zeros but for its cycle bit, which is not the producer's. */
  lemma MarkEndDelivers(r: Ring)
    requires r.enq < |r.slots|
    ensures Delivered(r.slots, MarkEnd(r).slots, r.enq, Trb(0, 0, false, false, 0, 0), !r.pcs)
    ensures MarkEnd(r).slots == r.slots[r.enq := Trb(0, 0, !r.pcs, false, 0, 0)]
  {
    assert MarkEnd(r).slots[r.enq].cycle == !r.pcs;
  }

  // ---------- the controller ----------

  /** Consumer side: the dequeue index and the consumer cycle state. */
  datatype Device = Device(deq: int, ccs: bool)

  /** The controller takes a slot only when its cycle bit equals the consumer cycle state. */
  predicate CanStep(r: Ring, d: Device) {
    0 <= d.deq < |r.slots| && r.slots[d.deq].cycle == d.ccs
  }

  predicate TakesTrb(r: Ring, d: Device) {
    CanStep(r, d) && r.slots[d.deq].trbType != TRB_TYPE_LINK
  }

  /** A Link TRB moves the controller to the address it holds; any other TRB is executed. */
  function DeviceStep(r: Ring, d: Device): Device
    requires CanStep(r, d)
  {
    var t := r.slots[d.deq];
    if t.trbType == TRB_TYPE_LINK then Device((t.parameter - r.base) / TRB_BYTES, d.ccs != t.toggleCycle)
    else d.(deq := d.deq + 1)
  }

  /** A Link that holds the bus address of a slot leads to that slot. */
  lemma LinkLeads(r: Ring, d: Device, k: nat)
    requires CanStep(r, d) && !TakesTrb(r, d) && r.slots[d.deq].parameter == r.base + TRB_BYTES * k
    ensures DeviceStep(r, d).deq == k && (DeviceStep(r, d).ccs == d.ccs <==> !r.slots[d.deq].toggleCycle)
  {
    assert TRB_BYTES * k / TRB_BYTES == k;
  }

  // ---------- driver and controller together ----------

  /** `sent` and `seen` are the TRBs enqueued and executed so far; `linkPending` holds between the two shared
      writes of an enqueue that reaches the Link. */
  datatype System = System(ring: Ring, linkPending: bool, device: Device, sent: seq<Trb>, seen: seq<Trb>)

  datatype Action =
    | StoreTrb(trb: Trb)
    | HandOver
    | WriteEndMarker
    | DeviceMove

  function Start(base: nat): System {
    System(EmptyRing(base), false, Device(0, true), [], [])
  }

  function Outstanding(s: System): int {
    |s.sent| - |s.seen|
  }

  /** The driver's program order: a pending Link comes before any other write. */
  predicate InOrder(s: System, a: Action) {
    match a
    case StoreTrb(t) => !s.linkPending && s.ring.enq < |s.ring.slots|
    case HandOver => s.linkPending && AtLink(s.ring)
    case WriteEndMarker => !s.linkPending && s.ring.enq < |s.ring.slots|
    case DeviceMove => CanStep(s.ring, s.device)
  }

  function Step(s: System, a: Action): System
    requires InOrder(s, a)
  {
    match a
    case StoreTrb(t) =>
      var ring := Store(s.ring, t);
      s.(ring := ring, linkPending := AtLink(ring), sent := s.sent + [Stamped(t, s.ring.pcs)])
    case HandOver => s.(ring := HandOverLink(s.ring), linkPending := false)
    case WriteEndMarker => s.(ring := MarkEnd(s.ring))
    case DeviceMove =>
      s.(device := DeviceStep(s.ring, s.device),
         seen := if TakesTrb(s.ring, s.device) then s.seen + [s.ring.slots[s.device.deq]] else s.seen)
  }

  /** Room for one more TRB: at most 253 outstanding, or 254 unless the one free slot is the last data slot and
      the controller still has to take the Link behind it. */
  predicate Room(s: System) {
    Outstanding(s) < LINK_SLOT && !(s.ring.enq == LINK_SLOT - 1 && s.device.deq == LINK_SLOT)
  }

  /** What the ring leaves to its users: they store only where there is room, never store a Link TRB, and write
      the end marker only while one data slot is free. */
  predicate Allowed(s: System, a: Action) {
    && InOrder(s, a)
    && (a.StoreTrb? ==> Room(s) && a.trb.trbType != TRB_TYPE_LINK)
    && (a.WriteEndMarker? ==> Outstanding(s) < LINK_SLOT)
  }

  predicate AllowedRun(s: System, run: seq<Action>)
    decreases |run|
  {
    run == [] || (Allowed(s, run[0]) && AllowedRun(Step(s, run[0]), run[1..]))
  }

  function Run(s: System, run: seq<Action>): System
    requires AllowedRun(s, run)
    decreases |run|
  {
    if run == [] then s else Run(Step(s, run[0]), run[1..])
  }

  /** The TRBs that the store actions of a run hand over. */
  function HandedIn(run: seq<Action>): seq<Trb> {
    if run == [] then []
    else (if run[0].StoreTrb? then [run[0].trb] else []) + HandedIn(run[1..])
  }

  ghost predicate SameTrbs(a: seq<Trb>, b: seq<Trb>) {
    |a| == |b| && forall k :: 0 <= k < |a| ==> SameTrb(a[k], b[k])
  }

  // ---------- the invariant ----------

  /** Slots below the enqueue index carry the producer cycle state; the rest, the Link included, its opposite.
      Only the last slot is a Link. */
  predicate CycleBits(r: Ring) {
    && |r.slots| == RING_SLOTS && r.enq <= LINK_SLOT
    && (forall i :: 0 <= i < r.enq ==> r.slots[i].cycle == r.pcs)
    && (forall i :: r.enq <= i < RING_SLOTS ==> r.slots[i].cycle == !r.pcs)
    && (forall i :: 0 <= i < LINK_SLOT ==> r.slots[i].trbType != TRB_TYPE_LINK)
    && r.slots[LINK_SLOT].trbType == TRB_TYPE_LINK
    && r.slots[LINK_SLOT].toggleCycle && r.slots[LINK_SLOT].parameter == r.base
  }

  /** The slots between consumer and producer, oldest first: in one piece while both are on the same lap,
      in two when the producer has already passed the Link. */
  function Queue(r: Ring, d: Device): seq<Trb>
    requires |r.slots| == RING_SLOTS && r.enq <= LINK_SLOT && 0 <= d.deq <= LINK_SLOT
  {
    if d.ccs == r.pcs then (if d.deq <= r.enq then r.slots[d.deq..r.enq] else [])
    else r.slots[d.deq..LINK_SLOT] + r.slots[..r.enq]
  }

  predicate Inv(s: System) {
    && CycleBits(s.ring)
    && s.linkPending == (s.ring.enq == LINK_SLOT)
    && 0 <= s.device.deq <= LINK_SLOT
    && (s.device.ccs == s.ring.pcs ==> s.device.deq <= s.ring.enq)
    && (s.device.ccs != s.ring.pcs ==> s.ring.enq <= s.device.deq && !s.linkPending)
    && s.sent == s.seen + Queue(s.ring, s.device)
  }

  /** The slots of a new ring: zeros, and the Link. */
  lemma EmptyRingSlots(base: nat, i: nat)
    requires i < RING_SLOTS
    ensures EmptyRing(base).slots[i]
            == if i < LINK_SLOT then Trb(0, 0, false, false, 0, 0) else Trb(base, 0, false, true, TRB_TYPE_LINK, 0)
  {
  }

  lemma StartInv(base: nat)
    ensures Inv(Start(base))
  {
  }

  /** A store keeps the invariant exactly when there is room and the TRB is not a Link. */
  lemma StoreKeepsInvIff(s: System, t: Trb)
    requires Inv(s) && InOrder(s, StoreTrb(t))
    ensures Inv(Step(s, StoreTrb(t))) <==> Room(s) && t.trbType != TRB_TYPE_LINK
  {
    var n := Step(s, StoreTrb(t));
    assert n.ring.slots[s.ring.enq].trbType == t.trbType;
    if Room(s) && t.trbType != TRB_TYPE_LINK {
      var q := Queue(s.ring, s.device);
      assert |q| == Outstanding(s);
      assert Queue(n.ring, n.device) == q + [n.ring.slots[s.ring.enq]];
    }
  }

  lemma HandOverKeepsInv(s: System)
    requires Inv(s) && s.linkPending
    ensures InOrder(s, HandOver) && Inv(Step(s, HandOver))
  {
    assert Queue(HandOverLink(s.ring), s.device) == Queue(s.ring, s.device);
  }

  lemma MarkKeepsBits(r: Ring)
    requires CycleBits(r) && r.enq < LINK_SLOT
    ensures CycleBits(MarkEnd(r))
  {
  }

  /** The end marker keeps the invariant exactly when it destroys nothing: a data slot is free, or the slot it
      overwrites already held a blank TRB. */
  lemma MarkKeepsInvIff(s: System)
    requires Inv(s) && !s.linkPending
    ensures Inv(Step(s, WriteEndMarker)) <==>
            Outstanding(s) < LINK_SLOT || s.ring.slots[s.ring.enq] == Stamped(BLANK, !s.ring.pcs)
  {
    MarkKeepsBits(s.ring);
    if Outstanding(s) < LINK_SLOT {
      MarkFreeSlot(s);
    } else {
      MarkTakenSlot(s);
      hide CycleBits, Queue, MarkEnd;
      var q := Queue(s.ring, s.device);
      var m := q[0 := Stamped(BLANK, !s.ring.pcs)];
      assert (s.seen + q)[|s.seen|..] == q && (s.seen + m)[|s.seen|..] == m;
      assert m[0] == q[0] ==> m == q;
    }
  }

  lemma MarkFreeSlot(s: System)
    requires Inv(s) && !s.linkPending && Outstanding(s) < LINK_SLOT
    ensures Queue(MarkEnd(s.ring), s.device) == Queue(s.ring, s.device)
  {
    assert |Queue(s.ring, s.device)| == Outstanding(s);
  }

  /** In a ring with 255 TRBs outstanding the slot that the marker goes to holds the oldest. */
  lemma MarkTakenSlot(s: System)
    requires Inv(s) && !s.linkPending && Outstanding(s) >= LINK_SLOT
    ensures var q := Queue(s.ring, s.device);
      && q != [] && q[0] == s.ring.slots[s.ring.enq]
      && Queue(MarkEnd(s.ring), s.device) == q[0 := Stamped(BLANK, !s.ring.pcs)]
  {
    assert |Queue(s.ring, s.device)| == Outstanding(s);
    assert s.device.ccs != s.ring.pcs && s.device.deq == s.ring.enq;
  }

  /** Executing a TRB takes it from the front of the queue. */
  lemma TakeFront(r: Ring, d: Device)
    requires |r.slots| == RING_SLOTS && r.enq <= LINK_SLOT && 0 <= d.deq < LINK_SLOT
    requires if d.ccs == r.pcs then d.deq < r.enq else r.enq <= d.deq
    ensures Queue(r, d) == [r.slots[d.deq]] + Queue(r, d.(deq := d.deq + 1))
  {
    if d.ccs != r.pcs {
      assert r.slots[d.deq..LINK_SLOT] == [r.slots[d.deq]] + r.slots[d.deq + 1..LINK_SLOT];
    } else {
      assert r.slots[d.deq..r.enq] == [r.slots[d.deq]] + r.slots[d.deq + 1..r.enq];
    }
  }

  lemma TakeKeepsInv(s: System)
    requires Inv(s) && TakesTrb(s.ring, s.device)
    ensures Inv(Step(s, DeviceMove))
  {
    TakeBefore(s.ring, s.device);
    TakeStep(s);
    TakenFromQueue(s);
    hide CycleBits, Queue, Step, TakesTrb, CanStep;
  }

  lemma TakenFromQueue(s: System)
    requires |s.ring.slots| == RING_SLOTS && s.ring.enq <= LINK_SLOT && 0 <= s.device.deq < LINK_SLOT
    requires if s.device.ccs == s.ring.pcs then s.device.deq < s.ring.enq else s.ring.enq <= s.device.deq
    requires s.sent == s.seen + Queue(s.ring, s.device)
    ensures s.sent == s.seen + [s.ring.slots[s.device.deq]] + Queue(s.ring, s.device.(deq := s.device.deq + 1))
  {
    TakeFront(s.ring, s.device);
    hide Queue;
    Regroup(s.seen, [s.ring.slots[s.device.deq]], Queue(s.ring, s.device.(deq := s.device.deq + 1)));
  }

  lemma Regroup(a: seq<Trb>, b: seq<Trb>, c: seq<Trb>)
    ensures a + (b + c) == a + b + c
  {
  }

  lemma TakeStep(s: System)
    requires TakesTrb(s.ring, s.device)
    ensures Step(s, DeviceMove)
      == s.(device := s.device.(deq := s.device.deq + 1), seen := s.seen + [s.ring.slots[s.device.deq]])
  {
  }

  /** A TRB that can be executed lies before the producer. */
  lemma TakeBefore(r: Ring, d: Device)
    requires CycleBits(r) && 0 <= d.deq <= LINK_SLOT && TakesTrb(r, d)
    requires d.ccs == r.pcs ==> d.deq <= r.enq
    ensures |r.slots| == RING_SLOTS && d.deq < LINK_SLOT && (d.ccs == r.pcs ==> d.deq < r.enq)
  {
  }

  lemma FollowLinkKeepsInv(s: System)
    requires Inv(s) && CanStep(s.ring, s.device) && !TakesTrb(s.ring, s.device)
    ensures Inv(Step(s, DeviceMove))
  {
    assert s.device.deq == LINK_SLOT && s.device.ccs != s.ring.pcs;
    var d := Device(0, s.ring.pcs);
    assert Step(s, DeviceMove) == s.(device := d);
    assert Queue(s.ring, d) == Queue(s.ring, s.device);
  }

  lemma DeviceMoveKeepsInv(s: System)
    requires Inv(s) && CanStep(s.ring, s.device)
    ensures Inv(Step(s, DeviceMove))
  {
    if TakesTrb(s.ring, s.device) {
      TakeKeepsInv(s);
    } else {
      FollowLinkKeepsInv(s);
    }
  }

  lemma StepInv(s: System, a: Action)
    requires Inv(s) && Allowed(s, a)
    ensures Inv(Step(s, a))
  {
    match a
    case StoreTrb(t) => StoreKeepsInvIff(s, t);
    case HandOver => HandOverKeepsInv(s);
    case WriteEndMarker => MarkKeepsInvIff(s);
    case DeviceMove => DeviceMoveKeepsInv(s);
  }

  // ---------- whole runs ----------

  /** What a run enqueues are the TRBs handed in. */
  lemma {:induction false} SentAreHandedIn(s: System, run: seq<Action>)
    requires AllowedRun(s, run)
    ensures var e := Run(s, run); s.sent <= e.sent && SameTrbs(e.sent[|s.sent|..], HandedIn(run))
    decreases |run|
  {
    if run != [] {
      hide InOrder, Room;
      var n, e := Step(s, run[0]), Run(s, run);
      SentAreHandedIn(n, run[1..]);
      assert e.sent[|s.sent|..] == n.sent[|s.sent|..] + e.sent[|n.sent|..];
    }
  }

  /** Over every interleaving of driver and controller steps the ring is a first-in first-out queue: what the
      controller executed is an initial part of what was enqueued, and the slots between the two indices hold
      the rest in order.  What was enqueued are the callers' TRBs in every field but the cycle bit. */
  lemma {:induction false} RunIsFifo(s: System, run: seq<Action>)
    requires Inv(s) && AllowedRun(s, run)
    ensures var e := Run(s, run);
      && Inv(e)
      && s.sent <= e.sent && s.seen <= e.seen <= e.sent
      && e.sent == e.seen + Queue(e.ring, e.device)
      && SameTrbs(e.sent[|s.sent|..], HandedIn(run))
    decreases |run|
  {
    SentAreHandedIn(s, run);
    hide SameTrbs, HandedIn;
    if run != [] {
      StepInv(s, run[0]);
      RunIsFifo(Step(s, run[0]), run[1..]);
    }
  }

  /** The controller never passes the producer, and never sticks before it: outside a pending Link it can move
      exactly when a TRB is outstanding or only the Link lies between it and the producer.  A move takes the
      oldest outstanding TRB, or the Link. */
  lemma DeviceProgress(s: System)
    requires Inv(s)
    ensures CanStep(s.ring, s.device) <==>
            Queue(s.ring, s.device) != [] || (s.device.deq == LINK_SLOT && s.device.ccs != s.ring.pcs)
    ensures TakesTrb(s.ring, s.device) ==>
              Outstanding(s) > 0 && s.ring.slots[s.device.deq] == s.sent[|s.seen|]
  {
    var q := Queue(s.ring, s.device);
    if TakesTrb(s.ring, s.device) {
      assert q[0] == s.ring.slots[s.device.deq];
    }
  }

  /** Left alone, the controller executes everything outstanding. */
  lemma {:induction false} DeviceDrains(s: System) returns (run: seq<Action>)
    requires Inv(s) && !s.linkPending
    ensures AllowedRun(s, run) && forall i :: 0 <= i < |run| ==> run[i] == DeviceMove
    ensures Run(s, run).seen == s.sent && Run(s, run).sent == s.sent
    decreases Outstanding(s), s.device.deq == LINK_SLOT
  {
    if Outstanding(s) == 0 {
      run := [];
      assert s.sent[..|s.seen|] == s.seen;
    } else {
      DrainStep(s);
      hide Inv, CanStep, Step;
      run := DeviceDrains(Step(s, DeviceMove));
      run := [DeviceMove] + run;
      assert run[1..] == run[1..];
    }
  }

  /** With a TRB outstanding the controller takes it, or the Link before it. */
  lemma DrainStep(s: System)
    requires Inv(s) && !s.linkPending && Outstanding(s) > 0
    ensures Allowed(s, DeviceMove)
    ensures var n := Step(s, DeviceMove);
      && Inv(n) && !n.linkPending && n.sent == s.sent
      && (Outstanding(n) < Outstanding(s)
          || (Outstanding(n) == Outstanding(s) && s.device.deq == LINK_SLOT && n.device.deq != LINK_SLOT))
  {
    DeviceProgress(s);
    DeviceMoveKeepsInv(s);
    assert |Queue(s.ring, s.device)| == Outstanding(s);
  }

  // ---------- the bound ----------

  /** Staying below 254 outstanding TRBs before each store is always enough room. */
  lemma FewOutstandingIsRoom(s: System)
    requires Inv(s) && Outstanding(s) < LINK_SLOT - 1
    ensures Room(s)
  {
    assert |Queue(s.ring, s.device)| == Outstanding(s);
  }

  /** Without room a complete enqueue hides every outstanding TRB: the controller stands before a slot or a
      Link whose cycle bit has moved two laps ahead, and stops. */
  lemma OverfullRingStalls(s: System, t: Trb)
    requires Inv(s) && InOrder(s, StoreTrb(t)) && t.trbType != TRB_TYPE_LINK
    ensures !Room(s) ==> !CanStep(Enqueue(s.ring, t), s.device) && Outstanding(s) >= LINK_SLOT - 1
    ensures Room(s) ==> CanStep(Enqueue(s.ring, t), s.device)
  {
    assert |Queue(s.ring, s.device)| == Outstanding(s);
    var stored := Store(s.ring, t);
    assert stored.slots[s.ring.enq].cycle == s.ring.pcs;
    assert AtLink(stored) <==> stored.enq == LINK_SLOT;
  }

  // ---------- the full ring is reached ----------

  lemma {:induction false} RunOn(s: System, a: seq<Action>, b: seq<Action>)
    requires AllowedRun(s, a) && AllowedRun(Run(s, a), b)
    ensures AllowedRun(s, a + b) && Run(s, a + b) == Run(Run(s, a), b)
    decreases |a|
  {
    if a == [] {
      assert a + b == b;
    } else {
      assert (a + b)[1..] == a[1..] + b;
      RunOn(Step(s, a[0]), a[1..], b);
    }
  }

  /** `n` stores in a row, on one lap. */
  lemma {:induction false} Stores(s: System, t: Trb, n: nat) returns (run: seq<Action>)
    requires Inv(s) && t.trbType != TRB_TYPE_LINK && Outstanding(s) + n <= LINK_SLOT
    requires s.ring.enq + n <= (if s.device.deq == LINK_SLOT then LINK_SLOT - 1 else LINK_SLOT)
    ensures AllowedRun(s, run)
    ensures var e := Run(s, run);
      && Inv(e) && e.ring.enq == s.ring.enq + n && e.ring.pcs == s.ring.pcs && e.device == s.device && e.seen == s.seen
      && s.sent <= e.sent && |e.sent| == |s.sent| + n
      && forall i :: |s.sent| <= i < |e.sent| ==> e.sent[i] == Stamped(t, s.ring.pcs)
    decreases n
  {
    if n == 0 {
      run := [];
    } else {
      OneStore(s, t);
      hide CycleBits, Queue, Inv, Room, InOrder, Stamped;
      var next := Step(s, StoreTrb(t));
      run := Stores(next, t, n - 1);
      run := [StoreTrb(t)] + run;
      assert run[1..] == run[1..];
    }
  }

  lemma OneStore(s: System, t: Trb)
    requires Inv(s) && t.trbType != TRB_TYPE_LINK && Outstanding(s) < LINK_SLOT && s.ring.enq < LINK_SLOT
    requires s.device.deq == LINK_SLOT ==> s.ring.enq < LINK_SLOT - 1
    ensures Allowed(s, StoreTrb(t))
    ensures var n := Step(s, StoreTrb(t));
      && Inv(n) && n.ring.enq == s.ring.enq + 1 && n.ring.pcs == s.ring.pcs && n.device == s.device && n.seen == s.seen
      && n.sent == s.sent + [Stamped(t, s.ring.pcs)]
  {
    StoreKeepsInvIff(s, t);
  }

  /** `n` TRBs executed in a row, on one lap. */
  lemma {:induction false} Moves(s: System, n: nat) returns (run: seq<Action>)
    requires Inv(s) && n <= Outstanding(s) && s.device.deq + n <= LINK_SLOT
    ensures AllowedRun(s, run)
    ensures var e := Run(s, run);
      && Inv(e) && e.ring == s.ring && e.linkPending == s.linkPending && e.device == s.device.(deq := s.device.deq + n)
      && e.sent == s.sent && |e.seen| == |s.seen| + n
    decreases n
  {
    if n == 0 {
      run := [];
    } else {
      MoveTakes(s);
      hide CycleBits, Queue, CanStep;
      var next := Step(s, DeviceMove);
      run := Moves(next, n - 1);
      run := [DeviceMove] + run;
      assert run[1..] == run[1..];
    }
  }

  lemma MoveTakes(s: System)
    requires Inv(s) && Outstanding(s) > 0 && s.device.deq < LINK_SLOT
    ensures TakesTrb(s.ring, s.device) && Inv(Step(s, DeviceMove))
    ensures Step(s, DeviceMove).device == s.device.(deq := s.device.deq + 1)
  {
    assert |Queue(s.ring, s.device)| == Outstanding(s);
    DeviceProgress(s);
    DeviceMoveKeepsInv(s);
  }

  /** A whole lap of stores from the start, with the Link handed over: 255 TRBs are outstanding. */
  lemma FullLap(base: nat, t: Trb) returns (run: seq<Action>)
    requires t.trbType != TRB_TYPE_LINK
    ensures AllowedRun(Start(base), run)
    ensures var e := Run(Start(base), run);
      && Inv(e) && e.ring.enq == 0 && !e.ring.pcs && e.device == Device(0, true) && !e.linkPending && e.seen == []
      && |e.sent| == LINK_SLOT && e.sent[0] == Stamped(t, true)
  {
    var s := Start(base);
    StartInv(base);
    run := Stores(s, t, LINK_SLOT);
    hide CycleBits, Queue, AllowedRun, Run, Stamped;
    HandOverKeepsInv(Run(s, run));
    OneAction(Run(s, run), HandOver);
    RunOn(s, run, [HandOver]);
    run := run + [HandOver];
  }

  lemma OneAction(s: System, a: Action)
    requires Allowed(s, a)
    ensures AllowedRun(s, [a]) && Run(s, [a]) == Step(s, a)
  {
    assert [a][1..] == [];
  }

  /** With 254 TRBs outstanding there may be no room: a run that keeps to the rules leads there. */
  lemma NoRoomReached(base: nat, t: Trb) returns (run: seq<Action>)
    requires t.trbType != TRB_TYPE_LINK
    ensures AllowedRun(Start(base), run)
    ensures var e := Run(Start(base), run);
      Outstanding(e) == LINK_SLOT - 1 && InOrder(e, StoreTrb(t)) && !Room(e) && !Inv(Step(e, StoreTrb(t)))
  {
    var s := Start(base);
    run := FullLap(base, t);
    hide AllowedRun, Run, Stamped;
    var moves := Moves(Run(s, run), LINK_SLOT);
    RunOn(s, run, moves);
    run := run + moves;
    var stores := Stores(Run(s, run), t, LINK_SLOT - 1);
    RunOn(s, run, stores);
    run := run + stores;
    StoreKeepsInvIff(Run(s, run), t);
  }

  /** With 255 outstanding the end marker may destroy one: so may a run that keeps to the rules. */
  lemma MarkDestroysReached(base: nat, t: Trb) returns (run: seq<Action>)
    requires t.trbType != TRB_TYPE_LINK && Stamped(t, true) != Stamped(BLANK, true)
    ensures AllowedRun(Start(base), run)
    ensures var e := Run(Start(base), run);
      Outstanding(e) == LINK_SLOT && InOrder(e, WriteEndMarker) && !Inv(Step(e, WriteEndMarker))
  {
    run := FullLap(base, t);
    var e := Run(Start(base), run);
    hide AllowedRun, Run;
    assert Queue(e.ring, e.device)[0] == e.ring.slots[0] == e.sent[0];
    MarkKeepsInvIff(e);
  }

  /** An enqueue that is not interrupted is its two shared writes in a row. */
  lemma EnqueueIsItsWrites(s: System, t: Trb)
    requires Inv(s) && InOrder(s, StoreTrb(t)) && Allowed(s, StoreTrb(t))
    ensures var stored := Step(s, StoreTrb(t));
      var done := if stored.linkPending then Step(stored, HandOver) else stored;
      && (stored.linkPending ==> Allowed(stored, HandOver))
      && done.ring == Enqueue(s.ring, t) && !done.linkPending && Inv(done)
      && done.sent == s.sent + [Stamped(t, s.ring.pcs)] && done.seen == s.seen && done.device == s.device
  {
    StoreKeepsInvIff(s, t);
    if Step(s, StoreTrb(t)).linkPending {
      HandOverKeepsInv(Step(s, StoreTrb(t)));
    }
  }
}
