/** Splitting a USB transfer into packets: Transfer::InTransaction and Transfer::OutTransaction of
    Kernel/Modules/USBCommon.cpp. */
module UsbTransfer {

  datatype Direction = In | Out

  /** What the host controller is asked to do for one packet. */
  datatype Packet = Packet(direction: Direction, toggle: bool, buffer: int, length: nat, remaining: nat)

  /** The packets a transfer of `length` bytes needs: as many as hold it, and one for an empty transfer. */
  function PacketCount(length: nat, packetSize: nat): (n: nat)
    requires packetSize > 0
    ensures n > 0
  {
    if length <= packetSize then 1 else 1 + PacketCount(length - packetSize, packetSize)
  }

  /** The number is the least that holds the length, and one for an empty transfer. */
  lemma {:induction false} LeastCount(length: nat, packetSize: nat)
    requires packetSize > 0
    ensures var n := PacketCount(length, packetSize);
      length <= n * packetSize && (length > 0 ==> (n - 1) * packetSize < length) && (length == 0 ==> n == 1)
  {
    if length > packetSize {
      LeastCount(length - packetSize, packetSize);
      var n := PacketCount(length - packetSize, packetSize);
      assert (n + 1) * packetSize == n * packetSize + packetSize;
      assert n * packetSize == (n - 1) * packetSize + packetSize;
    }
  }

  /** The packets of a transfer: packet `k` starts `k` packet sizes into the buffer, takes what is left there up to a
      packet size, counts down to no remaining packet, and flips the data toggle. */
  function Packets(d: Direction, toggle: bool, buffer: int, length: nat, packetSize: nat): (p: seq<Packet>)
    requires packetSize > 0
    ensures |p| == PacketCount(length, packetSize)
  {
    var n := PacketCount(length, packetSize);
    seq(n, k requires 0 <= k < n => PacketAt(d, toggle, buffer, length, packetSize, k))
  }

  function PacketAt(d: Direction, toggle: bool, buffer: int, length: nat, packetSize: nat, k: nat): Packet
    requires packetSize > 0 && k < PacketCount(length, packetSize)
  {
    StartsInside(length, packetSize, k);
    PacketFrom(d, toggle, buffer, length, packetSize, PacketCount(length, packetSize), k, k * packetSize)
  }

  /** Packet `k` out of `n`, which starts at `offset`. */
  function PacketFrom(d: Direction, toggle: bool, buffer: int, length: nat, packetSize: nat, n: nat, k: nat,
                      offset: nat)
    : Packet
    requires k < n && offset <= length
  {
    var left: nat := length - offset;
    Packet(d, if k % 2 == 0 then toggle else !toggle, buffer + offset, if left < packetSize then left else packetSize,
           n - 1 - k)
  }

  lemma StartsInside(length: nat, packetSize: nat, k: nat)
    requires packetSize > 0 && k < PacketCount(length, packetSize)
    ensures 0 <= k * packetSize <= length
  {
    LeastCount(length, packetSize);
    Scale(k, PacketCount(length, packetSize) - 1, packetSize);
  }

  /** The division the driver does finds the packets that remain after the first. */
  lemma RemainingPackets(length: nat, packetSize: nat)
    requires packetSize > 0
    ensures var left: nat := length - if packetSize < length then packetSize else length;
      left / packetSize + (if left % packetSize != 0 then 1 else 0) == PacketCount(length, packetSize) - 1
  {
    if packetSize < length {
      LeastCount(length - packetSize, packetSize);
      DivideUp(length - packetSize, packetSize, PacketCount(length - packetSize, packetSize));
    } else {
      assert 0 / packetSize == 0 && 0 % packetSize == 0;
    }
  }

  /** The same count in 16 bits, with its increment. */
  lemma Remaining16(length: nat, packetSize: nat)
    requires packetSize > 0
    ensures var left: nat := length - if packetSize < length then packetSize else length;
      var n := left / packetSize % 0x1_0000;
      (if left % packetSize != 0 then (n + 1) % 0x1_0000 else n) == (PacketCount(length, packetSize) - 1) % 0x1_0000
    ensures PacketCount(length, packetSize) == 1 <==> length <= packetSize
  {
    RemainingPackets(length, packetSize);
    var left: nat := length - if packetSize < length then packetSize else length;
    OneMore16(left / packetSize);
  }

  lemma OneMore16(n: nat)
    ensures (n % 0x1_0000 + 1) % 0x1_0000 == (n + 1) % 0x1_0000
  {
  }

  lemma DivideUp(n: nat, d: nat, up: nat)
    requires d > 0 && up > 0 && n <= up * d && (up - 1) * d < n
    ensures n / d + (if n % d != 0 then 1 else 0) == up
  {
    var q, r := n / d, n % d;
    assert n == q * d + r && (up - 1) * d == up * d - d && (q + 1) * d == q * d + d;
    Cancel(up - 1, q + 1, d);
    if r == 0 {
      Cancel(q - 1, up, d);
      assert (q - 1) * d == q * d - d;
      Cancel(up - 1, q, d);
    } else {
      Cancel(q, up, d);
    }
  }

  lemma Cancel(a: int, b: int, d: nat)
    requires d > 0
    ensures a * d < b * d <==> a < b
  {
    if a < b {
      Scale(a + 1, b, d);
      assert (a + 1) * d == a * d + d;
    } else {
      Scale(b, a, d);
    }
  }

  lemma Scale(a: int, b: int, d: nat)
    requires a <= b
    ensures a * d <= b * d
  {
    assert (b - a) * d >= 0;
    assert (b - a) * d == b * d - a * d;
  }

  lemma NextPacket(d: Direction, toggle: bool, buffer: int, length: nat, packetSize: nat, k: nat)
    requires 0 < packetSize < length && k < PacketCount(length - packetSize, packetSize)
    ensures k + 1 < PacketCount(length, packetSize)
    ensures PacketAt(d, toggle, buffer, length, packetSize, k + 1)
      == PacketAt(d, !toggle, buffer + packetSize, length - packetSize, packetSize, k)
  {
    hide PacketFrom;
    StartsInside(length - packetSize, packetSize, k);
    OneFurther(k, packetSize);
    NextFrom(d, toggle, buffer, length, packetSize, PacketCount(length - packetSize, packetSize), k, k * packetSize);
  }

  lemma OneFurther(k: nat, packetSize: nat)
    ensures (k + 1) * packetSize == k * packetSize + packetSize
  {
  }

  lemma NextFrom(d: Direction, toggle: bool, buffer: int, length: nat, packetSize: nat, n: nat, k: nat, offset: nat)
    requires packetSize < length && k < n && offset <= length - packetSize
    ensures PacketFrom(d, toggle, buffer, length, packetSize, n + 1, k + 1, offset + packetSize)
      == PacketFrom(d, !toggle, buffer + packetSize, length - packetSize, packetSize, n, k, offset)
  {
  }

  /** A transfer longer than one packet is its first packet, and the transfer of the rest with the toggle flipped. */
  lemma FirstPacket(d: Direction, toggle: bool, buffer: int, length: nat, packetSize: nat)
    requires packetSize > 0
    ensures var p := Packets(d, toggle, buffer, length, packetSize);
      p == [Packet(d, toggle, buffer, if packetSize < length then packetSize else length, |p| - 1)]
           + if packetSize < length then Packets(d, !toggle, buffer + packetSize, length - packetSize, packetSize)
             else []
  {
    var p := Packets(d, toggle, buffer, length, packetSize);
    if packetSize < length {
      var rest := Packets(d, !toggle, buffer + packetSize, length - packetSize, packetSize);
      hide PacketAt;
      forall k | 0 <= k < |rest| ensures p[k + 1] == rest[k] {
        NextPacket(d, toggle, buffer, length, packetSize, k);
      }
      assert p == [p[0]] + p[1..] && p[1..] == rest;
    }
  }

  /** The packets of a read: a single one of any length when it is isochronous. */
  function ReadPackets(isochronous: bool, toggle: bool, buffer: int, length: nat, packetSize: nat): (p: seq<Packet>)
    requires packetSize > 0
    ensures |p| == if isochronous then 1 else PacketCount(length, packetSize)
  {
    if isochronous then [Packet(In, toggle, buffer, length, 0)] else Packets(In, toggle, buffer, length, packetSize)
  }

  /** The packets count down to none remaining, and their toggles alternate. */
  lemma PacketsCountDown(isochronous: bool, toggle: bool, buffer: int, length: nat, packetSize: nat, k: nat)
    requires packetSize > 0 && k < |ReadPackets(isochronous, toggle, buffer, length, packetSize)|
    ensures var p := ReadPackets(isochronous, toggle, buffer, length, packetSize);
      && p[k].remaining == |p| - 1 - k && p[k].direction == In
      && (k == 0 ==> p[k].toggle == toggle && p[k].buffer == buffer)
      && (k > 0 ==> p[k].toggle == !p[k - 1].toggle && p[k].buffer == p[k - 1].buffer + packetSize)
      && (isochronous ==> p[k].length == length)
  {
    if k > 0 {
      OneFurther(k - 1, packetSize);
    }
  }

  /** The bytes of a buffer at `base` that the packets carry, in order. */
  function Carried<Byte>(data: seq<Byte>, base: int, packets: seq<Packet>): seq<Byte>
    requires forall p :: p in packets ==> base <= p.buffer && p.buffer - base + p.length <= |data|
  {
    if packets == [] then []
    else
      var at := packets[0].buffer - base;
      data[at..at + packets[0].length] + Carried(data, base, packets[1..])
  }

  lemma {:induction false} PacketsInside(d: Direction, toggle: bool, buffer: int, length: nat, packetSize: nat)
    requires packetSize > 0
    ensures forall p :: p in Packets(d, toggle, buffer, length, packetSize) ==>
      buffer <= p.buffer && p.buffer - buffer + p.length <= length && p.length <= packetSize
  {
    forall k | 0 <= k < PacketCount(length, packetSize)
      ensures var p := PacketAt(d, toggle, buffer, length, packetSize, k);
        buffer <= p.buffer && p.buffer - buffer + p.length <= length && p.length <= packetSize
    {
      StartsInside(length, packetSize, k);
    }
  }

  /** The packets carry every byte of the buffer once and in order, whatever the packet size. */
  lemma {:induction false} NothingLost<Byte>(d: Direction, toggle: bool, base: int, data: seq<Byte>, at: nat,
                                             packetSize: nat)
    requires packetSize > 0 && at <= |data|
    ensures forall p :: p in Packets(d, toggle, base + at, |data| - at, packetSize) ==>
      base <= p.buffer && p.buffer - base + p.length <= |data|
    ensures Carried(data, base, Packets(d, toggle, base + at, |data| - at, packetSize)) == data[at..]
    decreases |data| - at
  {
    hide Packets, PacketCount, Carried;
    var length := |data| - at;
    PacketsInside(d, toggle, base + at, length, packetSize);
    FirstPacket(d, toggle, base + at, length, packetSize);
    var n := if packetSize < length then packetSize else length;
    var first := Packet(d, toggle, base + at, n, PacketCount(length, packetSize) - 1);
    if packetSize < length {
      NothingLost(d, !toggle, base, data, at + packetSize, packetSize);
      var rest := Packets(d, !toggle, base + (at + packetSize), length - packetSize, packetSize);
      CarriedFirst(data, base, first, rest, at);
    } else {
      CarriedFirst(data, base, first, [], at);
    }
  }

  lemma CarriedFirst<Byte>(data: seq<Byte>, base: int, first: Packet, rest: seq<Packet>, at: nat)
    requires first.buffer == base + at && at + first.length <= |data|
    requires forall p :: p in rest ==> base <= p.buffer && p.buffer - base + p.length <= |data|
    requires Carried(data, base, rest) == data[at + first.length..] || (rest == [] && at + first.length == |data|)
    ensures forall p :: p in [first] + rest ==> base <= p.buffer && p.buffer - base + p.length <= |data|
    ensures Carried(data, base, [first] + rest) == data[at..]
  {
    assert ([first] + rest)[1..] == rest;
    assert data[at..] == data[at..at + first.length] + data[at + first.length..];
  }

  // ---------- the driver ----------

  class Endpoint {
    var toggle: bool
  }

  class Transaction {
    const direction: Direction

    constructor (direction: Direction)
      ensures this.direction == direction
    {
      this.direction := direction;
    }
  }

  /** The host controller, seen as the list of packets it was asked for. */
  class HostController {
    var asked: seq<Packet>

    method Ask(transaction: Transaction, toggle: bool, buffer: int, length: nat, remaining: nat)
      modifies this
      ensures asked == old(asked) + [Packet(transaction.direction, toggle, buffer, length, remaining)]
    {
      asked := asked + [Packet(transaction.direction, toggle, buffer, length, remaining)];
    }
  }

  /** The slots from `from` to `to` hold the transactions of one call; the others are as before. */
  ghost predicate Recorded(before: seq<Transaction?>, after: seq<Transaction?>, d: Direction, from: nat, to: nat) {
    && from <= to <= |before| == |after|
    && (forall i :: from <= i < to ==> after[i] != null && after[i].direction == d)
    && after[..from] == before[..from] && after[to..] == before[to..]
  }

  lemma RecordedOn(a: seq<Transaction?>, b: seq<Transaction?>, c: seq<Transaction?>, d: Direction, i: nat, j: nat,
                   k: nat)
    requires Recorded(a, b, d, i, j) && Recorded(b, c, d, j, k)
    ensures Recorded(a, c, d, i, k)
  {
    assert c[..i] == c[..j][..i] == b[..i];
    assert c[k..] == b[k..] == b[j..][k - j..];
    assert forall n :: i <= n < j ==> c[n] == c[..j][n] == b[..j][n];
  }

  lemma Regroup(a: seq<Packet>, b: seq<Packet>, c: seq<Packet>)
    ensures a + b + c == a + (b + c)
  {
  }

  class Transfer {
    const endpoint: Endpoint
    const controller: HostController
    const isochronous: bool
    const packetSize: nat
    const transactions: array<Transaction?>
    var lastTransaction: nat

    constructor (endpoint: Endpoint, controller: HostController, isochronous: bool, packetSize: nat)
      requires packetSize > 0
      ensures Valid() && lastTransaction == 0 && this.endpoint == endpoint && this.packetSize == packetSize
    {
      this.endpoint, this.controller := endpoint, controller;
      this.isochronous, this.packetSize := isochronous, packetSize;
      transactions := new Transaction?[31](_ => null);
      lastTransaction := 0;
    }

    ghost predicate Valid()
      reads this
    {
      packetSize > 0 && transactions.Length == 31 && lastTransaction <= 31
    }

    /** The length of the next packet, what it leaves, and in how many packets that goes, counted in 16 bits. */
    method Clamp(length: nat) returns (clamped: nat, left: nat, remaining: nat)
      requires packetSize > 0
      ensures clamped == (if packetSize < length then packetSize else length) && left == length - clamped
      ensures remaining == (PacketCount(length, packetSize) - 1) % 0x1_0000
      ensures PacketCount(length, packetSize) == 1 <==> length <= packetSize
    {
      clamped := if packetSize < length then packetSize else length;
      left := length - clamped;
      Remaining16(length, packetSize);
      hide PacketCount;
      remaining := left / packetSize % 0x1_0000;
      if left % packetSize != 0 {
        remaining := (remaining + 1) % 0x1_0000;
      }
    }

    /** One transaction: the toggle is handed over and flipped. */
    method Transact(d: Direction, handshake: bool, buffer: int, length: nat, remaining: nat)
      requires Valid() && lastTransaction < 31
      modifies endpoint, controller, transactions, this`lastTransaction
      ensures Valid() && lastTransaction == old(lastTransaction) + 1
      ensures Recorded(old(transactions[..]), transactions[..], d, old(lastTransaction), lastTransaction)
      ensures var toggle := handshake || old(endpoint.toggle);
        && endpoint.toggle == !toggle
        && controller.asked == old(controller.asked) + [Packet(d, toggle, buffer, length, remaining)]
    {
      var transaction := new Transaction(d);
      if handshake {
        endpoint.toggle := true;
      }
      controller.Ask(transaction, endpoint.toggle, buffer, length, remaining);
      transactions[lastTransaction] := transaction;
      lastTransaction := lastTransaction + 1;
      endpoint.toggle := !endpoint.toggle;
    }

    /** Reads `length` bytes: one packet for an isochronous transfer, else one packet after the other. */
    method InTransaction(controlHandshake: bool, buffer: int, length: nat)
      requires Valid()
      requires lastTransaction + (if isochronous then 1 else PacketCount(length, packetSize)) <= 31
      modifies endpoint, controller, transactions, this`lastTransaction
      ensures Valid() && Recorded(old(transactions[..]), transactions[..], In, old(lastTransaction), lastTransaction)
      ensures controller.asked == old(controller.asked)
        + ReadPackets(isochronous, controlHandshake || old(endpoint.toggle), buffer, length, packetSize)
      ensures lastTransaction == old(lastTransaction) + if isochronous then 1 else PacketCount(length, packetSize)
      ensures endpoint.toggle ==
        ((controlHandshake || old(endpoint.toggle)) == ((lastTransaction - old(lastTransaction)) % 2 == 0))
      decreases length
    {
      hide Packets, PacketCount, Recorded;
      if isochronous {
        Transact(In, controlHandshake, buffer, length, 0);
        return;
      }
      var clamped, left, remaining := Clamp(length);
      ghost var toggle, asked := controlHandshake || endpoint.toggle, controller.asked;
      FirstPacket(In, toggle, buffer, length, packetSize);
      Transact(In, controlHandshake, buffer, clamped, remaining);
      if remaining > 0 {
        ghost var before, first := transactions[..], lastTransaction;
        InTransaction(endpoint.toggle, buffer + clamped, left);
        Regroup(asked, [Packet(In, toggle, buffer, clamped, remaining)],
                Packets(In, !toggle, buffer + clamped, left, packetSize));
        RecordedOn(old(transactions[..]), before, transactions[..], In, old(lastTransaction), first, lastTransaction);
      }
    }

    /** Writes `length` bytes, one packet after the other. */
    method OutTransaction(controlHandshake: bool, buffer: int, length: nat)
      requires Valid() && lastTransaction + PacketCount(length, packetSize) <= 31
      modifies endpoint, controller, transactions, this`lastTransaction
      ensures Valid() && Recorded(old(transactions[..]), transactions[..], Out, old(lastTransaction), lastTransaction)
      ensures controller.asked
        == old(controller.asked) + Packets(Out, controlHandshake || old(endpoint.toggle), buffer, length, packetSize)
      ensures lastTransaction == old(lastTransaction) + PacketCount(length, packetSize)
      ensures endpoint.toggle ==
        ((controlHandshake || old(endpoint.toggle)) == (PacketCount(length, packetSize) % 2 == 0))
      decreases length
    {
      hide Packets, PacketCount, Recorded;
      var clamped, left, remaining := Clamp(length);
      ghost var toggle, asked := controlHandshake || endpoint.toggle, controller.asked;
      FirstPacket(Out, toggle, buffer, length, packetSize);
      Transact(Out, controlHandshake, buffer, clamped, remaining);
      if remaining > 0 {
        ghost var before, first := transactions[..], lastTransaction;
        OutTransaction(endpoint.toggle, buffer + clamped, left);
        Regroup(asked, [Packet(Out, toggle, buffer, clamped, remaining)],
                Packets(Out, !toggle, buffer + clamped, left, packetSize));
        RecordedOn(old(transactions[..]), before, transactions[..], Out, old(lastTransaction), first, lastTransaction);
      }
    }
  }
}
