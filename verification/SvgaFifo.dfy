/** The command FIFO of the VMware SVGA II driver (Kernel/Modules/SVGA.swift).

    Driver and device share a ring of bytes between the FIFO registers Min and Max.  The driver reserves room,
    fills it in place or in a bounce buffer, and commits by moving NextCommand; the device reads on its own and
    moves Stop at any time. */
module SvgaFifo {
  import opened Common

  const MAX_COMMAND := 0x10_0000

  // ---------- the ring as a value ----------

  /** The bytes from `stop` up to `next`, going round at `max`. */
  function Between(memory: seq<bv8>, min: nat, max: nat, stop: nat, next: nat): (r: seq<bv8>)
    requires min <= stop < max <= |memory| && min <= next < max
    ensures |r| == Distance(min, max, stop, next)
  {
    if stop <= next then memory[stop..next] else memory[stop..max] + memory[min..next]
  }

  function Distance(min: nat, max: nat, stop: nat, next: nat): (d: nat)
    requires min <= stop < max && min <= next < max
    ensures d < max - min && (d == 0 <==> stop == next)
  {
    if stop <= next then next - stop else (max - stop) + (next - min)
  }

  /** Room left.  One byte always stays free, so that a full ring never looks empty. */
  function Free(min: nat, max: nat, stop: nat, next: nat): (f: nat)
    requires min <= stop < max && min <= next < max
    ensures 0 < f <= max - min
  {
    max - min - Distance(min, max, stop, next)
  }

  /** A position moved forward by `n` bytes. */
  function Forward(min: nat, max: nat, position: nat, n: nat): (p: nat)
    requires min <= position < max && n < max - min
    ensures min <= p < max
  {
    if position + n >= max then position + n - (max - min) else position + n
  }

  /** `n` bytes laid from `next` on, in one piece or round the end. */
  predicate LaidAt(memory: seq<bv8>, min: nat, max: nat, next: nat, data: seq<bv8>)
    requires min <= next < max <= |memory| && |data| < max - min
  {
    if next + |data| <= max then memory[next..next + |data|] == data
    else memory[next..max] == data[..max - next] && memory[min..min + |data| - (max - next)] == data[max - next..]
  }

  /** Moving `next` over bytes that fit appends exactly those bytes to what the device has still to read. */
  lemma CommitAppends(memory: seq<bv8>, min: nat, max: nat, stop: nat, next: nat, data: seq<bv8>)
    requires min <= stop < max <= |memory| && min <= next < max
    requires |data| < Free(min, max, stop, next) && LaidAt(memory, min, max, next, data)
    ensures Between(memory, min, max, stop, Forward(min, max, next, |data|))
            == Between(memory, min, max, stop, next) + data
  {
  }

  /** Reading takes bytes off the front and makes room. */
  lemma ReadTakes(memory: seq<bv8>, min: nat, max: nat, stop: nat, next: nat, n: nat)
    requires min <= stop < max <= |memory| && min <= next < max && n <= Distance(min, max, stop, next)
    ensures var s := Forward(min, max, stop, n);
      && Between(memory, min, max, s, next) == Between(memory, min, max, stop, next)[n..]
      && Free(min, max, s, next) == Free(min, max, stop, next) + n
  {
  }

  /** Bytes written into free room leave the unread bytes alone. */
  lemma WriteFree(before: seq<bv8>, after: seq<bv8>, min: nat, max: nat, stop: nat, next: nat, n: nat)
    requires min <= stop < max <= |before| == |after| && min <= next < max && n < Free(min, max, stop, next)
    requires forall i :: min <= i < max && !(next <= i < next + n) && !(i < min + next + n - max) ==>
      after[i] == before[i]
    ensures Between(after, min, max, stop, next) == Between(before, min, max, stop, next)
  {
  }

  /** `memory` with `data` copied in at `to`. */
  function Overwritten(memory: seq<bv8>, to: nat, data: seq<bv8>): (r: seq<bv8>)
    requires to + |data| <= |memory|
    ensures |r| == |memory|
  {
    memory[..to] + data + memory[to + |data|..]
  }

  lemma OverwrittenAt(memory: seq<bv8>, to: nat, data: seq<bv8>)
    requires to + |data| <= |memory|
    ensures var r := Overwritten(memory, to, data);
      forall i :: 0 <= i < |r| ==> r[i] == if to <= i < to + |data| then data[i - to] else memory[i]
  {
  }

  /** A copy up to the end of the ring and one from its start lay the data at `next` and spare the unread bytes. */
  lemma TwoCopies(before: seq<bv8>, after: seq<bv8>, data: seq<bv8>, min: nat, max: nat, stop: nat, next: nat,
                  chunk: nat)
    requires min <= stop < max <= |before| && min <= next < max && |data| < Free(min, max, stop, next)
    requires chunk == if |data| <= max - next then |data| else max - next
    requires after == Overwritten(Overwritten(before, next, data[..chunk]), min, data[chunk..])
    ensures LaidAt(after, min, max, next, data)
    ensures Between(after, min, max, stop, next) == Between(before, min, max, stop, next)
  {
    var rest := |data| - chunk;
    OverwrittenAt(before, next, data[..chunk]);
    OverwrittenAt(Overwritten(before, next, data[..chunk]), min, data[chunk..]);
    assert rest > 0 ==> min + rest <= next;
    assert after[next..next + chunk] == data[..chunk];
    assert after[min..min + rest] == data[chunk..];
    WriteFree(before, after, min, max, stop, next, |data|);
  }

  /** A commit of more bytes than there is room for does not make the pending contents longer by as much. */
  lemma CommitGrowsIff(min: nat, max: nat, stop: nat, next: nat, n: nat)
    requires min <= stop < max && min <= next < max && n < max - min
    ensures Distance(min, max, stop, Forward(min, max, next, n)) == Distance(min, max, stop, next) + n
      <==> n < Free(min, max, stop, next)
  {
  }

  /** The `n` ring bytes from `next` on lie there. */
  lemma RingBytesLie(memory: seq<bv8>, min: nat, max: nat, next: nat, n: nat)
    requires min <= next < max <= |memory| && n < max - min
    ensures LaidAt(memory, min, max, next, Between(memory, min, max, next, Forward(min, max, next, n)))
    ensures next + n <= max ==> Between(memory, min, max, next, Forward(min, max, next, n)) == memory[next..next + n]
  {
  }

  // ---------- waiting for room ----------

  /** A command of Max - Min bytes or more never fits, whatever the device has read; a shorter one fits at the
      latest when the device has read everything. */
  lemma FitsWhenDrained(min: nat, max: nat, next: nat, bytes: nat)
    requires min <= next < max
    ensures bytes < max - min <==> bytes < Free(min, max, next, next)
    ensures bytes < max - min <==> exists stop :: min <= stop < max && bytes < Free(min, max, stop, next)
  {
    assert bytes < max - min ==> bytes < Free(min, max, next, next);
  }

  /** What the driver's own case distinction on NextCommand and Stop comes to. */
  lemma RoomTest(min: nat, max: nat, stop: nat, next: nat, bytes: nat)
    requires min <= stop < max && min <= next < max
    ensures var straight := next + bytes < max || (next + bytes == max && stop > min);
      && (next >= stop && straight ==> bytes < Free(min, max, stop, next))
      && (next >= stop && !straight ==>
            ((max - next) + (stop - min) <= bytes <==> bytes >= Free(min, max, stop, next)))
      && (next < stop ==> (next + bytes < stop <==> bytes < Free(min, max, stop, next)))
      && (next >= stop ==> (straight <==> bytes < Free(min, max, stop, next) && next + bytes <= max))
  {
  }

  function Total(halts: seq<nat>): nat {
    if halts == [] then 0 else Total(halts[..|halts| - 1]) + halts[|halts| - 1]
  }

  lemma NothingTotal(halts: seq<nat>, unread: nat)
    ensures Left(unread, Total(halts[..0])) == unread
  {
  }

  lemma LeftTwice(unread: nat, n: nat, m: nat)
    ensures Left(Left(unread, n), m) == Left(unread, n + m)
  {
  }

  lemma TotalOneMore(halts: seq<nat>, i: nat)
    requires i < |halts|
    ensures Total(halts[..i + 1]) == Total(halts[..i]) + halts[i]
  {
    assert halts[..i + 1][..i] == halts[..i];
  }

  /** A ring that stays full although the device has read everything cannot be made empty enough. */
  lemma NothingUnread(min: nat, max: nat, stop: nat, next: nat, unread: nat, read: nat)
    requires min <= stop < max && min <= next < max && Distance(min, max, stop, next) == Left(unread, read)
    ensures read < unread || Free(min, max, stop, next) == max - min
  {
  }

  /** What is left of `unread` bytes when the device has read up to `n`. */
  function Left(unread: nat, n: nat): nat {
    if n <= unread then unread - n else 0
  }

  // ---------- the driver ----------

  /** What `FIFOReserve` comes back with: the null pointer, a FIFO address, or the bounce buffer.  `StillFull`
      stands for a call that has not come back when the reads given to it are used up. */
  datatype Reservation = Rejected | InPlace(offset: nat) | Bounce | StillFull

  class Svga {
    // FIFO registers; the first words of the FIFO memory in the hardware
    const min: nat
    const max: nat
    var nextCommand: nat
    var stop: nat
    var reserved: nat
    const reservable: bool

    const memory: array<bv8>
    const bounceBuffer: array<bv8>
    var reservedSize: nat
    var usingBounceBuffer: bool

    // everything committed by the driver, and everything read by the device
    ghost var committed: seq<bv8>
    ghost var consumed: seq<bv8>

    ghost predicate RingValid()
      reads this, memory
    {
      && min < max <= memory.Length && max + MAX_COMMAND < UINT32
      && memory != bounceBuffer && bounceBuffer.Length == MAX_COMMAND
      && min <= nextCommand < max && min <= stop < max
      && committed == consumed + Pending()
    }

    /** What the device has still to read. */
    ghost function Pending(): seq<bv8>
      reads this, memory
      requires min <= stop < max <= memory.Length && min <= nextCommand < max
    {
      Between(memory[..], min, max, stop, nextCommand)
    }

    ghost predicate Valid()
      reads this, memory
    {
      && RingValid() && reservedSize <= MAX_COMMAND
      && reservedSize < Free(min, max, stop, nextCommand)
      && (!usingBounceBuffer && reservedSize > 0 ==> nextCommand + reservedSize <= max)
    }

    constructor (min: nat, max: nat, reservable: bool, memory: array<bv8>)
      requires min < max <= memory.Length && max + MAX_COMMAND < UINT32
      ensures Valid() && committed == [] && consumed == [] && reservedSize == 0
      ensures this.min == min && this.max == max && this.reservable == reservable && this.memory == memory
      ensures fresh(bounceBuffer)
    {
      this.min, this.max, this.reservable, this.memory := min, max, reservable, memory;
      nextCommand, stop, reserved := min, min, 0;
      bounceBuffer := new bv8[MAX_COMMAND];
      reservedSize, usingBounceBuffer := 0, false;
      committed, consumed := [], [];
    }

    /** The device reads up to `n` bytes; nothing tells the driver. */
    method DeviceRead(n: nat)
      requires RingValid()
      modifies this`stop, this`consumed
      ensures RingValid() && (old(Valid()) ==> Valid())
      ensures |Pending()| == Left(|old(Pending())|, n)
      ensures var k := if n <= |old(Pending())| then n else |old(Pending())|;
        && consumed == old(consumed) + old(Pending())[..k] && Pending() == old(Pending())[k..]
        && Free(min, max, stop, nextCommand) == Free(min, max, old(stop), nextCommand) + k
    {
      var unread := Distance(min, max, stop, nextCommand);
      var k := if n <= unread then n else unread;
      ghost var pending := Pending();
      ReadTakes(memory[..], min, max, stop, nextCommand, k);
      stop := Forward(min, max, stop, k);
      consumed := consumed + pending[..k];
      assert pending == pending[..k] + pending[k..];
    }

    /** One look at Stop: contiguous room, room only round the end, or (neither) a full ring. */
    method CompareWithStop(bytes: nat) returns (reserveInPlace: bool, needBounce: bool)
      requires RingValid()
      ensures reserveInPlace <==> bytes < Free(min, max, stop, nextCommand) && nextCommand + bytes <= max
      ensures needBounce <==> bytes < Free(min, max, stop, nextCommand) && nextCommand + bytes > max
    {
      RoomTest(min, max, stop, nextCommand, bytes);
      reserveInPlace, needBounce := false, false;
      if nextCommand >= stop {
        if nextCommand + bytes < max || (nextCommand + bytes == max && stop > min) {
          reserveInPlace := true;
        } else if (max - nextCommand) + (stop - min) <= bytes {
        } else {
          needBounce := true;
        }
      } else if nextCommand + bytes < stop {
        reserveInPlace := true;
      }
    }

    /** One turn of the loop; a full ring gives `StillFull`. */
    method TryReserve(bytes: nat) returns (r: Reservation)
      requires RingValid() && reservedSize == bytes <= MAX_COMMAND
      modifies this`usingBounceBuffer, this`reserved
      ensures RingValid() && !r.Rejected? && (r.StillFull? <==> bytes >= Free(min, max, stop, nextCommand))
      ensures !r.StillFull? ==> Valid()
      ensures r.InPlace? ==> r.offset == nextCommand && !usingBounceBuffer && nextCommand + bytes <= max
      ensures r.InPlace? ==> (if reservable then reserved == bytes else bytes <= 4)
      ensures r.Bounce? ==> usingBounceBuffer && (nextCommand + bytes > max || (!reservable && bytes > 4))
    {
      hide Distance, Between;
      var reserveInPlace, needBounce := CompareWithStop(bytes);
      if reserveInPlace {
        if reservable || bytes <= 4 {
          usingBounceBuffer := false;
          if reservable {
            reserved := bytes;
          }
          return InPlace(nextCommand);
        } else {
          needBounce := true;
        }
      }
      if needBounce {
        usingBounceBuffer := true;
        return Bounce;
      }
      r := StillFull;
    }

    /** `halts[i]` is how much the device reads during the driver's halt number `i`. */
    method FIFOReserve(bytes: nat, halts: seq<nat>) returns (r: Reservation)
      requires Valid()
      modifies this`reservedSize, this`usingBounceBuffer, this`reserved, this`stop, this`consumed
      ensures RingValid() && (!r.StillFull? ==> Valid())
      ensures r.Rejected? <==> bytes > MAX_COMMAND || bytes > max - min || bytes % 4 == 1 || old(reservedSize) != 0
      ensures r.Rejected? ==>
        reservedSize == old(reservedSize) && stop == old(stop) && usingBounceBuffer == old(usingBounceBuffer)
      ensures !r.Rejected? ==> reservedSize == bytes
      ensures r.InPlace? ==> r.offset == nextCommand && !usingBounceBuffer && nextCommand + bytes <= max
      ensures r.InPlace? ==> (if reservable then reserved == bytes else bytes <= 4)
      ensures r.Bounce? ==> usingBounceBuffer && (nextCommand + bytes > max || (!reservable && bytes > 4))
      ensures r.StillFull? ==> bytes >= Free(min, max, stop, nextCommand)
      ensures r.StillFull? ==> bytes == max - min || Total(halts) < |old(Pending())|
      ensures bytes == max - min ==> r.Rejected? || r.StillFull?
    {
      hide Distance, Between, Total, Free, Left;
      if bytes > 1024 * 1024 || bytes > max - min {
        return Rejected;
      }
      if bytes % 4 == 1 {
        return Rejected;
      }
      if reservedSize != 0 {
        return Rejected;
      }
      reservedSize := bytes;
      ghost var unread := Pending();
      var i := 0;
      NothingTotal(halts, |unread|);
      while true
        invariant RingValid() && 0 <= i <= |halts| && reservedSize == bytes
        invariant |Pending()| == Left(|unread|, Total(halts[..i]))
        decreases |halts| - i
      {
        r := TryReserve(bytes);
        if !r.StillFull? {
          FitsWhenDrained(min, max, nextCommand, bytes);
          return;
        }
        // FIFO full: halt until the device has read something
        if i == |halts| {
          assert halts[..i] == halts;
          NothingUnread(min, max, stop, nextCommand, |unread|, Total(halts));
          return;
        }
        TotalOneMore(halts, i);
        LeftTwice(|unread|, Total(halts[..i]), halts[i]);
        DeviceRead(halts[i]);
        i := i + 1;
      }
    }

    /** The bytes that the caller has put where `FIFOReserve` pointed. */
    ghost function Filled(bytes: nat): seq<bv8>
      reads this, memory, bounceBuffer
      requires Valid() && bytes <= reservedSize
    {
      if usingBounceBuffer then bounceBuffer[..bytes]
      else if reservedSize == 0 then [] else memory[nextCommand..nextCommand + bytes]
    }

    ghost function FilledAll(): (data: seq<bv8>)
      reads this, memory, bounceBuffer
      requires Valid()
      ensures |data| == reservedSize && data == Filled(reservedSize)
    {
      Filled(reservedSize)
    }

    /** The caller stores one byte through the pointer it got. */
    method Fill(i: nat, b: bv8)
      requires Valid() && i < reservedSize
      modifies memory, bounceBuffer
      ensures Valid() && Pending() == old(Pending())
      ensures Filled(reservedSize) == old(Filled(reservedSize))[i := b]
    {
      if usingBounceBuffer {
        bounceBuffer[i] := b;
      } else {
        memory[nextCommand + i] := b;
        WriteFree(old(memory[..]), memory[..], min, max, stop, nextCommand, reservedSize);
      }
    }

    method CopyIn(to: nat, from: nat, n: nat)
      requires memory != bounceBuffer && to + n <= memory.Length && from + n <= bounceBuffer.Length
      modifies memory
      ensures memory[..] == Overwritten(old(memory[..]), to, bounceBuffer[from..from + n])
    {
      for i := 0 to n
        invariant forall j :: 0 <= j < memory.Length ==>
          memory[j] == if to <= j < to + i then bounceBuffer[from + j - to] else old(memory[j])
      {
        memory[to + i] := bounceBuffer[from + i];
      }
    }

    /** The copy out of the bounce buffer: up to the end of the ring, then on from its start. */
    method CopyBounceBuffer(bytes: nat)
      requires RingValid() && bytes < Free(min, max, stop, nextCommand) && bytes <= bounceBuffer.Length
      modifies memory
      ensures RingValid() && Pending() == old(Pending())
      ensures LaidAt(memory[..], min, max, nextCommand, bounceBuffer[..bytes])
    {
      hide Distance, Between, LaidAt, Overwritten;
      var chunkSize := if bytes <= max - nextCommand then bytes else max - nextCommand;
      CopyIn(nextCommand, 0, chunkSize);
      CopyIn(min, chunkSize, bytes - chunkSize);
      assert bounceBuffer[0..0 + chunkSize] == bounceBuffer[..bytes][..chunkSize];
      assert bounceBuffer[chunkSize..chunkSize + (bytes - chunkSize)] == bounceBuffer[..bytes][chunkSize..];
      TwoCopies(old(memory[..]), memory[..], bounceBuffer[..bytes], min, max, stop, nextCommand, chunkSize);
    }

    /** Hands `bytes` bytes, already in the ring, over to the device. */
    method MoveNextCommand(bytes: nat, ghost data: seq<bv8>)
      requires RingValid() && bytes == |data| < Free(min, max, stop, nextCommand)
      requires LaidAt(memory[..], min, max, nextCommand, data)
      modifies this`nextCommand, this`committed
      ensures RingValid() && Pending() == old(Pending()) + data && committed == old(committed) + data
    {
      CommitAppends(memory[..], min, max, stop, nextCommand, data);
      hide Distance, Between, LaidAt, Free;
      assert consumed + (Pending() + data) == consumed + Pending() + data;
      nextCommand := nextCommand + bytes;
      if nextCommand >= max {
        nextCommand := nextCommand - (max - min);
      }
      committed := committed + data;
    }

    /** What a commit of `bytes` bytes hands over: the start of the bounce buffer, or the ring from NextCommand on. */
    ghost function Presented(bytes: nat): (data: seq<bv8>)
      reads this, memory, bounceBuffer
      requires RingValid() && bytes < max - min && (usingBounceBuffer ==> bytes <= MAX_COMMAND)
      ensures |data| == bytes
    {
      if usingBounceBuffer then bounceBuffer[..bytes]
      else
        Between(memory[..], min, max, nextCommand, Forward(min, max, nextCommand, bytes))
    }

    /** Any number of bytes can be committed for which there is room, reserved or not; without a reservation nothing
        happens. */
    method FIFOCommit(bytes: nat)
      requires Valid()
      requires reservedSize > 0 ==> bytes < Free(min, max, stop, nextCommand)
      requires reservedSize > 0 && usingBounceBuffer ==> bytes <= MAX_COMMAND
      modifies this`reservedSize, this`reserved, this`nextCommand, this`committed, memory
      ensures Valid() && reservedSize == 0 && (old(reservedSize) != 0 && reservable ==> reserved == 0)
      ensures reservable && old(reservedSize) > 0 ==>
        Pending() == old(Pending()) + old(Presented(bytes)) && committed == old(committed) + old(Presented(bytes))
      ensures !reservable || old(reservedSize) == 0 ==>
        Pending() == old(Pending()) && nextCommand == old(nextCommand) && committed == old(committed)
    {
      hide Distance, Between;
      if reservedSize == 0 {
        return;
      }
      ghost var data := Presented(bytes);
      RingBytesLie(memory[..], min, max, nextCommand, bytes);
      reservedSize := 0;
      if usingBounceBuffer {
        if reservable {
          reserved := bytes;
          CopyBounceBuffer(bytes);
        } else {
          return;
        }
      }
      if usingBounceBuffer || reservable {
        MoveNextCommand(bytes, data);
      }
      if reservable {
        reserved := 0;
      }
    }

    method FIFOCommitAll()
      requires Valid()
      modifies this`reservedSize, this`reserved, this`nextCommand, this`committed, memory
      ensures Valid() && reservedSize == 0
      ensures reservable ==> Pending() == old(Pending()) + old(Filled(reservedSize))
      ensures reservable ==> committed == old(committed) + old(Filled(reservedSize))
      ensures !reservable ==> nextCommand == old(nextCommand) && committed == old(committed)
    {
      hide Distance, Between;
      RingBytesLie(memory[..], min, max, nextCommand, reservedSize);
      FIFOCommit(reservedSize);
    }

    // ---------- one command from end to end ----------

    method StoreWord(k: nat, w: bv32)
      requires Valid() && 4 * k + 4 <= reservedSize
      modifies memory, bounceBuffer
      ensures Valid() && Pending() == old(Pending())
      ensures Filled(reservedSize) == old(Filled(reservedSize)[..4 * k]) + WordBytes(w)
        + old(Filled(reservedSize)[4 * k + 4..])
    {
      var at, b := 4 * k, WordBytes(w);
      ghost var filled := Filled(reservedSize);
      Fill(at, b[0]);
      Fill(at + 1, b[1]);
      Fill(at + 2, b[2]);
      Fill(at + 3, b[3]);
      FourStores(filled, at, b);
    }

    /** A refused reservation is a null pointer, on which the source stops. */
    method FIFOReserveCommand(kind: bv32, bytes: nat, halts: seq<nat>) returns (r: Reservation)
      requires Valid()
      modifies this`reservedSize, this`usingBounceBuffer, this`reserved, this`stop, this`consumed, memory, bounceBuffer
      ensures RingValid() && committed == old(committed)
      ensures r.Rejected? <==>
        bytes + 4 > MAX_COMMAND || bytes + 4 > max - min || bytes % 4 == 1 || old(reservedSize) != 0
      ensures r.StillFull? ==> bytes + 4 == max - min || Total(halts) < |old(Pending())|
      ensures r.InPlace? || r.Bounce? ==>
        && Valid() && reservedSize == bytes + 4 && Filled(reservedSize)[..4] == WordBytes(kind)
        && WordOf(Filled(reservedSize)[..4]) == kind
    {
      hide Distance, Between, Total, Free, Left;
      r := FIFOReserve(bytes + 4, halts);
      if r.InPlace? || r.Bounce? {
        StoreWord(0, kind);
      }
    }

    /** The screen update: command 1 with the rectangle (0, 0, width, height).  `ok` is false while the device has
        not yet read enough to make room. */
    method SendUpdate(width: bv32, height: bv32, halts: seq<nat>) returns (ok: bool)
      requires Valid() && reservedSize == 0 && max - min > 20
      modifies this, memory, bounceBuffer
      ensures !ok ==> Total(halts) < |old(Pending())| && committed == old(committed)
      ensures ok ==> Valid() && reservedSize == 0
      ensures ok && reservable ==> committed == old(committed) + Words([1, 0, 0, width, height])
      ensures !reservable ==> committed == old(committed)
    {
      hide Distance, Between, Total, Free, WordBytes, Words, Filled;
      var r := FIFOReserveCommand(1, 16, halts);
      if r.StillFull? {
        return false;
      }
      ghost var f0 := FilledAll();
      StoreWord(1, 0);
      ghost var f1 := FilledAll();
      StoreWord(2, 0);
      ghost var f2 := FilledAll();
      StoreWord(3, width);
      ghost var f3 := FilledAll();
      StoreWord(4, height);
      FiveStores(f0, f1, f2, f3, FilledAll(), width, height);
      FIFOCommitAll();
      ok := true;
    }

    /** The device reads, and then the caller stores one byte. */
    method FillLater(i: nat, b: bv8, n: nat)
      requires Valid() && i < reservedSize
      modifies memory, bounceBuffer, this`stop, this`consumed
      ensures Valid() && Filled(reservedSize) == old(Filled(reservedSize))[i := b]
    {
      hide Distance, Between;
      DeviceRead(n);
      Fill(i, b);
    }

    /** All bytes of a command, with a device that reads before each of them and at the end. */
    method FillAll(data: seq<bv8>, takes: nat -> nat)
      requires Valid() && reservedSize == |data|
      modifies memory, bounceBuffer, this`stop, this`consumed
      ensures Valid() && Filled(reservedSize) == data
    {
      hide Distance, Between, Free, Filled;
      for i := 0 to |data|
        invariant Valid() && FilledAll()[..i] == data[..i]
      {
        ghost var before := FilledAll();
        FillLater(i, data[i], takes(i));
        assert FilledAll()[..i + 1] == before[..i] + [data[i]] == data[..i + 1];
      }
      assert FilledAll()[..|data|] == FilledAll() && data[..|data|] == data;
      StillFilled(takes(|data|));
    }

    /** A reading device leaves what has been filled in. */
    method StillFilled(n: nat)
      requires Valid()
      modifies this`stop, this`consumed
      ensures Valid() && Filled(reservedSize) == old(Filled(reservedSize))
    {
      hide Distance, Between, Free;
      DeviceRead(n);
    }

    /** Any command from end to end, with the device reading between any two steps: `takes(i)` bytes before byte `i` is
        filled in, and `takes(|data|)` before the commit. */
    method Transmit(data: seq<bv8>, halts: seq<nat>, takes: nat -> nat) returns (r: Reservation)
      requires Valid()
      modifies this, memory, bounceBuffer
      ensures RingValid()
      ensures r.Rejected? <==>
        |data| > MAX_COMMAND || |data| > max - min || |data| % 4 == 1 || old(reservedSize) != 0
      ensures r.StillFull? ==> |data| == max - min || Total(halts) < |old(Pending())|
      ensures r.Rejected? || r.StillFull? || !reservable ==> committed == old(committed)
      ensures (r.InPlace? || r.Bounce?) && reservable ==>
        Valid() && reservedSize == 0 && committed == old(committed) + data
    {
      hide Distance, Between, Total, Free, Left;
      r := FIFOReserve(|data|, halts);
      if r.Rejected? || r.StillFull? {
        return;
      }
      FillAll(data, takes);
      FIFOCommitAll();
    }
  }

  lemma FourStores(s: seq<bv8>, at: nat, b: seq<bv8>)
    requires at + 4 <= |s| && |b| == 4
    ensures s[at := b[0]][at + 1 := b[1]][at + 2 := b[2]][at + 3 := b[3]] == s[..at] + b + s[at + 4..]
  {
  }

  /** The word that the device reads from four bytes, lowest byte first. */
  function WordOf(b: seq<bv8>): bv32
    requires |b| == 4
  {
    (b[0] as bv32) | ((b[1] as bv32) << 8) | ((b[2] as bv32) << 16) | ((b[3] as bv32) << 24)
  }

  function WordBytes(w: bv32): (b: seq<bv8>)
    ensures |b| == 4 && WordOf(b) == w
  {
    [(w & 0xFF) as bv8, ((w >> 8) & 0xFF) as bv8, ((w >> 16) & 0xFF) as bv8, ((w >> 24) & 0xFF) as bv8]
  }

  function Words(ws: seq<bv32>): (b: seq<bv8>)
    ensures |b| == 4 * |ws|
  {
    if ws == [] then [] else WordBytes(ws[0]) + Words(ws[1..])
  }

  /** Word number `k` is read back from its four bytes. */
  lemma {:induction false} WordsRead(ws: seq<bv32>, k: nat)
    requires k < |ws|
    ensures WordOf(Words(ws)[4 * k..4 * k + 4]) == ws[k]
  {
    hide WordOf;
    var b := Words(ws);
    if k == 0 {
      assert b[0..4] == WordBytes(ws[0]);
    } else {
      WordsRead(ws[1..], k - 1);
      assert b[4 * k..4 * k + 4] == Words(ws[1..])[4 * (k - 1)..4 * (k - 1) + 4];
    }
  }

  lemma FiveStores(f0: seq<bv8>, f1: seq<bv8>, f2: seq<bv8>, f3: seq<bv8>, f4: seq<bv8>, width: bv32, height: bv32)
    requires |f0| == |f1| == |f2| == |f3| == 20 && f0[..4] == WordBytes(1)
    requires f1 == f0[..4] + WordBytes(0) + f0[8..] && f2 == f1[..8] + WordBytes(0) + f1[12..]
    requires f3 == f2[..12] + WordBytes(width) + f2[16..] && f4 == f3[..16] + WordBytes(height) + f3[20..]
    ensures f4 == Words([1, 0, 0, width, height])
  {
    hide WordBytes, Words;
    assert f1[..8] == WordBytes(1) + WordBytes(0);
    assert f2[..12] == f1[..8] + WordBytes(0);
    assert f3[..16] == f2[..12] + WordBytes(width);
    FiveWords(1, 0, 0, width, height);
  }

  lemma FiveWords(a: bv32, b: bv32, c: bv32, d: bv32, e: bv32)
    ensures Words([a, b, c, d, e]) == WordBytes(a) + WordBytes(b) + WordBytes(c) + WordBytes(d)
      + WordBytes(e)
  {
    hide WordBytes, WordOf;
    assert Words([e]) == WordBytes(e) + [];
    assert Words([d, e]) == WordBytes(d) + Words([e]);
    assert Words([c, d, e]) == WordBytes(c) + Words([d, e]);
    assert Words([b, c, d, e]) == WordBytes(b) + Words([c, d, e]);
  }
}
