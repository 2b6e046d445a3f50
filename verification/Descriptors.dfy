/** Descriptor tables written in a contiguous "fake" layout and rewritten in place into the processor's layout:
    fix_desc and fix_desc64 of Kernel/Kernel/i386/mp_desc.c, with the layouts of seg.h. */
module Descriptors {
  import opened Common

  // ---------- bytes and words, little-endian ----------

  function Join16(low: nat, high: nat): nat {
    low + 0x100 * high
  }

  function Join32(low: nat, high: nat): nat {
    low + 0x1_0000 * high
  }

  function Join64(low: nat, high: nat): nat {
    low + 0x1_0000_0000 * high
  }

  function Word16(b: seq<Byte>, i: nat): (w: nat)
    requires i + 2 <= |b|
    ensures w < 0x1_0000
  {
    Join16(b[i], b[i + 1])
  }

  function Word32(b: seq<Byte>, i: nat): (w: nat)
    requires i + 4 <= |b|
    ensures w < 0x1_0000_0000
  {
    Join32(Word16(b, i), Word16(b, i + 2))
  }

  function Word64(b: seq<Byte>, i: nat): (w: nat)
    requires i + 8 <= |b|
    ensures w < 0x1_0000_0000_0000_0000
  {
    Join64(Word32(b, i), Word32(b, i + 4))
  }

  function Low(w: nat): Byte {
    w % 0x100
  }

  /** The bytes of a word read out of four bytes are those bytes. */
  lemma BytesOf32(b0: Byte, b1: Byte, b2: Byte, b3: Byte)
    ensures var w := Join32(Join16(b0, b1), Join16(b2, b3));
      Low(w) == b0 && Low(w / 0x100) == b1 && Low(w / 0x1_0000) == b2 && Low(w / 0x100_0000) == b3
  {
    var w := Join32(Join16(b0, b1), Join16(b2, b3));
    assert w == b0 + 0x100 * (b1 + 0x100 * (b2 + 0x100 * b3));
    assert w / 0x100 == b1 + 0x100 * (b2 + 0x100 * b3);
    assert w / 0x1_0000 == b2 + 0x100 * b3;
    assert w / 0x100_0000 == b3;
  }

  lemma BytesOf16(b0: Byte, b1: Byte)
    ensures Low(Join16(b0, b1)) == b0 && Low(Join16(b0, b1) / 0x100) == b1
  {
  }

  lemma Halves(low: nat, high: nat)
    requires low < 0x1_0000_0000
    ensures Join64(low, high) % 0x1_0000_0000 == low && Join64(low, high) / 0x1_0000_0000 == high
  {
  }

  // ---------- what a table is written as ----------

  /** An entry as the kernel's tables spell it: a segment's base, 20-bit limit and granularity bits, or a gate's offset,
      selector and word count (interrupt stack in 64-bit tables). */
  datatype Fake = Fake(offset: nat, limOrSeg: nat, size: nat, access: Byte)

  function ReadFake(b: seq<Byte>): Fake
    requires |b| == 8
  {
    Fake(Word32(b, 0), Join32(Word16(b, 4), b[6] % 0x10), b[6] / 0x10, b[7])
  }

  function ReadFake64(b: seq<Byte>): Fake
    requires |b| == 16
  {
    Fake(Word64(b, 0), Join32(Word16(b, 8), b[10] % 0x10), b[10] / 0x10, b[11])
  }

  // ---------- what the processor reads ----------

  datatype Real =
    | Segment(base: nat, limit: nat, access: Byte, granularity: nat)
    | Gate(offset: nat, selector: nat, access: Byte, count: nat)

  /** The type field of a system descriptor names a gate when its third bit is set. */
  predicate IsGate(access: Byte) {
    access / 4 % 2 == 1 && access / 0x10 % 2 == 0
  }

  /** Call, interrupt and trap gates of 64-bit mode. */
  predicate IsGate64(access: Byte) {
    0xc <= access % 0x20 <= 0xf
  }

  /** The types that name gates, or nothing, by the five bits of type and S: Intel SDM Vol. 3A, section 3.5. */
  lemma GateTypes(access: Byte)
    ensures IsGate(access) <==> access % 0x20 in {4, 5, 6, 7, 12, 13, 14, 15}
    ensures IsGate64(access) <==> access % 0x20 in {12, 13, 14, 15}
    ensures IsUnused(access) <==> access % 0x20 in {0, 1}
  {
    var t := access % 0x20;
    GateBits(access / 0x20, t);
    UnusedBits(access / 0x20, t);
    hide IsGate, IsUnused;
    TypeBits(t);
  }

  // The five bits decide.

  lemma GateBits(high: nat, t: Byte)
    requires t < 0x20 && 0x20 * high + t < 0x100
    ensures IsGate(0x20 * high + t) == IsGate(t)
  {
    var n := 0x20 * high + t;
    assert n / 4 == 8 * high + t / 4;
    assert n / 0x10 == 2 * high + t / 0x10;
  }

  lemma UnusedBits(high: nat, t: Byte)
    requires t < 0x20 && 0x20 * high + t < 0x100
    ensures IsUnused(0x20 * high + t) == IsUnused(t)
  {
    assert (0x20 * high + t) / 2 == 0x10 * high + t / 2;
  }

  lemma TypeBits(t: Byte)
    requires t < 0x20
    ensures IsGate(t) <==> t in {4, 5, 6, 7, 12, 13, 14, 15}
    ensures IsUnused(t) <==> t in {0, 1}
  {
  }

  /** The layout of Intel SDM Vol. 3A, section 3.4.5 (segments), and of 32-bit gates. */
  function Decode(b: seq<Byte>): Real
    requires |b| == 8
  {
    if IsGate(b[5]) then
      Gate(Join32(Word16(b, 0), Word16(b, 6)), Word16(b, 2), b[5], b[4] % 0x20)
    else
      Segment(Join32(Word16(b, 2), Join16(b[4], b[7])), Join32(Word16(b, 0), b[6] % 0x10), b[5], b[6] / 0x10)
  }

  /** The 16-byte layout of section 6.14.1 (gates), and of 64-bit system segments. */
  function Decode64(b: seq<Byte>): Real
    requires |b| == 16
  {
    if IsGate64(b[5]) then
      Gate(Join64(Join32(Word16(b, 0), Word16(b, 6)), Word32(b, 8)), Word16(b, 2), b[5], b[4] % 8)
    else
      Segment(Join64(Join32(Word16(b, 2), Join16(b[4], b[7])), Word32(b, 8)), Join32(Word16(b, 0), b[6] % 0x10), b[5],
              b[6] / 0x10)
  }

  // ---------- what was meant ----------

  function Meant(f: Fake): Real {
    if IsGate(f.access) then Gate(f.offset, f.limOrSeg % 0x1_0000, f.access, f.size)
    else Segment(f.offset, f.limOrSeg, f.access, f.size)
  }

  function Meant64(f: Fake): Real {
    if IsGate64(f.access) then Gate(f.offset, f.limOrSeg % 0x1_0000, f.access, f.size % 8)
    else Segment(f.offset, f.limOrSeg, f.access, f.size)
  }

  /** The type field is zero, whatever the present, privilege and accessed bits. */
  predicate IsUnused(access: Byte) {
    access / 2 % 0x10 == 0
  }

  /** One entry of each kind, as written and as the processor reads it: the segment at 0x12345678 with limit 0x9abcd,
      and the gate to 0x12345678 in segment 0xabcd. */
  lemma LayoutExamples()
    ensures ReadFake([0x78, 0x56, 0x34, 0x12, 0xcd, 0xab, 0xc9, 0x9a]) == Fake(0x12345678, 0x9abcd, 0xc, 0x9a)
    ensures Meant(Fake(0x12345678, 0x9abcd, 0xc, 0x9a)) == Segment(0x12345678, 0x9abcd, 0x9a, 0xc)
    ensures Decode([0xcd, 0xab, 0x78, 0x56, 0x34, 0x9a, 0xc9, 0x12]) == Segment(0x12345678, 0x9abcd, 0x9a, 0xc)
    ensures Meant(Fake(0x12345678, 0x9abcd, 3, 0x8c)) == Gate(0x12345678, 0xabcd, 0x8c, 3)
    ensures Decode([0x78, 0x56, 0xcd, 0xab, 3, 0x8c, 0x34, 0x12]) == Gate(0x12345678, 0xabcd, 0x8c, 3)
  {
    var f := [0x78, 0x56, 0x34, 0x12, 0xcd, 0xab, 0xc9, 0x9a];
    assert Word16(f, 0) == 0x5678 && Word16(f, 2) == 0x1234 && Word16(f, 4) == 0xabcd;
    var r := [0xcd, 0xab, 0x78, 0x56, 0x34, 0x9a, 0xc9, 0x12];
    assert Word16(r, 0) == 0xabcd && Word16(r, 2) == 0x5678 && Join16(0x34, 0x12) == 0x1234;
    var g := [0x78, 0x56, 0xcd, 0xab, 3, 0x8c, 0x34, 0x12];
    assert Word16(g, 0) == 0x5678 && Word16(g, 2) == 0xabcd && Word16(g, 6) == 0x1234;
  }

  /** The same for 16-byte entries: a segment at, and an interrupt gate to, 0xffffff8012345678. */
  lemma LayoutExamples64()
    ensures ReadFake64([0x78, 0x56, 0x34, 0x12, 0x80, 0xff, 0xff, 0xff, 0xcd, 0xab, 0xc9, 0x89, 0, 0, 0, 0])
            == Fake(0xffffff8012345678, 0x9abcd, 0xc, 0x89)
    ensures Meant64(Fake(0xffffff8012345678, 0x9abcd, 0xc, 0x89)) == Segment(0xffffff8012345678, 0x9abcd, 0x89, 0xc)
    ensures Decode64([0xcd, 0xab, 0x78, 0x56, 0x34, 0x89, 0xc9, 0x12, 0x80, 0xff, 0xff, 0xff, 0, 0, 0, 0])
            == Segment(0xffffff8012345678, 0x9abcd, 0x89, 0xc)
    ensures Meant64(Fake(0xffffff8012345678, 0x9abcd, 0xc, 0x8e)) == Gate(0xffffff8012345678, 0xabcd, 0x8e, 4)
    ensures Decode64([0x78, 0x56, 0xcd, 0xab, 4, 0x8e, 0x34, 0x12, 0x80, 0xff, 0xff, 0xff, 0, 0, 0, 0])
            == Gate(0xffffff8012345678, 0xabcd, 0x8e, 4)
  {
    var f := [0x78, 0x56, 0x34, 0x12, 0x80, 0xff, 0xff, 0xff, 0xcd, 0xab, 0xc9, 0x89, 0, 0, 0, 0];
    assert Word32(f, 0) == 0x12345678 && Word32(f, 4) == 0xffffff80 && Word16(f, 8) == 0xabcd;
    var r := [0xcd, 0xab, 0x78, 0x56, 0x34, 0x89, 0xc9, 0x12, 0x80, 0xff, 0xff, 0xff, 0, 0, 0, 0];
    assert Word16(r, 0) == 0xabcd && Word16(r, 2) == 0x5678 && Join16(0x34, 0x12) == 0x1234;
    assert Word32(r, 8) == 0xffffff80;
    var g := [0x78, 0x56, 0xcd, 0xab, 4, 0x8e, 0x34, 0x12, 0x80, 0xff, 0xff, 0xff, 0, 0, 0, 0];
    assert Word16(g, 0) == 0x5678 && Word16(g, 2) == 0xabcd && Word16(g, 6) == 0x1234 && Word32(g, 8) == 0xffffff80;
  }

  // ---------- one entry ----------

  /** Where the bytes of an entry go. */
  function Moved(b: seq<Byte>): (r: seq<Byte>)
    requires |b| == 8
    ensures |r| == 8
  {
    if IsGate(b[7]) then [b[0], b[1], b[4], b[5], b[6] / 0x10, b[7], b[2], b[3]]
    else [b[4], b[5], b[0], b[1], b[2], b[7], b[6], b[3]]
  }

  function Moved64(b: seq<Byte>): (r: seq<Byte>)
    requires |b| == 16
    ensures |r| == 16
  {
    if IsUnused(b[11]) then Zeros(16)
    else if IsGate64(b[11]) then [b[0], b[1], b[8], b[9], b[10] / 0x10 % 8, b[11], b[2], b[3]] + b[4..8] + Zeros(4)
    else [b[8], b[9], b[0], b[1], b[2], b[11], b[10], b[3]] + b[4..8] + Zeros(4)
  }

  lemma Nibble(b: Byte)
    ensures b / 0x10 % 0x20 == b / 0x10 && b / 0x10 % 8 % 8 == b / 0x10 % 8
  {
  }

  lemma LowHalf(low: nat, high: nat)
    requires low < 0x1_0000
    ensures Join32(low, high) % 0x1_0000 == low
  {
  }

  /** The processor finds in the rewritten entry what the written one said. */
  lemma MovedDecodes(b: seq<Byte>)
    requires |b| == 8
    ensures Decode(Moved(b)) == Meant(ReadFake(b))
  {
    hide Join16, Join32;
    Nibble(b[6]);
    LowHalf(Word16(b, 4), b[6] % 0x10);
  }

  /** The same in 64-bit tables, where an entry of type zero becomes all zero. */
  lemma Moved64Decodes(b: seq<Byte>)
    requires |b| == 16
    ensures if IsUnused(b[11]) then Moved64(b) == Zeros(16) else Decode64(Moved64(b)) == Meant64(ReadFake64(b))
    ensures Moved64(b)[12..] == Zeros(4) && (IsGate64(b[11]) ==> Moved64(b)[4] < 8)
  {
    hide Join16, Join32, Join64, IsGate64, IsUnused;
    if !IsUnused(b[11]) {
      var r := Moved64(b);
      assert r[5] == b[11] && r[8] == b[4] && r[9] == b[5] && r[10] == b[6] && r[11] == b[7];
      Nibble(b[10]);
      LowHalf(Word16(b, 8), b[10] % 0x10);
    }
  }

  /** The gate branch of fix_desc: what it stores is computed from words, not moved bytewise. */
  method StoreGate(desc: array<Byte>, at: nat, offset: nat, selector: nat, wordCount: Byte, access: Byte)
    requires at + 8 <= desc.Length
    modifies desc
    ensures desc[at..at + 8] ==
      [Low(offset), Low(offset / 0x100), Low(selector), Low(selector / 0x100), wordCount, access,
       Low(offset / 0x1_0000), Low(offset / 0x1_0000 / 0x100)]
    ensures desc[..at] == old(desc[..at]) && desc[at + 8..] == old(desc[at + 8..])
  {
    hide Low;
    desc[at], desc[at + 1] := Low(offset), Low(offset / 0x100);
    desc[at + 2], desc[at + 3] := Low(selector), Low(selector / 0x100);
    desc[at + 4] := wordCount;
    desc[at + 5] := access;
    desc[at + 6], desc[at + 7] := Low(offset / 0x1_0000), Low(offset / 0x1_0000 / 0x100);
  }

  method StoreSegment(desc: array<Byte>, at: nat, base: nat, limit: nat, access1: Byte, access2: Byte)
    requires at + 8 <= desc.Length
    modifies desc
    ensures desc[at..at + 8] ==
      [Low(limit), Low(limit / 0x100), Low(base), Low(base / 0x100), Low(base / 0x1_0000), access1, access2,
       Low(base / 0x100_0000)]
    ensures desc[..at] == old(desc[..at]) && desc[at + 8..] == old(desc[at + 8..])
  {
    hide Low;
    desc[at], desc[at + 1] := Low(limit), Low(limit / 0x100);
    desc[at + 2], desc[at + 3] := Low(base), Low(base / 0x100);
    desc[at + 4] := Low(base / 0x1_0000);
    desc[at + 5] := access1;
    desc[at + 6] := access2;
    desc[at + 7] := Low(base / 0x100_0000);
  }

  /** One entry of fix_desc, in place. */
  method FixEntry(desc: array<Byte>, at: nat)
    requires at + 8 <= desc.Length
    modifies desc
    ensures desc[at..at + 8] == Moved(old(desc[at..at + 8]))
    ensures desc[..at] == old(desc[..at]) && desc[at + 8..] == old(desc[at + 8..])
  {
    hide Join16, Join32, Low;
    var access := desc[at + 7];
    BytesOf32(desc[at], desc[at + 1], desc[at + 2], desc[at + 3]);
    BytesOf16(desc[at + 4], desc[at + 5]);
    var word := Join32(Join16(desc[at], desc[at + 1]), Join16(desc[at + 2], desc[at + 3]));
    if access / 4 % 2 == 1 && access / 0x10 % 2 == 0 {
      DivideTwice(word);
      StoreGate(desc, at, word, Join16(desc[at + 4], desc[at + 5]), desc[at + 6] / 0x10, access);
    } else {
      StoreSegment(desc, at, word, Join16(desc[at + 4], desc[at + 5]), access, desc[at + 6]);
    }
  }

  lemma DivideTwice(w: nat)
    ensures w / 0x1_0000 / 0x100 == w / 0x100_0000
  {
  }

  // ---------- whole tables ----------

  function Entry(d: seq<Byte>, k: nat): (e: seq<Byte>)
    requires 8 * k + 8 <= |d|
    ensures |e| == 8
  {
    d[8 * k..8 * k + 8]
  }

  function Entry64(d: seq<Byte>, k: nat): (e: seq<Byte>)
    requires 16 * k + 16 <= |d|
    ensures |e| == 16
  {
    d[16 * k..16 * k + 16]
  }

  /** The first `k` entries are rewritten, and the rest is untouched. */
  ghost predicate DoneTo(before: seq<Byte>, now: seq<Byte>, k: nat) {
    && 8 * k <= |before| == |now| && now[8 * k..] == before[8 * k..]
    && forall i :: 0 <= i < k ==> Entry(now, i) == Moved(Entry(before, i))
  }

  ghost predicate DoneTo64(before: seq<Byte>, now: seq<Byte>, k: nat) {
    && 16 * k <= |before| == |now| && now[16 * k..] == before[16 * k..]
    && forall i :: 0 <= i < k ==> Entry64(now, i) == Moved64(Entry64(before, i))
  }

  lemma DoneOne(before: seq<Byte>, mid: seq<Byte>, now: seq<Byte>, k: nat)
    requires DoneTo(before, mid, k) && |now| == |mid| && 8 * k + 8 <= |now|
    requires now[8 * k..8 * k + 8] == Moved(mid[8 * k..8 * k + 8])
    requires now[..8 * k] == mid[..8 * k] && now[8 * k + 8..] == mid[8 * k + 8..]
    ensures DoneTo(before, now, k + 1)
  {
    hide Moved;
    assert Entry(mid, k) == mid[8 * k..][..8] == Entry(before, k);
    assert now[8 * k + 8..] == mid[8 * k..][8..] == before[8 * k + 8..];
    forall i | 0 <= i < k ensures Entry(now, i) == Moved(Entry(before, i)) {
      assert Entry(now, i) == now[..8 * k][8 * i..8 * i + 8] == Entry(mid, i);
    }
  }

  lemma DoneOne64(before: seq<Byte>, mid: seq<Byte>, now: seq<Byte>, k: nat)
    requires DoneTo64(before, mid, k) && |now| == |mid| && 16 * k + 16 <= |now|
    requires now[16 * k..16 * k + 16] == Moved64(mid[16 * k..16 * k + 16])
    requires now[..16 * k] == mid[..16 * k] && now[16 * k + 16..] == mid[16 * k + 16..]
    ensures DoneTo64(before, now, k + 1)
  {
    hide Moved64;
    assert Entry64(mid, k) == mid[16 * k..][..16] == Entry64(before, k);
    assert now[16 * k + 16..] == mid[16 * k..][16..] == before[16 * k + 16..];
    forall i | 0 <= i < k ensures Entry64(now, i) == Moved64(Entry64(before, i)) {
      assert Entry64(now, i) == now[..16 * k][16 * i..16 * i + 16] == Entry64(mid, i);
    }
  }

  lemma AllDone(before: seq<Byte>, now: seq<Byte>, n: nat)
    requires DoneTo(before, now, n)
    ensures forall k :: 0 <= k < n ==> Decode(Entry(now, k)) == Meant(ReadFake(Entry(before, k)))
  {
    forall k | 0 <= k < n ensures Decode(Entry(now, k)) == Meant(ReadFake(Entry(before, k))) {
      hide Moved, Entry, Decode, Meant, ReadFake;
      MovedDecodes(Entry(before, k));
    }
  }

  lemma AllDone64(before: seq<Byte>, now: seq<Byte>, n: nat)
    requires DoneTo64(before, now, n)
    ensures forall k :: 0 <= k < n && !IsUnused(Entry64(before, k)[11]) ==>
      Decode64(Entry64(now, k)) == Meant64(ReadFake64(Entry64(before, k)))
    ensures forall k :: 0 <= k < n && IsUnused(Entry64(before, k)[11]) ==> Entry64(now, k) == Zeros(16)
    ensures forall k :: 0 <= k < n ==> Entry64(now, k)[12..] == Zeros(4)
  {
    forall k | 0 <= k < n
      ensures Entry64(now, k)[12..] == Zeros(4)
      ensures if IsUnused(Entry64(before, k)[11]) then Entry64(now, k) == Zeros(16)
              else Decode64(Entry64(now, k)) == Meant64(ReadFake64(Entry64(before, k)))
    {
      hide Moved64, Entry64, Decode64, Meant64, ReadFake64, IsUnused;
      Moved64Decodes(Entry64(before, k));
    }
  }

  /** Rewrites `num` entries in place, at least one: the processor then finds in every entry what it said before, and
      nothing else of the array is changed. */
  method FixDesc(desc: array<Byte>, num: nat)
    requires num >= 1 && 8 * num <= desc.Length
    modifies desc
    ensures forall k :: 0 <= k < num ==> Decode(Entry(desc[..], k)) == Meant(ReadFake(Entry(old(desc[..]), k)))
    ensures desc[8 * num..] == old(desc[8 * num..])
  {
    hide Moved, Decode, Meant, ReadFake;
    ghost var before := desc[..];
    var at, left := 0, num;
    FixEntry(desc, at);
    DoneOne(before, before, desc[..], 0);
    at, left := 8, num - 1;
    while left != 0
      invariant left < num && at == 8 * (num - left)
      invariant DoneTo(before, desc[..], num - left)
    {
      ghost var mid := desc[..];
      FixEntry(desc, at);
      DoneOne(before, mid, desc[..], num - left);
      at, left := at + 8, left - 1;
    }
    AllDone(before, desc[..], num);
  }

  function Shift4(n: nat): nat {
    0x10 * n
  }

  lemma BytesOf20(b0: Byte, b1: Byte, b2: Byte)
    ensures var w := Join32(Join16(b0, b1), b2 % 0x10);
      && Low(w) == b0 && Low(w / 0x100) == b1 && w / 0x1_0000 == b2 % 0x10
      && w / 0x1_0000 % 0x100 % 0x10 + Shift4(b2 / 0x10) == b2
  {
    var w := Join32(Join16(b0, b1), b2 % 0x10);
    assert w / 0x100 == b1 + 0x100 * (b2 % 0x10);
  }

  lemma BytesOf64(e: seq<Byte>)
    requires |e| == 16
    ensures var w := Word64(e, 0);
      && Low(w) == e[0] && Low(w / 0x100) == e[1] && Low(w / 0x1_0000) == e[2] && Low(w / 0x100_0000) == e[3]
      && Low(w / 0x1_0000_0000) == e[4] && Low(w / 0x100_0000_0000) == e[5]
      && Low(w / 0x1_0000_0000_0000) == e[6] && Low(w / 0x100_0000_0000_0000) == e[7]
  {
    BytesOf32(e[0], e[1], e[2], e[3]);
    BytesOf32(e[4], e[5], e[6], e[7]);
    LowBytes(Word32(e, 0), Word32(e, 4));
  }

  lemma LowBytes(low: nat, high: nat)
    requires low < 0x1_0000_0000
    ensures var w := Join64(low, high);
      && Low(w) == Low(low) && Low(w / 0x100) == Low(low / 0x100)
      && Low(w / 0x1_0000) == Low(low / 0x1_0000) && Low(w / 0x100_0000) == Low(low / 0x100_0000)
      && Low(w / 0x1_0000_0000) == Low(high) && Low(w / 0x100_0000_0000) == Low(high / 0x100)
      && Low(w / 0x1_0000_0000_0000) == Low(high / 0x1_0000) && Low(w / 0x100_0000_0000_0000) == Low(high / 0x100_0000)
  {
    var w := Join64(low, high);
    Halves(low, high);
    Above(low / 0x100, 0x100_0000 * high, 0x1_0000 * high);
    Above(low / 0x1_0000, 0x1_0000 * high, 0x100 * high);
    Above(low / 0x100_0000, 0x100 * high, high);
    Above(low, 0x1_0000_0000 * high, 0x100_0000 * high);
    assert w / 0x100 == low / 0x100 + 0x100_0000 * high;
    assert w / 0x1_0000 == low / 0x1_0000 + 0x1_0000 * high;
    assert w / 0x100_0000 == low / 0x100_0000 + 0x100 * high;
    assert w / 0x1_0000_0000 == high;
    assert w / 0x100_0000_0000 == high / 0x100;
    assert w / 0x1_0000_0000_0000 == high / 0x1_0000;
    assert w / 0x100_0000_0000_0000 == high / 0x100_0000;
  }

  /** Whole multiples of 256 do not change a low byte. */
  lemma Above(n: nat, more: nat, k: nat)
    requires more == 0x100 * k
    ensures Low(n + more) == Low(n)
  {
  }

  /** One entry of fix_desc64: the real form is built on the side, starting from zeros. */
  method FixEntry64(desc: array<Byte>, at: nat)
    requires at + 16 <= desc.Length
    modifies desc
    ensures desc[at..at + 16] == Moved64(old(desc[at..at + 16]))
    ensures desc[..at] == old(desc[..at]) && desc[at + 16..] == old(desc[at + 16..])
  {
    hide Join16, Join32, Join64, Low, Zeros;
    ghost var e := desc[at..at + 16];
    var access := desc[at + 11];
    var offset64 := Join64(Join32(Join16(desc[at], desc[at + 1]), Join16(desc[at + 2], desc[at + 3])),
                           Join32(Join16(desc[at + 4], desc[at + 5]), Join16(desc[at + 6], desc[at + 7])));
    var limOrSeg := Join32(Join16(desc[at + 8], desc[at + 9]), desc[at + 10] % 0x10);
    var size := desc[at + 10] / 0x10;
    BytesOf64(e);
    BytesOf20(desc[at + 8], desc[at + 9], desc[at + 10]);
    var top := [Low(offset64 / 0x1_0000_0000), Low(offset64 / 0x100_0000_0000), Low(offset64 / 0x1_0000_0000_0000),
                Low(offset64 / 0x100_0000_0000_0000), 0, 0, 0, 0];
    var built: seq<Byte> := Zeros(16);
    var kind := access % 0x20 - access % 2;
    if kind == 0 {
    } else if kind == 0xc || kind == 0xe {
      built := [Low(offset64), Low(offset64 / 0x100), Low(limOrSeg), Low(limOrSeg / 0x100), size % 8, access,
               Low(offset64 / 0x1_0000), Low(offset64 / 0x100_0000)] + top;
    } else {
      built := [Low(limOrSeg), Low(limOrSeg / 0x100), Low(offset64), Low(offset64 / 0x100), Low(offset64 / 0x1_0000),
               access,
               limOrSeg / 0x1_0000 % 0x100 % 0x10 + Shift4(size), Low(offset64 / 0x100_0000)] + top;
    }
    assert built == Moved64(e);
    forall i | 0 <= i < 16 {
      desc[at + i] := built[i];
    }
  }

  /** Rewrites `count` 16-byte entries in place; entries of type zero become all zero. */
  method FixDesc64(desc: array<Byte>, count: nat)
    requires 16 * count <= desc.Length
    modifies desc
    ensures forall k :: 0 <= k < count && !IsUnused(Entry64(old(desc[..]), k)[11]) ==>
      Decode64(Entry64(desc[..], k)) == Meant64(ReadFake64(Entry64(old(desc[..]), k)))
    ensures forall k :: 0 <= k < count && IsUnused(Entry64(old(desc[..]), k)[11]) ==> Entry64(desc[..], k) == Zeros(16)
    ensures forall k :: 0 <= k < count ==> Entry64(desc[..], k)[12..] == Zeros(4)
    ensures desc[16 * count..] == old(desc[16 * count..])
  {
    hide Moved64, Decode64, Meant64, ReadFake64, IsUnused;
    ghost var before := desc[..];
    for i := 0 to count
      invariant DoneTo64(before, desc[..], i)
    {
      ghost var mid := desc[..];
      FixEntry64(desc, 16 * i);
      DoneOne64(before, mid, desc[..], i);
    }
    AllDone64(before, desc[..], count);
  }
}
