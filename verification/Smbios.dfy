/** Parsing the SMBIOS structure table (Kernel/Modules/SMBIOS.swift) through a memory buffer
    (Kernel/Swift Extensions/MemoryBuffer.swift); the layout is that of DMTF DSP0134, sections 6.1.2 and 6.1.3. */
module Smbios {
  import opened Common

  /** Memory as the kernel sees it: every address can be read. */
  type Memory = nat -> Byte

  /** One structure: its type, length byte, handle, formatted area and strings. */
  datatype Entry = Entry(kind: Byte, length: Byte, handle: nat, data: seq<Byte>, strings: seq<seq<Byte>>)

  function Window(mem: Memory, at: nat, n: nat): (w: seq<Byte>)
    ensures |w| == n && forall i :: 0 <= i < n ==> w[i] == mem(at + i)
  {
    seq(n, i requires 0 <= i < n => mem(at + i))
  }

  // ---------- the buffer ----------

  class MemoryBuffer {
    const mem: Memory
    const base: nat
    const count: nat
    var offset: nat

    constructor (mem: Memory, base: nat, count: nat)
      ensures this.mem == mem && this.base == base && this.count == count && offset == 0
    {
      this.mem, this.base, this.count, offset := mem, base, count, 0;
    }

    /** `read` of a one-byte value. */
    method ReadByte() returns (r: Option<Byte>)
      modifies this
      ensures r == if old(offset) < count then Some(mem(base + old(offset))) else None
      ensures offset == old(offset) + if r.Some? then 1 else 0
    {
      if (count as int) - offset <= 0 {
        return None;
      }
      r := Some(mem(base + offset));
      offset := offset + 1;
    }

    /** `read` of a two-byte value, low byte first. */
    method ReadWord() returns (r: Option<nat>)
      modifies this
      ensures r == if old(offset) + 2 <= count then Some(WordAt(mem, base + old(offset))) else None
      ensures offset == old(offset) + if r.Some? then 2 else 0
    {
      if (count as int) - offset <= 0 || (count as int) - offset < 2 {
        return None;
      }
      r := Some(WordAt(mem, base + offset));
      offset := offset + 2;
    }

    method SubBuffer(start: nat, size: nat) returns (b: MemoryBuffer)
      ensures fresh(b) && b.mem == mem && b.base == base + start && b.count == size && b.offset == 0
    {
      b := new MemoryBuffer(mem, base + start, size);
    }

    method SubBufferToEnd(start: nat) returns (b: MemoryBuffer)
      ensures fresh(b) && b.mem == mem && b.base == base + start && b.offset == 0
      ensures b.count == if start <= count then count - start else 0
    {
      var size := (count as int) - start;
      if size < 0 {
        size := 0;
      }
      b := SubBuffer(start, size);
    }

    /** Reads up to the first NUL; without one, nothing is returned and everything is read. */
    method ScanAsciizString() returns (r: Option<seq<Byte>>)
      modifies this
      ensures (r, offset) == ScanString(mem, base, count, old(offset))
    {
      var result: seq<Byte> := [];
      ghost var goal := ScanString(mem, base, count, offset);
      ghost var at := offset;
      var ch := ReadByte();
      if ch.None? {
        return None;
      }
      Prepends([], [], goal);
      while ch.value != 0
        invariant ch.Some? && at < count && offset == at + 1 && ch.value == mem(base + at)
        invariant goal == Prepend(result, ScanString(mem, base, count, at))
        decreases count - offset
      {
        Prepends(result, [ch.value], ScanString(mem, base, count, at + 1));
        result := result + [ch.value];
        ch := ReadByte();
        at := at + 1;
        if ch.None? {
          return None;
        }
      }
      assert result + [] == result;
      r := Some(result);
    }
  }

  function WordAt(mem: Memory, at: nat): nat {
    (mem(at) as int) + (mem(at + 1) as int) * 256
  }

  // ---------- what parsing comes to ----------

  function ScanString(mem: Memory, base: nat, count: nat, offset: nat): (r: (Option<seq<Byte>>, nat))
    ensures r.0.Some? ==> offset < r.1 <= count
    decreases if offset < count then count - offset else 0
  {
    if offset >= count then (None, offset)
    else if mem(base + offset) == 0 then (Some([]), offset + 1)
    else Prepend([mem(base + offset)], ScanString(mem, base, count, offset + 1))
  }

  function Prepend(s: seq<Byte>, r: (Option<seq<Byte>>, nat)): (Option<seq<Byte>>, nat) {
    (if r.0.Some? then Some(s + r.0.value) else None, r.1)
  }

  lemma Prepends(a: seq<Byte>, b: seq<Byte>, r: (Option<seq<Byte>>, nat))
    ensures Prepend([], r) == r && Prepend(a, Prepend(b, r)) == Prepend(a + b, r)
  {
    if r.0.Some? {
      assert [] + r.0.value == r.0.value && a + (b + r.0.value) == a + b + r.0.value;
    }
  }

  function Front<T>(a: seq<T>, r: (seq<T>, nat)): (seq<T>, nat) {
    (a + r.0, r.1)
  }

  lemma Fronts<T>(a: seq<T>, b: seq<T>, r: (seq<T>, nat))
    ensures Front([], r) == r && Front(a, Front(b, r)) == Front(a + b, r)
  {
    assert [] + r.0 == r.0 && a + (b + r.0) == a + b + r.0;
  }

  /** Strings up to the first empty one, or up to where the buffer ends inside a string. */
  function ScanStrings(mem: Memory, base: nat, count: nat, offset: nat): (seq<seq<Byte>>, nat)
    decreases if offset < count then count - offset else 0
  {
    var (s, next) := ScanString(mem, base, count, offset);
    if s.None? || s.value == [] then ([], next)
    else Front([s.value], ScanStrings(mem, base, count, next))
  }

  /** One turn of the table loop: the structure it appends, if any, and the offset it leaves. */
  function ParseOne(mem: Memory, base: nat, count: nat, offset: nat): (Option<Entry>, nat) {
    if offset >= count then (None, offset)
    else if offset + 1 >= count then (None, offset + 1)
    else if offset + 4 > count then (None, offset + 2)
    else
      var length := mem(base + offset + 1);
      var body := offset + 4;
      if length < 4 then (None, body)
      else
        var size := (length as int) - 4;
        var left := if body + size <= count then count - (body + size) else 0;
        if left < 2 then (None, body)
        else
          var at := base + body + size;
          var (strings, used) := if WordAt(mem, at) != 0 then ScanStrings(mem, at, left, 0) else ([], 2);
          (Some(Entry(mem(base + offset), length, WordAt(mem, base + offset + 2), Window(mem, base + body, size),
                      strings)),
           body + size + used)
  }

  /** A structure is read from inside the buffer, and nothing behind the buffer is consumed; what is too short for one
      loses at most its header. */
  lemma ParseOneBounds(mem: Memory, base: nat, count: nat, offset: nat)
    requires offset <= count
    ensures var (entry, next) := ParseOne(mem, base, count, offset);
      && offset <= next <= count
      && (entry.None? ==> next <= offset + 4)
      && (entry.Some? ==> offset + entry.value.length as int < next)
  {
    if ParseOne(mem, base, count, offset).0.Some? {
      var size := (mem(base + offset + 1) as int) - 4;
      StringsInside(mem, base + offset + 4 + size, count - (offset + 4 + size), 0);
    }
  }

  /** A structure is found exactly when its header, its formatted area and two bytes behind it lie in the buffer, and
      its length covers the header.  Of a shorter rest at most two bytes are read; of another structure, the header. */
  lemma ParseOneIff(mem: Memory, base: nat, count: nat, offset: nat)
    requires offset <= count
    ensures var left := count - offset;
      && (ParseOne(mem, base, count, offset).0.Some? <==>
          left >= 4 && mem(base + offset + 1) >= 4 && (mem(base + offset + 1) as int) + 2 <= left)
      && (left < 4 ==> ParseOne(mem, base, count, offset) == (None, offset + if left < 2 then left else 2))
      && (left >= 4 && ParseOne(mem, base, count, offset).0.None? ==>
          ParseOne(mem, base, count, offset).1 == offset + 4)
  {
  }

  lemma {:induction false} StringsInside(mem: Memory, base: nat, count: nat, offset: nat)
    requires offset <= count
    ensures offset <= ScanStrings(mem, base, count, offset).1 <= count
    ensures offset < count ==> offset < ScanStrings(mem, base, count, offset).1
    decreases count - offset
  {
    StringInside(mem, base, count, offset);
    var (s, next) := ScanString(mem, base, count, offset);
    if s.Some? && s.value != [] {
      StringsInside(mem, base, count, next);
    }
  }

  lemma {:induction false} StringInside(mem: Memory, base: nat, count: nat, offset: nat)
    requires offset <= count
    ensures offset <= ScanString(mem, base, count, offset).1 <= count
    ensures offset < count ==> offset < ScanString(mem, base, count, offset).1
    decreases count - offset
  {
    if offset < count && mem(base + offset) != 0 {
      StringInside(mem, base, count, offset + 1);
    }
  }

  function ParseAll(mem: Memory, base: nat, count: nat, offset: nat, n: nat): (seq<Entry>, nat)
    decreases n
  {
    if n == 0 then ([], offset)
    else
      var (entry, next) := ParseOne(mem, base, count, offset);
      Front(if entry.Some? then [entry.value] else [], ParseAll(mem, base, count, next, n - 1))
  }

  // ---------- the parser ----------

  class Smbios {
    var tables: seq<Entry>

    constructor ()
      ensures tables == []
    {
      tables := [];
    }

    /** The table loop of `init`; its range traps on an entry count of 0. */
    method ReadTables(buffer: MemoryBuffer, entryCount: nat)
      requires entryCount >= 1
      modifies this, buffer
      ensures old(tables) <= tables
      ensures (tables[|old(tables)|..], buffer.offset)
              == ParseAll(buffer.mem, buffer.base, buffer.count, old(buffer.offset), entryCount)
    {
      ghost var start, added: seq<Entry> := tables, [];
      ghost var goal := ParseAll(buffer.mem, buffer.base, buffer.count, buffer.offset, entryCount);
      Fronts(added, [], goal);
      for i := 0 to entryCount
        invariant tables == start + added
        invariant goal == Front(added, ParseAll(buffer.mem, buffer.base, buffer.count, buffer.offset, entryCount - i))
      {
        var entry := ReadEntry(buffer);
        ghost var found := if entry.Some? then [entry.value] else [];
        Fronts(added, found, ParseAll(buffer.mem, buffer.base, buffer.count, buffer.offset, entryCount - i - 1));
        added := added + found;
        if entry.Some? {
          tables := tables + [entry.value];
        }
      }
      assert tables[|start|..] == added && added + [] == added;
    }

    method ReadEntry(buffer: MemoryBuffer) returns (entry: Option<Entry>)
      modifies buffer
      ensures (entry, buffer.offset) == ParseOne(buffer.mem, buffer.base, buffer.count, old(buffer.offset))
    {
      hide ScanStrings, WordAt, Window;
      var kind := buffer.ReadByte();
      if kind.None? {
        return None;
      }
      var length := buffer.ReadByte();
      if length.None? {
        return None;
      }
      var handle := buffer.ReadWord();
      if handle.None? {
        return None;
      }
      var size := (length.value as int) - 4;
      if size < 0 {
        return None;
      }
      var data := buffer.SubBuffer(buffer.offset, size);
      var stringTable := buffer.SubBufferToEnd(buffer.offset + size);
      var terminator := stringTable.ReadWord();
      if terminator.None? {
        return None;
      }
      var strings: seq<seq<Byte>> := [];
      if terminator.value != 0 {
        stringTable.offset := 0;
        strings := ReadStrings(stringTable);
      }
      entry := Some(Entry(kind.value, length.value, handle.value, Window(data.mem, data.base, data.count), strings));
      buffer.offset := buffer.offset + size + stringTable.offset;
    }

    method ReadStrings(table: MemoryBuffer) returns (strings: seq<seq<Byte>>)
      modifies table
      ensures (strings, table.offset) == ScanStrings(table.mem, table.base, table.count, old(table.offset))
    {
      strings := [];
      ghost var goal := ScanStrings(table.mem, table.base, table.count, table.offset);
      Fronts(strings, [], goal);
      while true
        invariant goal == Front(strings, ScanStrings(table.mem, table.base, table.count, table.offset))
        decreases if table.offset < table.count then table.count - table.offset else 0
      {
        var s := table.ScanAsciizString();
        if s.None? {
          break;
        }
        if s.value != [] {
          Fronts(strings, [s.value], ScanStrings(table.mem, table.base, table.count, table.offset));
          strings := strings + [s.value];
        } else {
          break;
        }
      }
      assert strings + [] == strings;
    }
  }

  // ---------- the table format ----------

  /** Strings each end in NUL, and the list in one more. */
  function EncodeStrings(ss: seq<seq<Byte>>): seq<Byte> {
    if ss == [] then [0] else ss[0] + [0] + EncodeStrings(ss[1..])
  }

  /** Header, formatted area, and the strings; without strings, two NULs. */
  function Encode(e: Entry): seq<Byte>
    requires EntryOk(e)
  {
    [e.kind, e.length, e.handle % 256, e.handle / 256] + e.data + Tail(e)
  }

  predicate EntryOk(e: Entry) {
    && e.length as int == |e.data| + 4 && e.handle < 0x1_0000
    && forall i :: 0 <= i < |e.strings| ==> e.strings[i] != [] && 0 !in e.strings[i]
  }

  function EncodeTable(es: seq<Entry>): seq<Byte>
    requires forall i :: 0 <= i < |es| ==> EntryOk(es[i])
  {
    if es == [] then [] else Encode(es[0]) + EncodeTable(es[1..])
  }

  /** `bytes` are in memory from `at` on. */
  ghost predicate Holds(mem: Memory, at: nat, bytes: seq<Byte>) {
    forall i :: 0 <= i < |bytes| ==> mem(at + i) == bytes[i]
  }

  lemma HoldsApart(mem: Memory, at: nat, a: seq<Byte>, b: seq<Byte>)
    requires Holds(mem, at, a + b)
    ensures Holds(mem, at, a) && Holds(mem, at + |a|, b)
  {
    forall i | 0 <= i < |a| ensures mem(at + i) == a[i] {
      assert (a + b)[i] == a[i];
    }
    forall i | 0 <= i < |b| ensures mem(at + |a| + i) == b[i] {
      assert (a + b)[|a| + i] == b[i];
    }
  }

  lemma {:induction false} ScanEncodedString(mem: Memory, base: nat, count: nat, offset: nat, s: seq<Byte>)
    requires Holds(mem, base + offset, s + [0]) && 0 !in s && offset + |s| < count
    ensures ScanString(mem, base, count, offset) == (Some(s), offset + |s| + 1)
    decreases |s|
  {
    assert mem(base + offset) == (s + [0])[0];
    if s != [] {
      assert s + [0] == [s[0]] + (s[1..] + [0]);
      HoldsApart(mem, base + offset, [s[0]], s[1..] + [0]);
      ScanEncodedString(mem, base, count, offset + 1, s[1..]);
      assert s == [s[0]] + s[1..];
    }
  }

  lemma {:induction false} ScanEncodedStrings(mem: Memory, base: nat, count: nat, offset: nat, ss: seq<seq<Byte>>)
    requires Holds(mem, base + offset, EncodeStrings(ss)) && offset + |EncodeStrings(ss)| <= count
    requires forall i :: 0 <= i < |ss| ==> ss[i] != [] && 0 !in ss[i]
    ensures ScanStrings(mem, base, count, offset) == (ss, offset + |EncodeStrings(ss)|)
    decreases |ss|
  {
    if ss == [] {
      assert [] + [0] == EncodeStrings(ss);
      ScanEncodedString(mem, base, count, offset, []);
    } else {
      HoldsApart(mem, base + offset, ss[0] + [0], EncodeStrings(ss[1..]));
      ScanEncodedString(mem, base, count, offset, ss[0]);
      ScanEncodedStrings(mem, base, count, offset + |ss[0]| + 1, ss[1..]);
      assert ss == [ss[0]] + ss[1..];
    }
  }

  /** Reading back one structure takes exactly its encoding. */
  lemma ParseEncoded(mem: Memory, base: nat, count: nat, offset: nat, e: Entry)
    requires EntryOk(e) && Holds(mem, base + offset, Encode(e)) && offset + |Encode(e)| <= count
    ensures ParseOne(mem, base, count, offset) == (Some(e), offset + |Encode(e)|)
  {
    ReadsParts(mem, base + offset, e);
    LengthOfEncoded(e);
    Terminator(mem, base + offset + 4 + |e.data|, e, Tail(e), count - (offset + 4 + |e.data|));
    hide Encode, EncodeStrings, ScanStrings, Holds, Window, WordAt, Tail;
    assert Window(mem, base + (offset + 4), |e.data|) == e.data;
  }

  /** What follows the formatted area. */
  function Tail(e: Entry): seq<Byte> {
    if e.strings == [] then [0, 0] else EncodeStrings(e.strings)
  }

  lemma LengthOfEncoded(e: Entry)
    requires EntryOk(e)
    ensures |Encode(e)| == 4 + |e.data| + |Tail(e)|
  {
  }

  /** The parts of an encoded structure in memory. */
  lemma ReadsParts(mem: Memory, at: nat, e: Entry)
    requires EntryOk(e) && Holds(mem, at, Encode(e))
    ensures mem(at) == e.kind && mem(at + 1) == e.length && WordAt(mem, at + 2) == e.handle
    ensures Window(mem, at + 4, |e.data|) == e.data && Holds(mem, at + 4 + |e.data|, Tail(e))
  {
    var header := [e.kind, e.length, e.handle % 256, e.handle / 256];
    assert Encode(e) == header + (e.data + Tail(e));
    hide Encode, EncodeStrings, Tail;
    HoldsApart(mem, at, header, e.data + Tail(e));
    HoldsApart(mem, at + 4, e.data, Tail(e));
    assert mem(at + 0) == header[0] && mem(at + 1) == header[1] && mem(at + 2) == header[2] && mem(at + 3) == header[3];
  }

  lemma Terminator(mem: Memory, at: nat, e: Entry, tail: seq<Byte>, left: nat)
    requires EntryOk(e) && tail == Tail(e)
    requires Holds(mem, at, tail) && |tail| <= left
    ensures left >= 2 && (WordAt(mem, at) != 0 <==> e.strings != [])
    ensures e.strings != [] ==> ScanStrings(mem, at, left, 0) == (e.strings, |tail|)
  {
    if e.strings == [] {
      assert mem(at + 0) == tail[0] && mem(at + 1) == tail[1];
    } else {
      assert tail[0] == e.strings[0][0] && mem(at + 0) == tail[0];
      assert e.strings[0][0] in e.strings[0];
      ScanEncodedStrings(mem, at, left, 0, e.strings);
    }
  }

  /** Reading back a table gives its structures and takes exactly its encoding. */
  lemma {:induction false} ParseEncodedTable(mem: Memory, base: nat, count: nat, offset: nat, es: seq<Entry>)
    requires forall i :: 0 <= i < |es| ==> EntryOk(es[i])
    requires Holds(mem, base + offset, EncodeTable(es)) && offset + |EncodeTable(es)| <= count
    ensures ParseAll(mem, base, count, offset, |es|) == (es, offset + |EncodeTable(es)|)
    decreases |es|
  {
    hide ParseOne, Encode, Holds;
    if es != [] {
      HoldsApart(mem, base + offset, Encode(es[0]), EncodeTable(es[1..]));
      ParseEncoded(mem, base, count, offset, es[0]);
      ParseEncodedTable(mem, base, count, offset + |Encode(es[0])|, es[1..]);
      assert es == [es[0]] + es[1..];
    }
  }

  // ---------- strings by index ----------

  /** `getString`: the string whose number stands at `offset` of the structure. */
  function GetString(e: Entry, offset: Byte): Option<seq<Byte>> {
    if offset < 4 then None
    else
      var index := (offset as int) - 4;
      if index + 1 > |e.data| then None
      else
        var stringId := e.data[index] as int;
        if stringId > 0 && stringId <= |e.strings| then Some(e.strings[stringId - 1]) else None
  }

  /** Strings are numbered from 1, and their numbers stand at offsets into the encoded structure itself, header
      included; number 0, a number without a string and an offset outside the formatted area give nothing. */
  lemma GetStringMeaning(e: Entry, offset: Byte)
    requires EntryOk(e)
    ensures GetString(e, offset) ==
      if 4 <= offset < e.length && 1 <= Encode(e)[offset] <= |e.strings|
      then Some(e.strings[Encode(e)[offset] - 1])
      else None
  {
    if 4 <= offset < e.length {
      assert Encode(e)[offset] == e.data[(offset as int) - 4];
    }
  }
}
