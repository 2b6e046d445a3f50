/** 4-level paging as the processor does it (Intel SDM Vol. 3A, section 4.5) and as the kernel walks the same tables
    in software (Kernel/Kernel/i386/pmap_internal.h, Kernel/Kernel/i386/pmap.h).

    Physical memory is a sequence of 64-bit words; word number w lies at physical address 8*w. */
module PageTables {
  import opened Common

  const MB2 := 0x20_0000
  const GB := 0x4000_0000
  const GB512 := 0x80_0000_0000
  const NX_BIT := 0x8000_0000_0000_0000
  const ADDRESS_LIMIT := 0x10_0000_0000_0000

  const VALID := 1
  const WRITE := 2
  const LARGE := 0x80

  // Division by the constants that paging uses; x is what lies below the multiple.

  lemma Pages(q: nat, x: nat)
    ensures (q * PAGE + x) / PAGE == q + x / PAGE && (q * PAGE + x) % PAGE == x % PAGE
  {
  }

  lemma Frames(q: nat, x: nat)
    ensures (q * 0x100_0000_0000 + x) / 0x100_0000_0000 == q + x / 0x100_0000_0000
    ensures (q * 0x100_0000_0000 + x) % 0x100_0000_0000 == x % 0x100_0000_0000
  {
  }

  lemma Twos(q: nat, x: nat)
    ensures (q * 2 + x) / 2 == q + x / 2 && (q * 2 + x) % 2 == x % 2
  {
  }

  lemma Bit7s(q: nat, x: nat)
    ensures (q * 0x80 + x) / 0x80 == q + x / 0x80 && (q * 0x80 + x) % 0x80 == x % 0x80
  {
  }

  lemma Bit63s(q: nat, x: nat)
    ensures (q * NX_BIT + x) / NX_BIT == q + x / NX_BIT && (q * NX_BIT + x) % NX_BIT == x % NX_BIT
  {
  }

  lemma Slots(q: nat, x: nat)
    ensures (q * GB512 + x) / GB512 == q + x / GB512 && (q * GB512 + x) % GB512 == x % GB512
  {
  }

  lemma Tables(q: nat, x: nat)
    ensures (q * 512 + x) / 512 == q + x / 512 && (q * 512 + x) % 512 == x % 512
  {
  }

  lemma Gigabytes(q: nat, x: nat)
    ensures (q * GB + x) / GB == q + x / GB && (q * GB + x) % GB == x % GB
  {
  }

  lemma Megabytes(q: nat, x: nat)
    ensures (q * MB2 + x) / MB2 == q + x / MB2 && (q * MB2 + x) % MB2 == x % MB2
  {
  }

  // ---------- entries ----------

  /** A page-table entry from a page-aligned frame, flags below bit 12, and the no-execute bit. */
  function Pte(frame: nat, flags: nat, nx: bool): nat {
    frame + flags + (if nx then NX_BIT else 0)
  }

  predicate IsValid(e: nat) {
    e % 2 == 1
  }

  predicate IsWritable(e: nat) {
    e / 2 % 2 == 1
  }

  predicate IsLarge(e: nat) {
    e / 0x80 % 2 == 1
  }

  predicate IsNoExecute(e: nat) {
    e / NX_BIT % 2 == 1
  }

  /** The frame bits 12 to 51 (PG_FRAME). */
  function Frame(e: nat): nat {
    e / PAGE % 0x100_0000_0000 * PAGE
  }

  lemma PteFrame(frame: nat, flags: nat, nx: bool)
    requires frame % PAGE == 0 && frame < ADDRESS_LIMIT && flags < PAGE
    ensures var e := Pte(frame, flags, nx); Frame(e) == frame && IsNoExecute(e) == nx && e < UINT64
  {
    var e, k, top := Pte(frame, flags, nx), frame / PAGE, if nx then 1 else 0;
    var q := top * 0x8_0000_0000_0000 + k;
    assert e == q * PAGE + flags;
    Pages(q, flags);
    Frames(top * 0x800, k);
    Bit63s(top, frame + flags);
  }

  lemma PteFlags(frame: nat, flags: nat, nx: bool)
    requires frame % PAGE == 0 && flags < PAGE
    ensures var e := Pte(frame, flags, nx);
      IsValid(e) == IsValid(flags) && IsWritable(e) == IsWritable(flags) && IsLarge(e) == IsLarge(flags)
  {
    var q := frame / PAGE + if nx then 0x8_0000_0000_0000 else 0;
    assert Pte(frame, flags, nx) == q * PAGE + flags;
    Twos(q * 0x800, flags);
    Twos(q * 0x400, flags / 2);
    Bit7s(q * 32, flags);
    Twos(q * 16, flags / 0x80);
  }

  /** An entry gives back what was put into it. */
  lemma PteFields(frame: nat, flags: nat, nx: bool)
    requires frame % PAGE == 0 && frame < ADDRESS_LIMIT && flags < PAGE
    ensures var e := Pte(frame, flags, nx);
      && Frame(e) == frame && IsNoExecute(e) == nx && e < UINT64
      && IsValid(e) == IsValid(flags) && IsWritable(e) == IsWritable(flags) && IsLarge(e) == IsLarge(flags)
  {
    hide IsValid, IsLarge;
    PteFrame(frame, flags, nx);
    PteFlags(frame, flags, nx);
  }

  /** An entry that leads to a table or a small page. */
  lemma TableEntry(frame: nat, nx: bool)
    requires frame % PAGE == 0 && frame < ADDRESS_LIMIT
    ensures var e := Pte(frame, VALID + WRITE, nx);
      IsValid(e) && IsWritable(e) && !IsLarge(e) && IsNoExecute(e) == nx && Frame(e) == frame
  {
    PteFields(frame, VALID + WRITE, nx);
  }

  /** The source combines frame and flags with `|`; their bits are disjoint, so nothing carries. */
  lemma OrIsPlus(frame: bv64, flags: bv64)
    requires frame & 0x8000_0000_0000_0FFF == 0 && flags & 0x7FFF_FFFF_FFFF_F000 == 0
    ensures frame | flags == frame + flags
  {
  }

  // ---------- virtual addresses ----------

  /** Bits 47 to 63 are all equal. */
  predicate Canonical(v: nat) {
    v < 0x8000_0000_0000 || 0xFFFF_8000_0000_0000 <= v < UINT64
  }

  lemma CanonicalIff(v: nat)
    ensures Canonical(v) <==> v / 0x8000_0000_0000 == 0 || v / 0x8000_0000_0000 == 0x1_FFFF
  {
  }

  function Pml4Index(v: nat): (i: nat)
    ensures i < 512
  {
    v / GB512 % 512
  }

  function PdptIndex(v: nat): (i: nat)
    ensures i < 512
  {
    v / GB % 512
  }

  function PdIndex(v: nat): (i: nat)
    ensures i < 512
  {
    v / MB2 % 512
  }

  function PtIndex(v: nat): (i: nat)
    ensures i < 512
  {
    v / PAGE % 512
  }

  /** KVADDR for the upper half, where bit 47 belongs both to the sign extension and to the PML4 index. */
  function KvAddr(pml4: nat, pdpt: nat): nat {
    0xFFFF_0000_0000_0000 + pml4 * GB512 + pdpt * GB
  }

  lemma KvAddrBits(pml4: bv64, pdpt: bv64)
    requires 256 <= pml4 < 512 && pdpt < 512
    ensures (0xFFFF_8000_0000_0000 | (pml4 << 39) | (pdpt << 30)) == 0xFFFF_0000_0000_0000 + (pml4 << 39) + (pdpt << 30)
  {
  }

  /** The indices of an address in the upper-half slot `pml4`, from its offset in that slot. */
  lemma SlotIndices(pml4: nat, x: nat)
    requires 256 <= pml4 < 512 && x < GB512
    ensures var v := KvAddr(pml4, 0) + x;
      && Canonical(v) && Pml4Index(v) == pml4 && PdptIndex(v) == x / GB && PdIndex(v) == x / MB2 % 512
      && PtIndex(v) == x / PAGE % 512 && v % PAGE == x % PAGE && v % MB2 == x % MB2
  {
    var v, high := KvAddr(pml4, 0) + x, 0x1_FFFE * 256 + pml4;
    assert v == high * GB512 + x;
    Slots(high, x);
    Tables(0x1_FFFE / 2, pml4);
    Gigabytes(high * 512, x);
    Tables(high, x / GB);
    Megabytes(high * 512 * 512, x);
    Tables(high * 512, x / MB2);
    Pages(high * 512 * 512 * 512, x);
    Tables(high * 512 * 512, x / PAGE);
  }

  // ---------- the processor's walk ----------

  /** Where an address leads, and with which rights. */
  datatype Mapping = Mapping(phys: nat, writable: bool, noExecute: bool)

  /** Entry number `i` of the table at physical address `table`; there is no memory beyond `mem`. */
  function Entry(mem: seq<nat>, table: nat, i: nat): nat {
    if table / 8 + i < |mem| then mem[table / 8 + i] else 0
  }

  /** Writing needs the right at every level; one level is enough to forbid execution. */
  function HardwareWalk(mem: seq<nat>, cr3: nat, v: nat): Option<Mapping> {
    var e4 := Entry(mem, cr3, Pml4Index(v));
    if !Canonical(v) || !IsValid(e4) then None
    else
      var e3 := Entry(mem, Frame(e4), PdptIndex(v));
      if !IsValid(e3) then None
      else if IsLarge(e3) then
        Some(Mapping(Frame(e3) / GB * GB + v % GB, IsWritable(e4) && IsWritable(e3),
                     IsNoExecute(e4) || IsNoExecute(e3)))
      else
        var e2 := Entry(mem, Frame(e3), PdIndex(v));
        if !IsValid(e2) then None
        else if IsLarge(e2) then
          Some(Mapping(Frame(e2) / MB2 * MB2 + v % MB2, IsWritable(e4) && IsWritable(e3) && IsWritable(e2),
                       IsNoExecute(e4) || IsNoExecute(e3) || IsNoExecute(e2)))
        else
          var e1 := Entry(mem, Frame(e2), PtIndex(v));
          if !IsValid(e1) then None
          else
            Some(Mapping(Frame(e1) + v % PAGE, IsWritable(e4) && IsWritable(e3) && IsWritable(e2) && IsWritable(e1),
                         IsNoExecute(e4) || IsNoExecute(e3) || IsNoExecute(e2) || IsNoExecute(e1)))
  }

  // ---------- the kernel's walk ----------

  /** What the lookup functions return: NULL, a pointer, or the end of the kernel: a panic of PHYSMAP_PTOV or a page
      fault on following a pointer. */
  datatype Pointer = Null | At(va: nat) | Panic | Fault

  /** A kernel map: physical memory, CR3, the kernel address of its PML4, and the limits of the physical map. */
  datatype Pmap = Pmap(mem: seq<nat>, cr3: nat, pml4: nat, physmapBase: nat, physmapMax: nat)

  /** Reading an entry through a pointer goes through the very tables that are being walked. */
  function Load(m: Pmap, va: nat): Option<nat> {
    match HardwareWalk(m.mem, m.cr3, va)
    case Some(at) => Some(Entry(m.mem, at.phys, 0))
    case None => None
  }

  /** Whatever the tables hold, address and physical address agree within a page. */
  lemma WalkKeepsOffset(mem: seq<nat>, cr3: nat, v: nat)
    ensures match HardwareWalk(mem, cr3, v) case Some(m) => m.phys % PAGE == v % PAGE case None => true
  {
    hide Canonical, IsValid, IsLarge, Entry, Pml4Index, PdptIndex, PdIndex, PtIndex, IsWritable, IsNoExecute;
    if HardwareWalk(mem, cr3, v).Some? {
      var e3 := Entry(mem, Frame(Entry(mem, cr3, Pml4Index(v))), PdptIndex(v));
      if IsLarge(e3) {
        WholePages(Frame(e3) / GB * (GB / PAGE), v % GB);
        WholePages(v / GB * (GB / PAGE), v % GB);
      } else {
        var e2 := Entry(mem, Frame(e3), PdIndex(v));
        if IsLarge(e2) {
          WholePages(Frame(e2) / MB2 * (MB2 / PAGE), v % MB2);
          WholePages(v / MB2 * (MB2 / PAGE), v % MB2);
        } else {
          var e1 := Entry(mem, Frame(e2), PtIndex(v));
          WholePages(e1 / PAGE % 0x100_0000_0000, v % PAGE);
        }
      }
    }
  }

  /** The two upper levels bind pages of every size: no writing without their right, no execution against their bit. */
  lemma UpperLevelsBind(mem: seq<nat>, cr3: nat, v: nat)
    ensures var e4 := Entry(mem, cr3, Pml4Index(v)); var e3 := Entry(mem, Frame(e4), PdptIndex(v));
      match HardwareWalk(mem, cr3, v)
      case Some(m) =>
        && IsValid(e4) && IsValid(e3)
        && (m.writable ==> IsWritable(e4) && IsWritable(e3))
        && (IsNoExecute(e4) || IsNoExecute(e3) ==> m.noExecute)
      case None => true
  {
    hide Canonical, IsValid, IsLarge, Entry, Frame, Pml4Index, PdptIndex, PdIndex, PtIndex, IsWritable, IsNoExecute;
  }

  /** A large page of the third level is a gigabyte, and lies where its entry says. */
  lemma GigabytePage(mem: seq<nat>, cr3: nat, v: nat)
    requires var e3 := Entry(mem, Frame(Entry(mem, cr3, Pml4Index(v))), PdptIndex(v)); IsLarge(e3)
    ensures match HardwareWalk(mem, cr3, v)
      case Some(m) =>
        var e3 := Entry(mem, Frame(Entry(mem, cr3, Pml4Index(v))), PdptIndex(v));
        m.phys / GB == Frame(e3) / GB && m.phys % GB == v % GB
      case None => true
  {
    hide Canonical, IsValid, IsLarge, Entry, Frame, Pml4Index, PdptIndex, PdIndex, PtIndex, IsWritable, IsNoExecute;
    var e3 := Entry(mem, Frame(Entry(mem, cr3, Pml4Index(v))), PdptIndex(v));
    Gigabytes(Frame(e3) / GB, v % GB);
  }

  lemma WholePages(q: nat, x: nat)
    ensures (q * PAGE + x) % PAGE == x % PAGE
  {
  }

  function PhysmapPtov(m: Pmap, paddr: nat): Pointer {
    var pvaddr := (paddr + m.physmapBase) % UINT64;
    if pvaddr >= m.physmapMax then Panic else At(pvaddr)
  }

  /** `&table[i]` for the table at physical address `frame`. */
  function EntryPointer(m: Pmap, frame: nat, i: nat): Pointer {
    match PhysmapPtov(m, frame)
    case At(va) => At(va + 8 * i)
    case other => other
  }

  function Pmap64Pml4(m: Pmap, v: nat): Pointer {
    if v > 0x7FFF_FFFF_FFFF && v < 0xFFFF_8000_0000_0000 then Null else At(m.pml4 + 8 * Pml4Index(v))
  }

  /** NULL from the first level stands for the addresses that are not canonical. */
  lemma Pml4NullIff(m: Pmap, v: nat)
    requires v < UINT64
    ensures Pmap64Pml4(m, v) == Null <==> !Canonical(v)
  {
  }

  /** The step that the other levels share: follow the pointer, and if the entry is valid, into the next table. */
  function NextLevel(m: Pmap, p: Pointer, i: nat): Pointer {
    if !p.At? then p
    else
      match Load(m, p.va)
      case None => Fault
      case Some(e) => if IsValid(e) then EntryPointer(m, Frame(e), i) else Null
  }

  function Pmap64Pdpt(m: Pmap, v: nat): Pointer {
    NextLevel(m, Pmap64Pml4(m, v), PdptIndex(v))
  }

  function Pmap64Pde(m: Pmap, v: nat): Pointer {
    NextLevel(m, Pmap64Pdpt(m, v), PdIndex(v))
  }

  function PmapPte(m: Pmap, v: nat): Pointer {
    var pde := Pmap64Pde(m, v);
    if !pde.At? then pde
    else
      match Load(m, pde.va)
      case None => Fault
      case Some(e) =>
        if !IsValid(e) then Null
        else if IsLarge(e) then pde
        else EntryPointer(m, Frame(e), PtIndex(v))
  }
}
