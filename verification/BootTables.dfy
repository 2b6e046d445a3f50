/** The page tables that the kernel builds for itself at boot (Kernel/Kernel/i386/i386_init.c). */
module BootTables {
  import opened Common
  import opened PageTables

  const VM_MIN := 0xFFFF_FF80_0000_0000
  const NKPT := 500
  const NPGPTD := 4
  const NPHYSMAP := 256
  const KERNEL_PML4 := 511
  const PHYSMAP_PML4 := 509

  /** ID_MAP_VTOP: the low 32 bits of an address. */
  function Vtop(va: nat): nat {
    va % UINT32
  }

  /** Where the tables lie, given where free memory starts, and what they alias. */
  datatype Layout = Layout(start: nat, random: nat, gdt: nat, idt: nat)
  {
    const kpt := start
    const ptd := start + NKPT * PAGE
    const pdpt := ptd + NPGPTD * PAGE
    const pml4 := pdpt + PAGE
    const mapped := pml4 + PAGE
    const l3 := mapped
    const l2 := l3 + PAGE
    const end := l2 + NPHYSMAP * PAGE

    /** The kernel lies above the two alias pages, everything fits what the level-1 tables can map, the
        descriptor tables are page-aligned. */
    ghost predicate Valid() {
      && start % PAGE == 0 && 2 * PAGE <= start && mapped <= NKPT * MB2
      && random < 256 && gdt % PAGE == 0 && idt % PAGE == 0 && gdt < UINT32 && idt < UINT32
    }
  }

  // What each table holds at index `i`; KPTphys and IdlePTD and the level-2 physmap span several pages.

  function KernelEntry(l: Layout, i: nat): nat {
    if i == 0 then Pte(l.idt, VALID, true)
    else if i == 1 then Pte(l.gdt, VALID + WRITE, true)
    else if i < l.mapped / PAGE then Pte(i * PAGE, VALID + WRITE, false)
    else 0
  }

  function PtdEntry(l: Layout, i: nat): nat {
    if i < NKPT then Pte(l.kpt + i * PAGE, VALID + WRITE, false) else 0
  }

  function PdptEntry(l: Layout, i: nat): nat {
    if i < NPGPTD then Pte(l.ptd + i * PAGE, VALID + WRITE, false) else 0
  }

  function Pml4Entry(l: Layout, i: nat): nat {
    if i == KERNEL_PML4 then Pte(l.pdpt, VALID + WRITE, false)
    else if i == PHYSMAP_PML4 then Pte(l.l3, VALID + WRITE, true)
    else 0
  }

  function L3Entry(l: Layout, i: nat): nat {
    if l.random <= i < l.random + NPHYSMAP then Pte(l.l2 + (i - l.random) * PAGE, VALID + WRITE, true) else 0
  }

  function L2Entry(l: Layout, i: nat): nat {
    Pte(i * MB2, LARGE + VALID + WRITE, true)
  }

  datatype Table = KPTphys | IdlePTD | IdlePDPT | IdlePML4 | PhysmapL3 | PhysmapL2

  function Base(l: Layout, t: Table): (b: nat)
    ensures l.Valid() ==> b % PAGE == 0
  {
    match t
    case KPTphys => l.kpt
    case IdlePTD => l.ptd
    case IdlePDPT => l.pdpt
    case IdlePML4 => l.pml4
    case PhysmapL3 => l.l3
    case PhysmapL2 => l.l2
  }

  /** Size in 64-bit words. */
  function Words(t: Table): nat {
    match t
    case KPTphys => NKPT * 512
    case IdlePTD => NPGPTD * 512
    case PhysmapL2 => NPHYSMAP * 512
    case _ => 512
  }

  function TableWord(l: Layout, t: Table, i: nat): nat {
    match t
    case KPTphys => KernelEntry(l, i)
    case IdlePTD => PtdEntry(l, i)
    case IdlePDPT => PdptEntry(l, i)
    case IdlePML4 => Pml4Entry(l, i)
    case PhysmapL3 => L3Entry(l, i)
    case PhysmapL2 => L2Entry(l, i)
  }

  ghost predicate HasTable(mem: seq<nat>, l: Layout, t: Table) {
    && Base(l, t) / 8 + Words(t) <= |mem|
    && forall i {:trigger TableWord(l, t, i)} :: 0 <= i < Words(t) ==> mem[Base(l, t) / 8 + i] == TableWord(l, t, i)
  }

  /** All six tables are in place. */
  ghost predicate Built(mem: seq<nat>, l: Layout) {
    forall t :: HasTable(mem, l, t)
  }

  // ---------- what the tables mean ----------

  function PhysmapBase(l: Layout): nat {
    KvAddr(PHYSMAP_PML4, l.random)
  }

  function PhysmapMax(l: Layout): nat {
    PhysmapBase(l) + NPHYSMAP * GB
  }

  predicate InPhysmap(l: Layout, v: nat) {
    PhysmapBase(l) <= v < PhysmapMax(l)
  }

  predicate InKernel(v: nat) {
    VM_MIN <= v < VM_MIN + NKPT * MB2
  }

  /** The kernel's own part of the map, by offset from VM_MIN: identity, except for the two alias pages. */
  function KernelMapping(l: Layout, x: nat): Option<Mapping> {
    var page := x / PAGE;
    if page == 0 then Some(Mapping(l.idt + x % PAGE, false, true))
    else if page == 1 then Some(Mapping(l.gdt + x % PAGE, true, true))
    else if page < l.mapped / PAGE then Some(Mapping(x, true, false))
    else None
  }

  /** The intended map, for every 64-bit address. */
  function Intended(l: Layout, v: nat): Option<Mapping> {
    if InPhysmap(l, v) then Some(Mapping(v - PhysmapBase(l), true, true))
    else if v >= VM_MIN then KernelMapping(l, v - VM_MIN)
    else None
  }

  /** The entry found at index `i` of page number `k` of a table. */
  lemma EntryFound(mem: seq<nat>, l: Layout, t: Table, k: nat, i: nat)
    requires l.Valid() && Built(mem, l) && i < 512 && k * 512 + i < Words(t)
    ensures Entry(mem, Base(l, t) + k * PAGE, i) == TableWord(l, t, k * 512 + i)
  {
    assert HasTable(mem, l, t);
    assert (Base(l, t) + k * PAGE) / 8 + i == Base(l, t) / 8 + (k * 512 + i);
  }

  lemma PhysmapSlot(mem: seq<nat>, l: Layout, x: nat)
    requires l.Valid() && Built(mem, l) && x < GB512
    ensures HardwareWalk(mem, l.pml4, KvAddr(PHYSMAP_PML4, 0) + x) ==
      if l.random * GB <= x < (l.random + NPHYSMAP) * GB then Some(Mapping(x - l.random * GB, true, true)) else None
  {
    SlotIndices(PHYSMAP_PML4, x);
    PhysmapDirectory(mem, l, x / GB);
    SlotRange(l.random, x);
    if l.random <= x / GB < l.random + NPHYSMAP {
      PhysmapLevel2(mem, l, x);
    }
  }

  lemma PhysmapLevel2(mem: seq<nat>, l: Layout, x: nat)
    requires l.Valid() && Built(mem, l) && l.random <= x / GB < l.random + NPHYSMAP
    ensures var e2 := Entry(mem, l.l2 + (x / GB - l.random) * PAGE, x / MB2 % 512);
      && IsValid(e2) && IsLarge(e2) && IsWritable(e2)
      && Frame(e2) / MB2 * MB2 + x % MB2 == x - l.random * GB
  {
    hide Built, Entry;
    var g, j := x / GB - l.random, x / MB2 % 512;
    EntryFound(mem, l, PhysmapL2, g, j);
    PteFields((g * 512 + j) * MB2, LARGE + VALID + WRITE, true);
    PhysmapFrame(l.random, x);
  }

  lemma PhysmapDirectory(mem: seq<nat>, l: Layout, i: nat)
    requires l.Valid() && Built(mem, l) && i < 512
    ensures var e4 := Entry(mem, l.pml4, PHYSMAP_PML4); var e3 := Entry(mem, Frame(e4), i);
      && IsValid(e4) && IsWritable(e4) && IsNoExecute(e4)
      && (IsValid(e3) <==> l.random <= i < l.random + NPHYSMAP)
      && (IsValid(e3) ==> IsWritable(e3) && !IsLarge(e3) && Frame(e3) == l.l2 + (i - l.random) * PAGE)
  {
    EntryFound(mem, l, IdlePML4, 0, PHYSMAP_PML4);
    EntryFound(mem, l, PhysmapL3, 0, i);
    TableEntry(l.l3, true);
    if l.random <= i < l.random + NPHYSMAP {
      TableEntry(l.l2 + (i - l.random) * PAGE, true);
    }
  }

  lemma PhysmapFrame(random: nat, x: nat)
    requires random * GB <= x < (random + NPHYSMAP) * GB
    ensures var frame := ((x / GB - random) * 512 + x / MB2 % 512) * MB2;
      frame / MB2 * MB2 == frame && x - random * GB == frame + x % MB2
    ensures random <= x / GB < random + NPHYSMAP
  {
    DirectoryIndex(x);
  }

  lemma KernelSlot(mem: seq<nat>, l: Layout, x: nat)
    requires l.Valid() && Built(mem, l) && x < GB512
    ensures HardwareWalk(mem, l.pml4, VM_MIN + x) == KernelMapping(l, x)
  {
    assert KvAddr(KERNEL_PML4, 0) == VM_MIN;
    SlotIndices(KERNEL_PML4, x);
    KernelDirectory(mem, l, x / GB);
    if x / GB < NPGPTD {
      KernelLevel2(mem, l, x);
      if x / MB2 < NKPT {
        KernelLevel1(mem, l, x);
      }
    }
  }

  lemma KernelLevel2(mem: seq<nat>, l: Layout, x: nat)
    requires l.Valid() && Built(mem, l) && x / GB < NPGPTD
    ensures var e2 := Entry(mem, l.ptd + x / GB * PAGE, x / MB2 % 512);
      && (IsValid(e2) <==> x / MB2 < NKPT)
      && (x / MB2 < NKPT ==> IsWritable(e2) && !IsNoExecute(e2) && !IsLarge(e2) && Frame(e2) == l.kpt + x / MB2 * PAGE)
  {
    var i, j := x / GB, x / MB2;
    assert i * 512 + j % 512 == j;
    EntryFound(mem, l, IdlePTD, i, j % 512);
    if j < NKPT {
      TableEntry(l.kpt + j * PAGE, false);
    }
  }

  lemma KernelLevel1(mem: seq<nat>, l: Layout, x: nat)
    requires l.Valid() && Built(mem, l) && x / MB2 < NKPT
    ensures Entry(mem, l.kpt + x / MB2 * PAGE, x / PAGE % 512) == KernelEntry(l, x / PAGE)
    ensures var e1, k := KernelEntry(l, x / PAGE), x / PAGE;
      if k == 0 then IsValid(e1) && !IsWritable(e1) && IsNoExecute(e1) && Frame(e1) == l.idt
      else if k == 1 then IsValid(e1) && IsWritable(e1) && IsNoExecute(e1) && Frame(e1) == l.gdt
      else if k < l.mapped / PAGE then
        IsValid(e1) && IsWritable(e1) && !IsNoExecute(e1) && Frame(e1) + x % PAGE == x
      else !IsValid(e1)
  {
    var j, k := x / MB2, x / PAGE;
    assert j * 512 + k % 512 == k;
    EntryFound(mem, l, KPTphys, j, k % 512);
    LastLevel(l, k);
  }

  lemma KernelDirectory(mem: seq<nat>, l: Layout, i: nat)
    requires l.Valid() && Built(mem, l) && i < 512
    ensures var e4 := Entry(mem, l.pml4, KERNEL_PML4); var e3 := Entry(mem, Frame(e4), i);
      && IsValid(e4) && IsWritable(e4) && !IsNoExecute(e4)
      && (IsValid(e3) <==> i < NPGPTD)
      && (i < NPGPTD ==> IsWritable(e3) && !IsNoExecute(e3) && !IsLarge(e3) && Frame(e3) == l.ptd + i * PAGE)
  {
    hide Frame, IsLarge, IsWritable, IsNoExecute, Entry, Built, Pte;
    EntryFound(mem, l, IdlePML4, 0, KERNEL_PML4);
    EntryFound(mem, l, IdlePDPT, 0, i);
    TableEntry(l.pdpt, false);
    if i < NPGPTD {
      assert l.ptd % PAGE == 0;
      TableEntry(l.ptd + i * PAGE, false);
    }
  }

  lemma LastLevel(l: Layout, k: nat)
    requires l.Valid()
    ensures var e := KernelEntry(l, k);
      if k == 0 then IsValid(e) && !IsWritable(e) && IsNoExecute(e) && Frame(e) == l.idt
      else if k == 1 then IsValid(e) && IsWritable(e) && IsNoExecute(e) && Frame(e) == l.gdt
      else if k < l.mapped / PAGE then IsValid(e) && IsWritable(e) && !IsNoExecute(e) && Frame(e) == k * PAGE
      else !IsValid(e)
  {
    PteFields(l.idt, VALID, true);
    TableEntry(l.gdt, true);
    if k < l.mapped / PAGE {
      TableEntry(k * PAGE, false);
    }
  }

  /** Walking the tables gives the intended map, whatever the address. */
  lemma WalkIsIntended(mem: seq<nat>, l: Layout, v: nat)
    requires l.Valid() && Built(mem, l) && v < UINT64
    ensures HardwareWalk(mem, l.pml4, v) == Intended(l, v)
  {
    if v >= VM_MIN {
      KernelSlot(mem, l, v - VM_MIN);
    } else if KvAddr(PHYSMAP_PML4, 0) <= v < KvAddr(PHYSMAP_PML4 + 1, 0) {
      PhysmapSlot(mem, l, v - KvAddr(PHYSMAP_PML4, 0));
    } else {
      assert Canonical(v) ==> Pml4Index(v) != KERNEL_PML4 && Pml4Index(v) != PHYSMAP_PML4;
      EntryFound(mem, l, IdlePML4, 0, Pml4Index(v));
    }
  }

  // ---------- the kernel's own walk over these tables ----------

  function KernelPmap(mem: seq<nat>, l: Layout): Pmap {
    Pmap(mem, l.pml4, VM_MIN + l.pml4, PhysmapBase(l), PhysmapMax(l))
  }

  /** A table below NPHYSMAP GB can be read through the physical map: no panic, no fault, and the right word. */
  lemma ReadThroughPhysmap(mem: seq<nat>, l: Layout, frame: nat, i: nat)
    requires l.Valid() && Built(mem, l) && frame % PAGE == 0 && frame < NPHYSMAP * GB && i < 512
    ensures var m := KernelPmap(mem, l);
      && EntryPointer(m, frame, i) == At(PhysmapBase(l) + frame + 8 * i)
      && Load(m, PhysmapBase(l) + frame + 8 * i) == Some(Entry(mem, frame, i))
  {
    hide HardwareWalk, Frame, IsValid, IsLarge;
    var pa := frame + 8 * i;
    assert pa < NPHYSMAP * GB && pa / 8 == frame / 8 + i;
    PhysmapSlot(mem, l, l.random * GB + pa);
  }

  /** Exactly the tables beyond that end in the panic. */
  lemma PhysmapPanicIff(mem: seq<nat>, l: Layout, frame: nat)
    requires l.Valid() && frame + PhysmapBase(l) < UINT64
    ensures PhysmapPtov(KernelPmap(mem, l), frame) == Panic <==> frame >= NPHYSMAP * GB
  {
  }

  lemma ReadPml4(mem: seq<nat>, l: Layout, i: nat)
    requires l.Valid() && Built(mem, l) && i < 512
    ensures Load(KernelPmap(mem, l), VM_MIN + l.pml4 + 8 * i) == Some(Entry(mem, l.pml4, i))
  {
    KernelSlot(mem, l, l.pml4 + 8 * i);
    assert 2 <= (l.pml4 + 8 * i) / PAGE < l.mapped / PAGE;
    assert (l.pml4 + 8 * i) / 8 == l.pml4 / 8 + i;
  }

  // Offsets of an entry in a table that spans several pages.

  lemma EntryOffsets(x: nat)
    ensures x / MB2 * PAGE + 8 * (x / PAGE % 512) == x / PAGE * 8
  {
  }

  lemma DirectoryOffsets(random: nat, x: nat)
    requires random <= x / GB
    ensures (x / GB - random) * PAGE + 8 * (x / MB2 % 512) == (x - random * GB) / MB2 * 8
  {
    DirectoryIndex(x);
    Megabytes(random * 512, x - random * GB);
    assert random * 512 * MB2 + (x - random * GB) == x;
  }

  lemma DirectoryIndex(x: nat)
    ensures x / MB2 == x / GB * 512 + x / MB2 % 512
  {
    var g, r := x / GB, x % GB;
    assert x == g * 512 * MB2 + r;
    Megabytes(g * 512, r);
    Tables(g, r / MB2);
  }

  lemma SlotRange(random: nat, x: nat)
    ensures random <= x / GB < random + NPHYSMAP <==> random * GB <= x < (random + NPHYSMAP) * GB
  {
  }

  /** Where the kernel finds the entry for an address: a level-2 entry in the physical map, a level-1 entry in the
      kernel's range, and NULL everywhere else. */
  function EntryAddress(l: Layout, v: nat): Pointer {
    if InPhysmap(l, v) then At(PhysmapBase(l) + l.l2 + (v - PhysmapBase(l)) / MB2 * 8)
    else if InKernel(v) then At(PhysmapBase(l) + l.kpt + (v - VM_MIN) / PAGE * 8)
    else Null
  }

  /** One step of the lookup, from an entry that has been read to the entry at index `i` of the next table. */
  lemma Follow(mem: seq<nat>, l: Layout, va: nat, e: nat, i: nat)
    requires l.Valid() && Built(mem, l) && i < 512 && Load(KernelPmap(mem, l), va) == Some(e)
    requires IsValid(e) ==> Frame(e) % PAGE == 0 && Frame(e) < NPHYSMAP * GB
    ensures var m := KernelPmap(mem, l); var p := PhysmapBase(l) + Frame(e) + 8 * i;
      && NextLevel(m, At(va), i) == (if IsValid(e) then At(p) else Null)
      && (IsValid(e) ==> EntryPointer(m, Frame(e), i) == At(p) && Load(m, p) == Some(Entry(mem, Frame(e), i)))
  {
    hide HardwareWalk, Load, Frame, IsLarge, IsValid, IsWritable, IsNoExecute, Built, Entry, Canonical;
    if IsValid(e) {
      ReadThroughPhysmap(mem, l, Frame(e), i);
    }
  }

  lemma PteOfKernel(mem: seq<nat>, l: Layout, x: nat)
    requires l.Valid() && Built(mem, l) && x < GB512
    ensures PmapPte(KernelPmap(mem, l), VM_MIN + x) == EntryAddress(l, VM_MIN + x)
  {
    hide HardwareWalk, Load, Frame, IsLarge, IsValid, IsWritable, IsNoExecute, Built, Entry, Canonical;
    var m, v := KernelPmap(mem, l), VM_MIN + x;
    assert KvAddr(KERNEL_PML4, 0) == VM_MIN;
    SlotIndices(KERNEL_PML4, x);
    KernelPde(mem, l, x);
    DirectoryIndex(x);
    if x / GB < NPGPTD {
      var e2 := Entry(mem, l.ptd + x / GB * PAGE, x / MB2 % 512);
      KernelLevel2(mem, l, x);
      Follow(mem, l, PhysmapBase(l) + l.ptd + x / GB * PAGE + 8 * (x / MB2 % 512), e2, x / PAGE % 512);
      EntryOffsets(x);
    }
  }

  lemma KernelPde(mem: seq<nat>, l: Layout, x: nat)
    requires l.Valid() && Built(mem, l) && x < GB512
    ensures var m := KernelPmap(mem, l); var p := PhysmapBase(l) + l.ptd + x / GB * PAGE + 8 * (x / MB2 % 512);
      && Pmap64Pde(m, VM_MIN + x) == (if x / GB < NPGPTD then At(p) else Null)
      && (x / GB < NPGPTD ==> Load(m, p) == Some(Entry(mem, l.ptd + x / GB * PAGE, x / MB2 % 512)))
  {
    hide HardwareWalk, Load, Frame, IsLarge, IsValid, IsWritable, IsNoExecute, Built, Entry, Canonical;
    assert KvAddr(KERNEL_PML4, 0) == VM_MIN;
    SlotIndices(KERNEL_PML4, x);
    KernelDirectory(mem, l, x / GB);
    EntryFound(mem, l, IdlePML4, 0, KERNEL_PML4);
    TableEntry(l.pdpt, false);
    ReadPml4(mem, l, KERNEL_PML4);
    Follow(mem, l, VM_MIN + l.pml4 + 8 * KERNEL_PML4, Entry(mem, l.pml4, KERNEL_PML4), x / GB);
    Follow(mem, l, PhysmapBase(l) + l.pdpt + 8 * (x / GB), Entry(mem, l.pdpt, x / GB), x / MB2 % 512);
  }

  lemma PteOfPhysmap(mem: seq<nat>, l: Layout, x: nat)
    requires l.Valid() && Built(mem, l) && x < GB512
    ensures var v := KvAddr(PHYSMAP_PML4, 0) + x; PmapPte(KernelPmap(mem, l), v) == EntryAddress(l, v)
  {
    hide HardwareWalk, Load, Frame, IsLarge, IsValid, IsWritable, IsNoExecute, Built, Entry, Canonical;
    PhysmapPde(mem, l, x);
    SlotRange(l.random, x);
    if l.random <= x / GB < l.random + NPHYSMAP {
      PhysmapLevel2(mem, l, x);
      DirectoryOffsets(l.random, x);
    }
  }

  lemma PhysmapPde(mem: seq<nat>, l: Layout, x: nat)
    requires l.Valid() && Built(mem, l) && x < GB512
    ensures var m, i := KernelPmap(mem, l), x / GB;
      if l.random <= i < l.random + NPHYSMAP then
        var p := PhysmapBase(l) + l.l2 + (i - l.random) * PAGE + 8 * (x / MB2 % 512);
        && Pmap64Pde(m, KvAddr(PHYSMAP_PML4, 0) + x) == At(p)
        && Load(m, p) == Some(Entry(mem, l.l2 + (i - l.random) * PAGE, x / MB2 % 512))
      else Pmap64Pde(m, KvAddr(PHYSMAP_PML4, 0) + x) == Null
  {
    hide HardwareWalk, Load, Frame, IsLarge, IsValid, IsWritable, IsNoExecute, Built, Entry, Canonical;
    SlotIndices(PHYSMAP_PML4, x);
    PhysmapDirectory(mem, l, x / GB);
    EntryFound(mem, l, IdlePML4, 0, PHYSMAP_PML4);
    TableEntry(l.l3, true);
    ReadPml4(mem, l, PHYSMAP_PML4);
    Follow(mem, l, VM_MIN + l.pml4 + 8 * PHYSMAP_PML4, Entry(mem, l.pml4, PHYSMAP_PML4), x / GB);
    Follow(mem, l, PhysmapBase(l) + l.l3 + 8 * (x / GB), Entry(mem, l.l3, x / GB), x / MB2 % 512);
  }

  /** `pmap_pte` never panics or faults on these tables, and finds exactly the entries listed. */
  lemma PteFound(mem: seq<nat>, l: Layout, v: nat)
    requires l.Valid() && Built(mem, l) && v < UINT64
    ensures PmapPte(KernelPmap(mem, l), v) == EntryAddress(l, v)
  {
    hide HardwareWalk, Load, Frame, IsLarge;
    if v >= VM_MIN {
      PteOfKernel(mem, l, v - VM_MIN);
    } else if KvAddr(PHYSMAP_PML4, 0) <= v < KvAddr(PHYSMAP_PML4 + 1, 0) {
      PteOfPhysmap(mem, l, v - KvAddr(PHYSMAP_PML4, 0));
    } else if Canonical(v) {
      assert Pml4Index(v) != KERNEL_PML4 && Pml4Index(v) != PHYSMAP_PML4;
      EntryFound(mem, l, IdlePML4, 0, Pml4Index(v));
      ReadPml4(mem, l, Pml4Index(v));
    }
  }

  /** NULL stands for exactly the unmapped addresses, except for the pages behind the kernel's tables up to the end of
      the NKPT level-1 tables: they have a zero entry, and its address is returned. */
  lemma NullIsUnmappedIff(mem: seq<nat>, l: Layout, v: nat)
    requires l.Valid() && Built(mem, l) && v < UINT64
    ensures (PmapPte(KernelPmap(mem, l), v) == Null <==> HardwareWalk(mem, l.pml4, v) == None)
      <==> !(VM_MIN + l.mapped <= v < VM_MIN + NKPT * MB2)
  {
    hide HardwareWalk, PmapPte, Built;
    PteFound(mem, l, v);
    WalkIsIntended(mem, l, v);
    assert l.mapped % PAGE == 0;
  }

  /** The first of them: unless the kernel's tables end where the level-1 tables do, the page behind them is unmapped
      and yet has an entry. */
  lemma FirstZeroEntry(mem: seq<nat>, l: Layout)
    requires l.Valid() && Built(mem, l) && l.mapped < NKPT * MB2
    ensures HardwareWalk(mem, l.pml4, VM_MIN + l.mapped) == None
    ensures PmapPte(KernelPmap(mem, l), VM_MIN + l.mapped) == At(PhysmapBase(l) + l.kpt + l.mapped / PAGE * 8)
  {
    hide HardwareWalk, PmapPte, Built;
    PteFound(mem, l, VM_MIN + l.mapped);
    WalkIsIntended(mem, l, VM_MIN + l.mapped);
  }

  /** The entry that `pmap_pte` points at decides like the processor. */
  lemma PteAgreesWithHardware(mem: seq<nat>, l: Layout, v: nat)
    requires l.Valid() && Built(mem, l) && v < UINT64
    ensures var m, hardware := KernelPmap(mem, l), HardwareWalk(mem, l.pml4, v);
      match PmapPte(m, v)
      case Null => hardware == None && !InPhysmap(l, v) && !InKernel(v)
      case At(p) =>
        && (InPhysmap(l, v) || InKernel(v)) && Load(m, p).Some?
        && var e := Load(m, p).value;
        && (IsValid(e) <==> hardware.Some?)
        && (hardware.Some? ==> hardware.value.phys == PhysOf(l, e, v))
      case _ => false
  {
    hide HardwareWalk, Load, Frame, IsLarge, IsValid, PmapPte;
    PteFound(mem, l, v);
    WalkIsIntended(mem, l, v);
    if InPhysmap(l, v) {
      PhysmapEntryRead(mem, l, v - KvAddr(PHYSMAP_PML4, 0));
    } else if InKernel(v) {
      KernelEntryRead(mem, l, v - VM_MIN);
    }
  }

  /** The physical address that an entry found by `pmap_pte` stands for. */
  function PhysOf(l: Layout, e: nat, v: nat): nat {
    if InPhysmap(l, v) then Frame(e) / MB2 * MB2 + v % MB2 else Frame(e) + v % PAGE
  }

  lemma PhysmapEntryRead(mem: seq<nat>, l: Layout, x: nat)
    requires l.Valid() && Built(mem, l) && l.random <= x / GB < l.random + NPHYSMAP
    ensures var v := KvAddr(PHYSMAP_PML4, 0) + x;
      var read := Load(KernelPmap(mem, l), PhysmapBase(l) + l.l2 + (v - PhysmapBase(l)) / MB2 * 8);
      read.Some? && IsValid(read.value) && PhysOf(l, read.value, v) == v - PhysmapBase(l)
  {
    hide HardwareWalk, Load, Frame, IsLarge, IsValid, IsWritable, IsNoExecute, Built, Entry, Canonical;
    SlotIndices(PHYSMAP_PML4, x);
    PhysmapLevel2(mem, l, x);
    ReadThroughPhysmap(mem, l, l.l2 + (x / GB - l.random) * PAGE, x / MB2 % 512);
    DirectoryOffsets(l.random, x);
  }

  lemma KernelEntryRead(mem: seq<nat>, l: Layout, x: nat)
    requires l.Valid() && Built(mem, l) && x / MB2 < NKPT
    ensures var read, to := Load(KernelPmap(mem, l), PhysmapBase(l) + l.kpt + x / PAGE * 8), KernelMapping(l, x);
      && read.Some? && (IsValid(read.value) <==> to.Some?)
      && (to.Some? ==> PhysOf(l, read.value, VM_MIN + x) == to.value.phys)
  {
    hide HardwareWalk, Load, Frame, IsLarge, IsValid, IsWritable, IsNoExecute, Built, Entry, Canonical;
    assert KvAddr(KERNEL_PML4, 0) == VM_MIN;
    SlotIndices(KERNEL_PML4, x);
    KernelLevel1(mem, l, x);
    ReadThroughPhysmap(mem, l, l.kpt + x / MB2 * PAGE, x / PAGE % 512);
    EntryOffsets(x);
  }
}
