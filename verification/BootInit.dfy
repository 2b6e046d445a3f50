/** Building the kernel's page tables in memory (Kernel/Kernel/i386/i386_init.c).  The methods run on the boot page
    tables, which map the top 512 GB onto low physical memory: a pointer VM_MIN + p reaches physical address p. */
module BootInit {
  import opened Common
  import opened PageTables
  import opened BootTables

  class Boot {
    // physical memory as 64-bit words
    const mem: array<nat>
    var physfree: nat
    var kptPhys: nat
    var idlePtd: nat
    var idlePdpt: nat
    var idlePml4: nat
    var physmapBase: nat
    var physmapMax: nat

    constructor (mem: array<nat>, physfree: nat)
      ensures this.mem == mem && this.physfree == physfree
    {
      this.mem, this.physfree := mem, physfree;
    }

    /** ALLOCPAGES: zeroed pages from the bump pointer, by their kernel address. */
    method AllocPages(npages: nat) returns (va: nat)
      requires physfree % PAGE == 0 && physfree + npages * PAGE <= 8 * mem.Length
      modifies this`physfree, mem
      ensures va == old(physfree) + VM_MIN && physfree == old(physfree) + npages * PAGE
      ensures forall w :: 0 <= w < mem.Length ==>
                mem[w] == if old(physfree) / 8 <= w < physfree / 8 then 0 else old(mem[w])
    {
      var tmp := physfree;
      for i := 0 to npages * 512
        modifies mem
        invariant forall w :: 0 <= w < mem.Length ==> mem[w] == if tmp / 8 <= w < tmp / 8 + i then 0 else old(mem[w])
      {
        mem[tmp / 8 + i] := 0;
      }
      physfree := physfree + npages * PAGE;
      va := tmp + VM_MIN;
    }

    /** Consecutive entries for consecutive pages. */
    method FillKpt(base: nat, prot: nat, src: nat, index: nat, count: nat)
      requires VM_MIN <= base < VM_MIN + UINT32 && Vtop(base) / 8 + index + count <= mem.Length
      modifies mem
      ensures Consecutive(old(mem[..]), mem[..], Vtop(base) / 8 + index, count, src, prot)
    {
      var s, k, first := src, index, Vtop(base) / 8 + index;
      for i := 0 to count
        invariant s == src + i * PAGE && k == index + i
        invariant forall w :: 0 <= w < mem.Length ==>
          mem[w] == if first <= w < first + i then Pte(src + (w - first) * PAGE, prot + VALID, false) else old(mem[w])
      {
        hide Pte;
        mem[Vtop(base) / 8 + k] := Pte(s, prot + VALID, false);
        s := s + PAGE;
        k := k + 1;
      }
    }

    /** The physical map: one level-3 table, NPHYSMAP level-2 tables of 2 MB pages. */
    method PhysmapInit(random: nat)
      requires random < 256 && physfree % PAGE == 0 && physfree + (1 + NPHYSMAP) * PAGE <= 8 * mem.Length
      requires physfree + (1 + NPHYSMAP) * PAGE < UINT32
      requires VM_MIN <= idlePml4 < VM_MIN + UINT32 && Vtop(idlePml4) + PAGE <= physfree
      modifies this`physfree, this`physmapBase, this`physmapMax, mem
      ensures physmapBase == KvAddr(PHYSMAP_PML4, random) && physmapMax == physmapBase + NPHYSMAP * GB
      ensures physfree == old(physfree) + (1 + NPHYSMAP) * PAGE
      ensures forall w :: 0 <= w < physfree / 8 ==>
                mem[w] == if w == Vtop(idlePml4) / 8 + PHYSMAP_PML4 then Pte(old(physfree), VALID + WRITE, true)
                          else if w < old(physfree) / 8 then old(mem[w])
                          else PhysmapWord(old(physfree), random, NPHYSMAP, w)
    {
      hide Pte, PhysmapWord;
      var l3 := physfree;
      var physmapL3 := AllocPages(1);
      var physmapL2 := AllocPages(NPHYSMAP);
      assert Vtop(physmapL3) == l3 && Vtop(physmapL2) == l3 + PAGE;
      NoPhysmapWord(l3, random);
      FillPhysmap(physmapL3, physmapL2, random);
      mem[Vtop(idlePml4) / 8 + PHYSMAP_PML4] := Pte(Vtop(physmapL3), VALID + WRITE, true);
      physmapBase := KvAddr(PHYSMAP_PML4, random);
      physmapMax := physmapBase + NPHYSMAP * GB;
    }

    /** The outer loop of `physmap_init`. */
    method FillPhysmap(physmapL3: nat, physmapL2: nat, random: nat)
      requires random < 256 && Vtop(physmapL2) == Vtop(physmapL3) + PAGE
      requires Vtop(physmapL3) + (1 + NPHYSMAP) * PAGE < UINT32
      requires PhysmapFilled(mem[..], mem[..], Vtop(physmapL3), random, 0)
      modifies mem
      ensures PhysmapFilled(old(mem[..]), mem[..], Vtop(physmapL3), random, NPHYSMAP)
    {
      hide PhysmapFilled;
      for i := 0 to NPHYSMAP
        invariant PhysmapFilled(old(mem[..]), mem[..], Vtop(physmapL3), random, i)
      {
        FillGigabyte(physmapL3, physmapL2, random, i, old(mem[..]));
      }
    }

    /** One turn of it: the level-3 entry and the level-2 table of gigabyte `i`. */
    method FillGigabyte(physmapL3: nat, physmapL2: nat, random: nat, i: nat, ghost before: seq<nat>)
      requires random < 256 && i < NPHYSMAP && Vtop(physmapL2) == Vtop(physmapL3) + PAGE
      requires Vtop(physmapL3) + (1 + NPHYSMAP) * PAGE < UINT32
      requires PhysmapFilled(before, mem[..], Vtop(physmapL3), random, i)
      modifies mem
      ensures PhysmapFilled(before, mem[..], Vtop(physmapL3), random, i + 1)
    {
      ghost var l3, was := Vtop(physmapL3), mem[..];
      assert Vtop(physmapL2 + i * PAGE) == l3 + PAGE + i * PAGE;
      hide Pte, PhysmapWord, PhysmapFilled, Vtop;
      FilledFits(before, was, l3, random, i);
      mem[Vtop(physmapL3) / 8 + i + random] := Pte(Vtop(physmapL2 + i * PAGE), VALID + WRITE, true);
      FillLargePages(Vtop(physmapL2), i);
      NextGigabyte(before, was, mem[..], l3, random, i);
    }

    /** Word `w` of the level-3 and level-2 tables from `l3` on, when the first `n` gigabytes are entered. */
    static function PhysmapWord(l3: nat, random: nat, n: nat, w: nat): nat
      requires w >= l3 / 8
    {
      var i, k := w - l3 / 8, w - l3 / 8 - 512;
      if i < 512 then
        if random <= i < random + n then Pte(l3 + PAGE + (i - random) * PAGE, VALID + WRITE, true) else 0
      else if k < n * 512 then Pte(k * MB2, LARGE + VALID + WRITE, true)
      else 0
    }

    static lemma NoPhysmapWord(l3: nat, random: nat)
      ensures forall w :: w >= l3 / 8 ==> PhysmapWord(l3, random, 0, w) == 0
    {
    }

    static lemma NextPhysmapWord(l3: nat, random: nat, n: nat, w: nat)
      requires random + n < 512 && w >= l3 / 8
      ensures PhysmapWord(l3, random, n + 1, w) ==
        if w == l3 / 8 + random + n then Pte(l3 + PAGE + n * PAGE, VALID + WRITE, true)
        else if (l3 + PAGE) / 8 + n * 512 <= w < (l3 + PAGE) / 8 + n * 512 + 512
        then Pte((w - (l3 + PAGE) / 8) * MB2, LARGE + VALID + WRITE, true)
        else PhysmapWord(l3, random, n, w)
    {
    }

    /** The inner loop of `physmap_init`: one level-2 table. */
    method FillLargePages(l2: nat, i: nat)
      requires l2 % PAGE == 0 && l2 / 8 + (i + 1) * 512 <= mem.Length
      modifies mem
      ensures var first := l2 / 8 + i * 512;
        forall w :: 0 <= w < mem.Length ==>
          mem[w] == if first <= w < first + 512 then Pte((w - l2 / 8) * MB2, LARGE + VALID + WRITE, true)
                    else old(mem[w])
    {
      var first := l2 / 8 + i * 512;
      for j := 0 to 512
        invariant forall w :: 0 <= w < mem.Length ==>
          mem[w] == if first <= w < first + j then Pte((w - l2 / 8) * MB2, LARGE + VALID + WRITE, true) else old(mem[w])
      {
        mem[first + j] := Pte((i * 512 + j) * MB2, LARGE + VALID + WRITE, true);
      }
    }

    /** The fixed aliases of the descriptor tables. */
    method DescriptorAliasInit(masterGdt: nat, masterIdt64: nat)
      requires VM_MIN <= kptPhys < VM_MIN + UINT32 && Vtop(kptPhys) / 8 + 2 <= mem.Length
      modifies mem
      ensures var kpt := Vtop(kptPhys) / 8;
        forall w :: 0 <= w < mem.Length ==>
          mem[w] == if w == kpt then Pte(Vtop(masterIdt64), VALID, true)
                    else if w == kpt + 1 then Pte(Vtop(masterGdt), VALID + WRITE, true)
                    else old(mem[w])
    {
      var gdtAlias, idtAlias := Vtop(VM_MIN + 0x1000), Vtop(VM_MIN + 0x0000);
      mem[Vtop(kptPhys) / 8 + gdtAlias / PAGE] := Pte(Vtop(masterGdt), VALID + WRITE, true);
      mem[Vtop(kptPhys) / 8 + idtAlias / PAGE] := Pte(Vtop(masterIdt64), VALID, true);
    }

    /** Word `w` of the four kernel tables before the physical map and the aliases are added. */
    static function KernelWord(l: Layout, w: nat): nat
      requires l.Valid() && l.start / 8 <= w < l.mapped / 8
    {
      if w < l.ptd / 8 then
        (var i := w - l.kpt / 8; if i < l.mapped / PAGE then Pte(i * PAGE, WRITE + VALID, false) else 0)
      else if w < l.pdpt / 8 then PtdEntry(l, w - l.ptd / 8)
      else if w < l.pml4 / 8 then PdptEntry(l, w - l.pdpt / 8)
      else if w - l.pml4 / 8 == KERNEL_PML4 then Pte(l.pdpt, WRITE + VALID, false)
      else 0
    }

    ghost predicate Allocated(l: Layout)
      reads this
    {
      && l.Valid() && l.end <= 8 * mem.Length
      && kptPhys == VM_MIN + l.kpt && idlePtd == VM_MIN + l.ptd
      && idlePdpt == VM_MIN + l.pdpt && idlePml4 == VM_MIN + l.pml4
    }

    method AllocTables(ghost l: Layout)
      requires l.Valid() && l.end <= 8 * mem.Length && physfree == l.start
      modifies this, mem
      ensures Allocated(l) && physfree == l.mapped
      ensures forall w :: l.start / 8 <= w < l.mapped / 8 ==> mem[w] == 0
    {
      kptPhys := AllocPages(NKPT);
      idlePtd := AllocPages(NPGPTD);
      idlePdpt := AllocPages(1);
      idlePml4 := AllocPages(1);
    }

    method FillTables(ghost l: Layout)
      requires Allocated(l) && physfree == l.mapped
      requires forall w :: l.start / 8 <= w < l.mapped / 8 ==> mem[w] == 0
      modifies mem
      ensures forall w :: l.start / 8 <= w < l.mapped / 8 ==> mem[w] == KernelWord(l, w)
    {
      hide Pte, KernelWord, Consecutive;
      TableWords(l);
      ghost var m0 := mem[..];
      FillKpt(kptPhys, WRITE, 0, 0, physfree / PAGE);
      ghost var m1 := mem[..];
      FillKpt(idlePtd, WRITE, Vtop(kptPhys), 0, NKPT);
      ghost var m2 := mem[..];
      FillKpt(idlePdpt, WRITE, Vtop(idlePtd), 0, NPGPTD);
      ghost var m3 := mem[..];
      FillKpt(idlePml4 + 8 * KERNEL_PML4, WRITE, Vtop(idlePdpt), 0, 1);
      KernelTablesFilled(l, m0, m1, m2, m3, mem[..]);
    }

    /** `random` is the seed whose low byte places the physical map in its level-3 table. */
    method IdlePtsInit(random: nat, masterGdt: nat, masterIdt64: nat)
      requires Layout(physfree, random % 256, Vtop(masterGdt), Vtop(masterIdt64)).Valid()
      requires Layout(physfree, random % 256, Vtop(masterGdt), Vtop(masterIdt64)).end <= 8 * mem.Length
      modifies this, mem
      ensures var l := Layout(old(physfree), random % 256, Vtop(masterGdt), Vtop(masterIdt64));
        && Built(mem[..], l) && physfree == l.end
        && idlePml4 == VM_MIN + l.pml4 && physmapBase == PhysmapBase(l) && physmapMax == PhysmapMax(l)
    {
      hide Pte, KernelWord, PhysmapWord;
      ghost var l := Layout(physfree, random % 256, Vtop(masterGdt), Vtop(masterIdt64));
      AllocTables(l);
      FillTables(l);
      TableWords(l);
      assert Vtop(kptPhys) == l.kpt && Vtop(idlePml4) == l.pml4;
      PhysmapInit(random % 256);
      DescriptorAliasInit(masterGdt, masterIdt64);
      AllTablesBuilt(mem[..], l);
    }
  }

  /** `count` words from `first` on now hold entries for consecutive pages from `src` on; no other word has changed. */
  ghost predicate Consecutive(was: seq<nat>, now: seq<nat>, first: nat, count: nat, src: nat, prot: nat) {
    |now| == |was| && forall w :: 0 <= w < |now| ==>
      now[w] == if first <= w < first + count then Pte(src + (w - first) * PAGE, prot + VALID, false) else was[w]
  }

  /** The physical map's tables from `l3` on hold the first `n` gigabytes; what comes before them is as in `before`. */
  ghost predicate PhysmapFilled(before: seq<nat>, now: seq<nat>, l3: nat, random: nat, n: nat) {
    && l3 % PAGE == 0 && l3 + (1 + NPHYSMAP) * PAGE <= 8 * |now| && |before| == |now|
    && forall w :: 0 <= w < (l3 + (1 + NPHYSMAP) * PAGE) / 8 ==>
      now[w] == if w < l3 / 8 then before[w] else Boot.PhysmapWord(l3, random, n, w)
  }

  lemma FilledFits(before: seq<nat>, now: seq<nat>, l3: nat, random: nat, n: nat)
    requires PhysmapFilled(before, now, l3, random, n)
    ensures l3 % PAGE == 0 && l3 + (1 + NPHYSMAP) * PAGE <= 8 * |now|
  {
  }

  lemma NextGigabyte(before: seq<nat>, was: seq<nat>, now: seq<nat>, l3: nat, random: nat, i: nat)
    requires PhysmapFilled(before, was, l3, random, i) && |now| == |was| && random < 256 && i < NPHYSMAP
    requires var first := (l3 + PAGE) / 8 + i * 512;
      forall w :: 0 <= w < |now| ==>
        now[w] == if first <= w < first + 512 then Pte((w - (l3 + PAGE) / 8) * MB2, LARGE + VALID + WRITE, true)
                  else if w == l3 / 8 + i + random then Pte(l3 + PAGE + i * PAGE, VALID + WRITE, true)
                  else was[w]
    ensures PhysmapFilled(before, now, l3, random, i + 1)
  {
    hide Pte, Boot.PhysmapWord;
    forall w | 0 <= w < (l3 + (1 + NPHYSMAP) * PAGE) / 8
      ensures now[w] == if w < l3 / 8 then before[w] else Boot.PhysmapWord(l3, random, i + 1, w)
    {
      if w >= l3 / 8 {
        Boot.NextPhysmapWord(l3, random, i, w);
      }
    }
  }

  /** The tables follow each other without gaps. */
  lemma TableWords(l: Layout)
    requires l.Valid()
    ensures l.mapped / PAGE <= NKPT * 512 && l.start / 8 == l.kpt / 8
    ensures l.ptd / 8 == l.kpt / 8 + NKPT * 512 && l.pdpt / 8 == l.ptd / 8 + NPGPTD * 512
    ensures l.pml4 / 8 == l.pdpt / 8 + 512 && l.mapped / 8 == l.pml4 / 8 + 512
    ensures Vtop(VM_MIN + l.kpt) == l.kpt && Vtop(VM_MIN + l.ptd) == l.ptd
    ensures Vtop(VM_MIN + l.pdpt) == l.pdpt && Vtop(VM_MIN + l.pml4 + 8 * KERNEL_PML4) / 8 == l.pml4 / 8 + KERNEL_PML4
  {
  }

  lemma KernelWordIs(l: Layout, w: nat)
    requires l.Valid() && l.start / 8 <= w < l.mapped / 8
    ensures var k := l.kpt / 8;
      Boot.KernelWord(l, w) ==
        if w < k + l.mapped / PAGE then Pte(0 + (w - k) * PAGE, WRITE + VALID, false)
        else if l.ptd / 8 <= w < l.ptd / 8 + NKPT then Pte(l.kpt + (w - l.ptd / 8) * PAGE, WRITE + VALID, false)
        else if l.pdpt / 8 <= w < l.pdpt / 8 + NPGPTD then Pte(l.ptd + (w - l.pdpt / 8) * PAGE, WRITE + VALID, false)
        else if w == l.pml4 / 8 + KERNEL_PML4 then Pte(l.pdpt, WRITE + VALID, false)
        else 0
  {
    hide Pte;
    TableWords(l);
  }

  /** The four fillings, one after the other, leave the kernel's tables. */
  lemma KernelTablesFilled(l: Layout, m0: seq<nat>, m1: seq<nat>, m2: seq<nat>, m3: seq<nat>, m4: seq<nat>)
    requires l.Valid() && l.end <= 8 * |m0| && forall w :: l.start / 8 <= w < l.mapped / 8 ==> m0[w] == 0
    requires Consecutive(m0, m1, l.kpt / 8, l.mapped / PAGE, 0, WRITE)
    requires Consecutive(m1, m2, l.ptd / 8, NKPT, l.kpt, WRITE)
    requires Consecutive(m2, m3, l.pdpt / 8, NPGPTD, l.ptd, WRITE)
    requires Consecutive(m3, m4, l.pml4 / 8 + KERNEL_PML4, 1, l.pdpt, WRITE)
    ensures |m4| == |m0| && forall w :: l.start / 8 <= w < l.mapped / 8 ==> m4[w] == Boot.KernelWord(l, w)
  {
    hide Pte, Boot.KernelWord;
    forall w | l.start / 8 <= w < l.mapped / 8 ensures m4[w] == Boot.KernelWord(l, w) {
      KernelWordIs(l, w);
    }
  }

  /** Word `w` of the finished tables. */
  function FinalWord(l: Layout, w: nat): nat
    requires l.Valid() && l.start / 8 <= w < l.end / 8
  {
    if w == l.kpt / 8 then Pte(l.idt, VALID, true)
    else if w == l.kpt / 8 + 1 then Pte(l.gdt, VALID + WRITE, true)
    else if w == l.pml4 / 8 + PHYSMAP_PML4 then Pte(l.l3, VALID + WRITE, true)
    else if w < l.mapped / 8 then Boot.KernelWord(l, w)
    else Boot.PhysmapWord(l.l3, l.random, NPHYSMAP, w)
  }

  lemma AllTablesBuilt(mem: seq<nat>, l: Layout)
    requires l.Valid() && l.end / 8 <= |mem|
    requires forall w :: l.start / 8 <= w < l.end / 8 ==> mem[w] == FinalWord(l, w)
    ensures Built(mem, l)
  {
    hide FinalWord, TableWord;
    forall t ensures HasTable(mem, l, t) {
      forall i | 0 <= i < Words(t) ensures mem[Base(l, t) / 8 + i] == TableWord(l, t, i) {
        FinalWordOf(l, t, i);
      }
    }
  }

  lemma FinalWordOf(l: Layout, t: Table, i: nat)
    requires l.Valid() && i < Words(t)
    ensures var w := Base(l, t) / 8 + i; l.start / 8 <= w < l.end / 8 && FinalWord(l, w) == TableWord(l, t, i)
  {
    hide Pte;
  }
}
