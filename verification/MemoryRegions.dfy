/** The table of physical memory regions that the kernel derives from the firmware's memory map
    (Kernel/Kernel/i386/i386_vm_init.c), as a value.  `VmInit` builds it in place.

    Pages are numbered; page numbers are 32-bit.  Region bounds are inclusive. */
module MemoryRegions {
  import opened Common

  const LOWMEM_RESERVED := 3
  const MAX_REGIONS := 128
  const MAX_RESERVED_RANGES := 32

  // the firmware's types of usable memory (Kernel/Platform/platform/boot.h)
  const LOADER_CODE := 1
  const LOADER_DATA := 2
  const BOOT_SERVICES_CODE := 3
  const BOOT_SERVICES_DATA := 4
  const CONVENTIONAL := 7

  /** A firmware memory descriptor (EfiMemoryRange). */
  datatype EfiRange = EfiRange(kind: nat, physicalStart: nat, numberOfPages: nat, attribute: nat)

  /** EFI_MEMORY_RUNTIME, bit 63. */
  predicate IsRuntime(attribute: nat) {
    attribute / 0x8000_0000_0000_0000 % 2 == 1
  }

  /** EFI_MEMORY_KERN_RESERVED, bit 59. */
  predicate IsReserved(attribute: nat) {
    attribute / 0x800_0000_0000_0000 % 2 == 1
  }

  /** The two attribute bits, whatever the others are. */
  lemma AttributeBits(runtime: nat, middle: nat, reserved: nat, low: nat)
    requires runtime < 2 && middle < 8 && reserved < 2 && low < 0x800_0000_0000_0000
    ensures var attribute := runtime * 0x8000_0000_0000_0000 + middle * 0x1000_0000_0000_0000
                             + reserved * 0x800_0000_0000_0000 + low;
      (IsRuntime(attribute) <==> runtime == 1) && (IsReserved(attribute) <==> reserved == 1)
  {
    var attribute := runtime * 0x8000_0000_0000_0000 + middle * 0x1000_0000_0000_0000
                     + reserved * 0x800_0000_0000_0000 + low;
    assert attribute / 0x8000_0000_0000_0000 == runtime;
    assert attribute / 0x800_0000_0000_0000 == runtime * 16 + middle * 2 + reserved;
  }

  /** Loader, boot-services and conventional memory are consolidated into one type. */
  function RegionKind(kind: nat): nat {
    if kind in {1, 2, 3, 4, 7} then CONVENTIONAL else kind
  }

  /** One region (pmap_memory_region_t): pages below `allocUp` or above `allocDown` have been taken. */
  datatype Region = Region(base: nat, end: nat, allocUp: nat, allocDown: nat, kind: nat, attribute: nat)

  // ---------- one firmware range ----------

  /** First and last page of a range in 32 bits, the very first and the very last page left out; None if that
      leaves nothing. */
  function Clip(r: EfiRange): (c: Option<(nat, nat)>)
    ensures c.Some? ==> 1 <= c.value.0 <= c.value.1 < UINT32 - 1
  {
    var first := r.physicalStart / PAGE % UINT32;
    var last := (r.physicalStart / PAGE + r.numberOfPages + UINT64 - 1) % UINT32;
    var base := if first == 0 then 1 else first;
    var top := if last == UINT32 - 1 then last - 1 else last;
    if top < base then None else Some((base, top))
  }

  /** For a range that is not empty and lies in 32-bit page numbers, clipping keeps exactly its pages other than
      page 0 and page 2^32 - 1. */
  lemma ClipKeepsPages(r: EfiRange, p: nat)
    requires r.numberOfPages > 0 && r.physicalStart / PAGE + r.numberOfPages <= UINT32
    ensures (exists c :: Clip(r) == Some(c) && c.0 <= p <= c.1) <==>
            r.physicalStart / PAGE <= p < r.physicalStart / PAGE + r.numberOfPages && p != 0 && p != UINT32 - 1
  {
    var first := r.physicalStart / PAGE;
    assert first % UINT32 == first;
    assert first + r.numberOfPages + UINT64 - 1 == 0x1_0000_0000 * UINT32 + (first + r.numberOfPages - 1);
    if Clip(r).Some? {
      assert Clip(r) == Some(Clip(r).value);
    }
  }

  /** An empty range is dropped, unless it starts on page 0: there the subtraction wraps round and the range is
      taken for the whole of memory. */
  lemma EmptyRange(r: EfiRange)
    requires r.numberOfPages == 0 && r.physicalStart / PAGE < UINT32
    ensures Clip(r) == if r.physicalStart < PAGE then Some((1, UINT32 - 2)) else None
  {
    var first := r.physicalStart / PAGE;
    if first > 0 {
      assert first + UINT64 - 1 == 0x1_0000_0000 * UINT32 + (first - 1);
    }
  }

  /** The pages of a range that end up in the table at all. */
  function Pages(r: EfiRange): (c: Option<(nat, nat)>)
    ensures c.Some? ==> 1 <= c.value.0 <= c.value.1 < UINT32 - 1 && c.value.1 >= LOWMEM_RESERVED
  {
    if IsRuntime(r.attribute) || RegionKind(r.kind) != CONVENTIONAL then None
    else if Clip(r).Some? && Clip(r).value.1 < LOWMEM_RESERVED then None
    else Clip(r)
  }

  // ---------- the table ----------

  /** The regions found so far; `prev` is the region that the next one may be merged into. */
  datatype Table = Table(regions: seq<Region>, prev: Option<nat>, reservedRanges: nat, reservedIndices: seq<nat>,
                         availEnd: nat, availRemaining: nat)

  const EMPTY := Table([], None, 0, [], 0, 0)

  /** A region of a range, with all of `up`..`down` free. */
  function Piece(r: EfiRange, base: nat, end: nat, up: nat, down: nat): Region {
    Region(base, end, up, down, CONVENTIONAL, r.attribute)
  }

  predicate Mergeable(prev: Region, g: Region) {
    && g.kind == prev.kind
    && g.attribute == prev.attribute && !IsReserved(g.attribute)
    && g.base == g.allocUp && prev.end == prev.allocDown && g.base == prev.end + 1
  }

  /** Accounts for a new region, and merges or appends it. */
  function Place(t: Table, g: Region): (p: Table)
    requires (t.prev.Some? ==> t.prev.value < |t.regions|) && g.base <= g.end
    ensures p.prev.Some? && p.prev.value < |p.regions|
  {
    var counted := t.(availEnd := if g.end * PAGE > t.availEnd then g.end * PAGE else t.availEnd,
                      availRemaining := t.availRemaining + (g.end - g.base));
    if t.prev.Some? && Mergeable(t.regions[t.prev.value], g) then
      var k := t.prev.value;
      counted.(regions := t.regions[k := t.regions[k].(end := g.end, allocDown := g.allocDown)])
    else counted.(regions := t.regions + [g], prev := Some(|t.regions|))
  }

  function Index(t: Table): Table {
    t.(reservedIndices := t.reservedIndices + [|t.regions|])
  }

  /** A range wholly below the first available page: taken already, unless reserved and below the kernel. */
  function AddLow(t: Table, r: EfiRange, kernelBase: nat): Table
    requires Pages(r).Some? && (t.prev.Some? ==> t.prev.value < |t.regions|)
  {
    var (base, top) := Pages(r).value;
    var low := if base >= LOWMEM_RESERVED then base else LOWMEM_RESERVED;
    if IsReserved(r.attribute) && top < kernelBase then Place(Index(t), Piece(r, low, top, low, top))
    else Place(t, Piece(r, low, top, top + 1, top))
  }

  /** A range around the first available page: two regions, the first one taken already. */
  function AddSplit(t: Table, r: EfiRange, fap: nat): Table
    requires Spans(r, fap) && (t.prev.Some? ==> t.prev.value < |t.regions|)
  {
    var (base, top) := Pages(r).value;
    var v := t.(regions := t.regions + [Piece(r, base, fap - 1, fap, fap - 1)]);
    Place(if IsReserved(r.attribute) then Index(v) else v, Piece(r, fap, top, fap, top))
  }

  function AddWhole(t: Table, r: EfiRange): Table
    requires Pages(r).Some? && (t.prev.Some? ==> t.prev.value < |t.regions|)
  {
    var (base, top) := Pages(r).value;
    Place(if IsReserved(r.attribute) then Index(t) else t, Piece(r, base, top, base, top))
  }

  predicate Spans(r: EfiRange, fap: nat) {
    Pages(r).Some? && Pages(r).value.0 < fap < Pages(r).value.1
  }

  function CountReserved(t: Table, r: EfiRange): Table {
    if IsReserved(r.attribute) then t.(reservedRanges := t.reservedRanges + 1) else t
  }

  /** What one firmware range does to the table; None is the panic on too many reserved ranges. */
  function Step(t: Table, r: EfiRange, fap: nat, kernelBase: nat): (n: Option<Table>)
    requires t.prev.Some? ==> t.prev.value < |t.regions|
    ensures n.Some? && n.value.prev.Some? ==> n.value.prev.value < |n.value.regions|
  {
    if Clip(r).None? then Some(t)
    else if Pages(r).None? then Some(t.(prev := None))
    else
      var u := CountReserved(t, r);
      if u.reservedRanges > MAX_RESERVED_RANGES then None
      else if Pages(r).value.1 < fap then Some(AddLow(u, r, kernelBase))
      else if Spans(r, fap) then Some(AddSplit(u, r, fap))
      else Some(AddWhole(u, r))
  }

  /** The whole loop; it stops early when the table is full. */
  function Build(rs: seq<EfiRange>, fap: nat, kernelBase: nat): (t: Option<Table>)
    ensures t.Some? && t.value.prev.Some? ==> t.value.prev.value < |t.value.regions|
  {
    if rs == [] then Some(EMPTY)
    else
      var before := Build(rs[..|rs| - 1], fap, kernelBase);
      if before.None? || |before.value.regions| >= MAX_REGIONS then before
      else Step(before.value, rs[|rs| - 1], fap, kernelBase)
  }

  // ---------- what the table means ----------

  /** Page `p` is there to be allocated. */
  ghost predicate IsFree(rs: seq<Region>, p: nat) {
    exists j :: 0 <= j < |rs| && RegionFree(rs[j], p)
  }

  predicate RegionFree(g: Region, p: nat) {
    g.allocUp <= p <= g.allocDown
  }

  /** What one range contributes, as the code has it. */
  predicate CodeFree(r: EfiRange, fap: nat, kernelBase: nat, p: nat) {
    Pages(r).Some? &&
    var (base, top) := Pages(r).value;
    if top < fap then
      IsReserved(r.attribute) && top < kernelBase && base <= p <= top && LOWMEM_RESERVED <= p
    else if base < fap && top > fap then fap <= p <= top
    else base <= p <= top
  }

  /** Memory that the kernel may use once it runs. */
  predicate Usable(r: EfiRange) {
    && !IsRuntime(r.attribute)
    && r.kind in {LOADER_CODE, LOADER_DATA, BOOT_SERVICES_CODE, BOOT_SERVICES_DATA, CONVENTIONAL}
  }

  /** The code's consolidation of types finds exactly the usable ones. */
  lemma UsableIff(r: EfiRange)
    ensures Usable(r) <==> !IsRuntime(r.attribute) && RegionKind(r.kind) == CONVENTIONAL
  {
  }

  /** The first page of a range. */
  function Start(r: EfiRange): nat {
    r.physicalStart / PAGE
  }

  /** The last page of a range that can be given out: page 2^32 - 1 never is. */
  function Last(r: EfiRange): int {
    var last := Start(r) + r.numberOfPages - 1;
    if last == UINT32 - 1 then last - 1 else last
  }

  /** Page `p` is one of the range's own pages, other than page 0 and page 2^32 - 1. */
  predicate Contains(r: EfiRange, p: nat) {
    Start(r) <= p < Start(r) + r.numberOfPages && p != 0 && p != UINT32 - 1
  }

  /** What a range should contribute: its pages from the first available page on, and the low pages of a range
      reserved for the kernel that lies wholly below both the first available page and the kernel. */
  predicate IntendedFree(r: EfiRange, fap: nat, kernelBase: nat, p: nat) {
    && Usable(r) && Contains(r, p)
    && (p >= fap || (IsReserved(r.attribute) && Last(r) < fap && Last(r) < kernelBase && p >= LOWMEM_RESERVED))
  }

  /** A range whose page numbers all fit into 32 bits. */
  predicate Fits(r: EfiRange) {
    Start(r) + r.numberOfPages <= UINT32
  }

  /** A range that starts below the first available page and ends exactly on it. */
  predicate EndsOnFirstAvailable(r: EfiRange, fap: nat) {
    Start(r) < fap == Last(r)
  }

  /** An unusable range; or one that is empty and does not start on a multiple of 2^32 pages; or one in 32-bit page
      numbers that does not start below the first available page and end on it. */
  predicate Sound(r: EfiRange, fap: nat) {
    Usable(r) ==>
      if r.numberOfPages == 0 then Start(r) % UINT32 != 0 else Fits(r) && !EndsOnFirstAvailable(r, fap)
  }

  /** Clipping keeps the pages of a usable range in 32-bit page numbers, unless it lies below page 3. */
  lemma PagesOfRange(r: EfiRange, p: nat)
    requires Usable(r) && r.numberOfPages > 0 && Fits(r)
    ensures Pages(r).Some? ==>
              && Pages(r).value == (if Start(r) == 0 then 1 else Start(r), Last(r))
              && (Contains(r, p) <==> Pages(r).value.0 <= p <= Pages(r).value.1)
    ensures Pages(r).None? && Contains(r, p) ==> p <= Last(r) < LOWMEM_RESERVED
  {
    hide Clip, Start, IsRuntime, RegionKind, Usable;
    UsableIff(r);
    ClipOfRange(r);
  }

  lemma ClipOfRange(r: EfiRange)
    requires r.numberOfPages > 0 && Fits(r)
    ensures var base := if Start(r) == 0 then 1 else Start(r);
      Clip(r) == if Last(r) < base then None else Some((base, Last(r)))
  {
    var first := Start(r);
    assert first % UINT32 == first;
    assert first + r.numberOfPages + UINT64 - 1 == 0x1_0000_0000 * UINT32 + (first + r.numberOfPages - 1);
  }

  /** An empty usable range has no pages, or all of memory when it starts on a multiple of 2^32 pages. */
  lemma PagesOfEmpty(r: EfiRange)
    requires Usable(r) && r.numberOfPages == 0
    ensures Pages(r) == if Start(r) % UINT32 == 0 then Some((1, UINT32 - 2)) else None
  {
    var first := Start(r) % UINT32;
    assert (Start(r) + UINT64 - 1) % UINT32 == if first == 0 then UINT32 - 1 else first - 1;
  }

  /** A range gives out what it should, for every page, exactly when it is sound. */
  lemma ContributionIsIntendedIff(r: EfiRange, fap: nat, kernelBase: nat)
    requires LOWMEM_RESERVED <= fap < UINT32 - 1
    ensures (forall p :: CodeFree(r, fap, kernelBase, p) <==> IntendedFree(r, fap, kernelBase, p)) <==> Sound(r, fap)
  {
    if !Usable(r) {
    } else if r.numberOfPages == 0 {
      PagesOfEmpty(r);
      assert Start(r) % UINT32 == 0 ==>
          CodeFree(r, fap, kernelBase, UINT32 - 2) && !IntendedFree(r, fap, kernelBase, UINT32 - 2);
    } else if !Fits(r) {
      var p := Start(r) + r.numberOfPages - 1;
      assert !CodeFree(r, fap, kernelBase, p) && IntendedFree(r, fap, kernelBase, p);
    } else {
      FittingContribution(r, fap, kernelBase);
    }
  }

  lemma FittingContribution(r: EfiRange, fap: nat, kernelBase: nat)
    requires LOWMEM_RESERVED <= fap < UINT32 - 1 && Usable(r) && r.numberOfPages > 0 && Fits(r)
    ensures (forall p :: CodeFree(r, fap, kernelBase, p) <==> IntendedFree(r, fap, kernelBase, p))
            <==> !EndsOnFirstAvailable(r, fap)
  {
    hide Pages, Usable;
    if EndsOnFirstAvailable(r, fap) {
      ExposedPage(r, fap, kernelBase);
    } else {
      forall p ensures CodeFree(r, fap, kernelBase, p) <==> IntendedFree(r, fap, kernelBase, p) {
        PagesOfRange(r, p);
      }
    }
  }

  /** The first page of a range that ends on the first available page is given out, and should not be. */
  lemma ExposedPage(r: EfiRange, fap: nat, kernelBase: nat)
    requires LOWMEM_RESERVED <= fap < UINT32 - 1 && Usable(r) && r.numberOfPages > 0 && Fits(r)
    requires EndsOnFirstAvailable(r, fap)
    ensures Pages(r).Some? && Pages(r).value.0 < fap
    ensures CodeFree(r, fap, kernelBase, Pages(r).value.0) && !IntendedFree(r, fap, kernelBase, Pages(r).value.0)
  {
    assert Contains(r, fap);
    PagesOfRange(r, fap);
  }

  predicate RegionOk(g: Region) {
    g.base <= g.end && g.base <= g.allocUp <= g.allocDown + 1 && g.allocDown == g.end
  }

  /** Sorted, disjoint, non-empty regions; merging is only ever considered with the last one; every recorded index
      is that of a reserved region. */
  ghost predicate TableInv(t: Table) {
    && (forall j :: 0 <= j < |t.regions| ==> RegionOk(t.regions[j]))
    && (forall i, j :: 0 <= i < j < |t.regions| ==> t.regions[i].end < t.regions[j].base)
    && (t.prev.Some? ==> t.prev.value + 1 == |t.regions|)
    && (forall k :: 0 <= k < |t.reservedIndices| ==>
          t.reservedIndices[k] < |t.regions| && IsReserved(t.regions[t.reservedIndices[k]].attribute))
    && |t.reservedIndices| <= t.reservedRanges <= MAX_RESERVED_RANGES
  }

  ghost predicate EndsBelow(t: Table, b: nat) {
    forall j :: 0 <= j < |t.regions| ==> t.regions[j].end < b
  }

  /** Ranges whose usable pages come in ascending order and do not overlap. */
  ghost predicate Ascending(rs: seq<EfiRange>) {
    forall i, j :: 0 <= i < j < |rs| && Pages(rs[i]).Some? && Pages(rs[j]).Some? ==>
      Pages(rs[i]).value.1 < Pages(rs[j]).value.0
  }

  /** Placing a region behind all others keeps the table in order and frees exactly its free pages. */
  lemma PlaceKeepsInv(t: Table, g: Region, b: nat)
    requires (forall j :: 0 <= j < |t.regions| ==> RegionOk(t.regions[j]) && t.regions[j].end < g.base)
    requires forall i, j :: 0 <= i < j < |t.regions| ==> t.regions[i].end < t.regions[j].base
    requires t.prev.Some? ==> t.prev.value < |t.regions|
    requires t.prev.Some? && t.prev.value + 1 != |t.regions| ==> t.regions[t.prev.value].end + 1 < g.base
    requires RegionOk(g) && g.end < b && EndsBelow(t, b)
    requires |t.reservedIndices| <= t.reservedRanges <= MAX_RESERVED_RANGES
    requires forall k :: 0 <= k < |t.reservedIndices| ==>
      if t.reservedIndices[k] < |t.regions| then IsReserved(t.regions[t.reservedIndices[k]].attribute)
      else t.reservedIndices[k] == |t.regions| && IsReserved(g.attribute)
    ensures TableInv(Place(t, g)) && EndsBelow(Place(t, g), b)
    ensures forall p :: IsFree(Place(t, g).regions, p) <==> IsFree(t.regions, p) || RegionFree(g, p)
  {
    var n := Place(t, g);
    if t.prev.Some? && Mergeable(t.regions[t.prev.value], g) {
      var k := t.prev.value;
      forall p ensures IsFree(n.regions, p) <==> IsFree(t.regions, p) || RegionFree(g, p) {
        assert RegionFree(n.regions[k], p) <==> RegionFree(t.regions[k], p) || RegionFree(g, p);
        assert forall j :: 0 <= j < |t.regions| && j != k ==> n.regions[j] == t.regions[j];
        if IsFree(t.regions, p) {
          var j :| 0 <= j < |t.regions| && RegionFree(t.regions[j], p);
          assert RegionFree(n.regions[j], p);
        }
      }
    } else {
      forall p ensures IsFree(n.regions, p) <==> IsFree(t.regions, p) || RegionFree(g, p) {
        Appended(t.regions, g, p);
      }
    }
  }

  lemma Appended(rs: seq<Region>, g: Region, p: nat)
    ensures IsFree(rs + [g], p) <==> IsFree(rs, p) || RegionFree(g, p)
  {
    if IsFree(rs, p) {
      var j :| 0 <= j < |rs| && RegionFree(rs[j], p);
      assert RegionFree((rs + [g])[j], p);
    }
    if RegionFree(g, p) {
      assert RegionFree((rs + [g])[|rs|], p);
    }
  }

  /** `n` is `t` with the pages of `r` added, all in order and below `b`. */
  ghost predicate Added(t: Table, n: Table, r: EfiRange, fap: nat, kernelBase: nat, b: nat) {
    && TableInv(n) && EndsBelow(n, b)
    && forall p :: IsFree(n.regions, p) <==> IsFree(t.regions, p) || CodeFree(r, fap, kernelBase, p)
  }

  /** A table ready for range `r`, which lies behind it and below `b`. */
  ghost predicate Ready(u: Table, r: EfiRange, b: nat) {
    && TableInv(u) && Pages(r).Some? && EndsBelow(u, Pages(r).value.0) && Pages(r).value.1 < b
    && (IsReserved(r.attribute) ==> |u.reservedIndices| + 1 <= u.reservedRanges)
  }

  lemma LowKeepsInv(u: Table, r: EfiRange, fap: nat, kernelBase: nat, b: nat)
    requires Ready(u, r, b) && Pages(r).value.1 < fap
    ensures Added(u, AddLow(u, r, kernelBase), r, fap, kernelBase, b)
  {
    hide Clip, Place, IsFree;
    var (base, top) := Pages(r).value;
    var low := if base >= LOWMEM_RESERVED then base else LOWMEM_RESERVED;
    assert top >= LOWMEM_RESERVED;
    if IsReserved(r.attribute) && top < kernelBase {
      PlaceKeepsInv(Index(u), Piece(r, low, top, low, top), b);
    } else {
      PlaceKeepsInv(u, Piece(r, low, top, top + 1, top), b);
    }
  }

  lemma SplitKeepsInv(u: Table, r: EfiRange, fap: nat, kernelBase: nat, b: nat)
    requires Ready(u, r, b) && Spans(r, fap)
    ensures Added(u, AddSplit(u, r, fap), r, fap, kernelBase, b)
  {
    hide Clip, Place, IsFree;
    var (base, top) := Pages(r).value;
    var half := Piece(r, base, fap - 1, fap, fap - 1);
    var v := u.(regions := u.regions + [half]);
    var w := if IsReserved(r.attribute) then Index(v) else v;
    PlaceKeepsInv(w, Piece(r, fap, top, fap, top), b);
    forall p ensures IsFree(v.regions, p) <==> IsFree(u.regions, p) {
      Appended(u.regions, half, p);
    }
  }

  lemma WholeKeepsInv(u: Table, r: EfiRange, fap: nat, kernelBase: nat, b: nat)
    requires Ready(u, r, b) && Pages(r).value.1 >= fap && !Spans(r, fap)
    ensures Added(u, AddWhole(u, r), r, fap, kernelBase, b)
  {
    hide Clip, Place, IsFree;
    var (base, top) := Pages(r).value;
    PlaceKeepsInv(if IsReserved(r.attribute) then Index(u) else u, Piece(r, base, top, base, top), b);
  }

  /** A range behind the table so far: the table stays in order, and the pages that become free are the range's. */
  lemma StepKeepsInv(t: Table, r: EfiRange, fap: nat, kernelBase: nat, b: nat)
    requires TableInv(t) && Step(t, r, fap, kernelBase).Some?
    requires if Pages(r).Some? then EndsBelow(t, Pages(r).value.0) && Pages(r).value.1 < b else EndsBelow(t, b)
    ensures Added(t, Step(t, r, fap, kernelBase).value, r, fap, kernelBase, b)
  {
    hide AddLow, AddSplit, AddWhole, IsFree;
    if Clip(r).Some? && Pages(r).Some? {
      var u := CountReserved(t, r);
      if Pages(r).value.1 < fap {
        LowKeepsInv(u, r, fap, kernelBase, b);
      } else if Spans(r, fap) {
        SplitKeepsInv(u, r, fap, kernelBase, b);
      } else {
        WholeKeepsInv(u, r, fap, kernelBase, b);
      }
    }
  }

  // ---------- the whole memory map ----------

  function SpanCount(rs: seq<EfiRange>, fap: nat): nat {
    if rs == [] then 0 else SpanCount(rs[..|rs| - 1], fap) + (if Spans(rs[|rs| - 1], fap) then 1 else 0)
  }

  lemma {:induction false} AtMostOneSpans(rs: seq<EfiRange>, fap: nat)
    requires Ascending(rs)
    ensures SpanCount(rs, fap) <= 1
    ensures SpanCount(rs, fap) == 1 ==> exists i :: 0 <= i < |rs| && Spans(rs[i], fap)
  {
    if rs != [] {
      var before := rs[..|rs| - 1];
      AtMostOneSpans(before, fap);
      if SpanCount(before, fap) == 1 {
        var i :| 0 <= i < |before| && Spans(before[i], fap);
        assert Spans(rs[i], fap) && !Spans(rs[|rs| - 1], fap);
      } else if Spans(rs[|rs| - 1], fap) {
        assert Spans(rs[|rs| - 1], fap);
      }
    }
  }

  lemma {:induction false} RegionCount(rs: seq<EfiRange>, fap: nat, kernelBase: nat)
    requires Build(rs, fap, kernelBase).Some?
    ensures |Build(rs, fap, kernelBase).value.regions| <= |rs| + SpanCount(rs, fap)
  {
    if rs != [] {
      RegionCount(rs[..|rs| - 1], fap, kernelBase);
    }
  }

  /** Up to 127 ascending ranges never fill the table before the last of them, nor split a range into its last slot. */
  lemma NeverFull(rs: seq<EfiRange>, n: nat, fap: nat, kernelBase: nat)
    requires Ascending(rs) && |rs| < MAX_REGIONS && n < |rs| && Build(rs[..n], fap, kernelBase).Some?
    ensures var count := |Build(rs[..n], fap, kernelBase).value.regions|;
      count < MAX_REGIONS && (Spans(rs[n], fap) ==> count + 1 < MAX_REGIONS)
  {
    RegionCount(rs[..n], fap, kernelBase);
    AtMostOneSpans(rs[..n], fap);
    if SpanCount(rs[..n], fap) == 1 {
      var i :| 0 <= i < n && Spans(rs[..n][i], fap);
      assert rs[..n][i] == rs[i];
    }
  }

  /** Single pages 10, 12, 14, ... */
  function SinglePages(n: nat): seq<EfiRange> {
    seq(n, i requires i >= 0 => EfiRange(CONVENTIONAL, (10 + 2 * i) * PAGE, 1, 0))
  }

  /** Below the first available page, each of them becomes a region. */
  lemma {:induction false} SinglePagesTable(n: nat)
    requires n < MAX_REGIONS
    ensures var t := Build(SinglePages(n), 1000, 0);
      t.Some? && |t.value.regions| == n && t.value.reservedRanges == 0
  {
    if n > 0 {
      var rs, r := SinglePages(n), SinglePages(n)[n - 1];
      assert rs[..n - 1] == SinglePages(n - 1);
      SinglePagesTable(n - 1);
      PagesOfRange(r, 10 + 2 * (n - 1));
    }
  }

  /** With 127 regions in the table comes a range around the first available page: its second half would be written
      past the table. */
  lemma OverrunReached()
    ensures var rs := SinglePages(127) + [EfiRange(CONVENTIONAL, 900 * PAGE, 200, 0)];
      && Build(rs[..127], 1000, 0).Some? && |Build(rs[..127], 1000, 0).value.regions| == MAX_REGIONS - 1
      && Spans(rs[127], 1000)
  {
    hide Build, Pages;
    var last := EfiRange(CONVENTIONAL, 900 * PAGE, 200, 0);
    assert (SinglePages(127) + [last])[..127] == SinglePages(127);
    SinglePagesTable(127);
    PagesOfRange(last, 1000);
  }

  /** The usable ranges that must not be made available to devices. */
  function ReservedCount(rs: seq<EfiRange>): nat {
    if rs == [] then 0
    else
      var r := rs[|rs| - 1];
      ReservedCount(rs[..|rs| - 1]) + if Pages(r).Some? && IsReserved(r.attribute) then 1 else 0
  }

  lemma StepCounts(t: Table, r: EfiRange, fap: nat, kernelBase: nat)
    requires t.prev.Some? ==> t.prev.value < |t.regions|
    ensures var n := t.reservedRanges + if Pages(r).Some? && IsReserved(r.attribute) then 1 else 0;
      var after := Step(t, r, fap, kernelBase);
      && (after.Some? ==> after.value.reservedRanges == n)
      && (t.reservedRanges <= MAX_RESERVED_RANGES ==> (after.None? <==> n > MAX_RESERVED_RANGES))
  {
    assert Pages(r).Some? ==> Clip(r).Some?;
    hide Clip, Pages;
  }

  /** The loop panics exactly when there are too many of them. */
  lemma {:induction false} PanicIff(rs: seq<EfiRange>, fap: nat, kernelBase: nat)
    requires Ascending(rs) && |rs| < MAX_REGIONS
    ensures Build(rs, fap, kernelBase).None? <==> ReservedCount(rs) > MAX_RESERVED_RANGES
    ensures Build(rs, fap, kernelBase).Some? ==> Build(rs, fap, kernelBase).value.reservedRanges == ReservedCount(rs)
  {
    if rs != [] {
      hide Pages, Clip, Step, Spans;
      var n := |rs| - 1;
      PanicIff(rs[..n], fap, kernelBase);
      if Build(rs[..n], fap, kernelBase).Some? {
        NeverFull(rs, n, fap, kernelBase);
        StepCounts(Build(rs[..n], fap, kernelBase).value, rs[n], fap, kernelBase);
      }
    }
  }

  /** For an ascending memory map the finished table is sorted and disjoint, and its free pages are exactly those
      that the ranges contribute. */
  lemma {:induction false} BuildMeaning(rs: seq<EfiRange>, fap: nat, kernelBase: nat, b: nat)
    requires Ascending(rs) && |rs| < MAX_REGIONS && Build(rs, fap, kernelBase).Some?
    requires forall i :: 0 <= i < |rs| && Pages(rs[i]).Some? ==> Pages(rs[i]).value.1 < b
    ensures var t := Build(rs, fap, kernelBase).value;
      && TableInv(t) && EndsBelow(t, b)
      && forall p :: IsFree(t.regions, p) <==> exists i :: 0 <= i < |rs| && CodeFree(rs[i], fap, kernelBase, p)
  {
    if rs != [] {
      hide TableInv, EndsBelow, IsFree, CodeFree, Clip, Pages, Step;
      var n := |rs| - 1;
      var before, r := rs[..n], rs[n];
      var c := if Pages(r).Some? then Pages(r).value.0 else b;
      NeverFull(rs, n, fap, kernelBase);
      forall i | 0 <= i < n && Pages(before[i]).Some? ensures Pages(before[i]).value.1 < c {
        assert before[i] == rs[i];
      }
      BuildMeaning(before, fap, kernelBase, c);
      var t := Build(before, fap, kernelBase).value;
      StepKeepsInv(t, r, fap, kernelBase, b);
      var u := Build(rs, fap, kernelBase).value;
      forall p ensures IsFree(u.regions, p) <==> exists i :: 0 <= i < |rs| && CodeFree(rs[i], fap, kernelBase, p) {
        assert rs == before + [r];
        OneMoreRange(before, r, fap, kernelBase, p);
      }
    }
  }

  lemma OneMoreRange(before: seq<EfiRange>, r: EfiRange, fap: nat, kernelBase: nat, p: nat)
    ensures (exists i :: 0 <= i < |before + [r]| && CodeFree((before + [r])[i], fap, kernelBase, p))
      <==>
        (exists i :: 0 <= i < |before| && CodeFree(before[i], fap, kernelBase, p)) || CodeFree(r, fap, kernelBase, p)
  {
    var rs := before + [r];
    if i :| 0 <= i < |rs| && CodeFree(rs[i], fap, kernelBase, p) {
      assert i < |before| ==> CodeFree(before[i], fap, kernelBase, p);
    }
    if i :| 0 <= i < |before| && CodeFree(before[i], fap, kernelBase, p) {
      assert CodeFree(rs[i], fap, kernelBase, p);
    }
    assert CodeFree(r, fap, kernelBase, p) ==> CodeFree(rs[|before|], fap, kernelBase, p);
  }

  // ---------- what else the table records ----------

  predicate Covers(g: Region, p: nat, attribute: nat) {
    g.base <= p <= g.end && g.attribute == attribute
  }

  /** Page `p` lies in a region with this attribute, free or not. */
  ghost predicate InTable(rs: seq<Region>, p: nat, attribute: nat) {
    exists j :: 0 <= j < |rs| && Covers(rs[j], p, attribute)
  }

  /** Page `p` is one that range `r`, with this attribute, brings into the table. */
  predicate Brings(r: EfiRange, fap: nat, p: nat, attribute: nat) {
    Pages(r).Some? && r.attribute == attribute && Pages(r).value.0 <= p <= Pages(r).value.1
    && (Pages(r).value.1 < fap ==> LOWMEM_RESERVED <= p)
  }

  /** A region that devices must not be given, with pages to allocate. */
  predicate Withheld(g: Region) {
    IsReserved(g.attribute) && g.allocUp <= g.allocDown
  }

  /** The recorded indices are exactly those of the regions withheld. */
  ghost predicate IndicesRight(t: Table) {
    && (forall i :: i in t.reservedIndices ==> i < |t.regions|)
    && forall j :: 0 <= j < |t.regions| ==> (j in t.reservedIndices <==> Withheld(t.regions[j]))
  }

  /** `avail_end` is the address of the highest page in the table. */
  ghost predicate AvailEndRight(t: Table) {
    if t.regions == [] then t.availEnd == 0
    else
      && (forall j :: 0 <= j < |t.regions| ==> t.regions[j].end * PAGE <= t.availEnd)
      && exists j :: 0 <= j < |t.regions| && t.regions[j].end * PAGE == t.availEnd
  }

  /** How many pages of a range `avail_remaining` counts: all that are not known to be taken, but one. */
  function Counted(r: EfiRange, fap: nat): nat {
    if Pages(r).None? then 0
    else
      var (base, top) := Pages(r).value;
      if top < fap then (if base < LOWMEM_RESERVED then top - LOWMEM_RESERVED else top - base)
      else if base < fap < top then top - fap
      else top - base
  }

  function CountedPages(rs: seq<EfiRange>, fap: nat): nat {
    if rs == [] then 0 else CountedPages(rs[..|rs| - 1], fap) + Counted(rs[|rs| - 1], fap)
  }

  /** The regions are in the type and the form that the code gives them. */
  ghost predicate Formed(rs: seq<Region>) {
    forall j :: 0 <= j < |rs| ==> rs[j].base <= rs[j].end && rs[j].kind == CONVENTIONAL
  }

  /** A table placed into: what `Place` leaves depends on no more. */
  ghost predicate Placeable(t: Table, g: Region) {
    && (t.prev.Some? ==> t.prev.value < |t.regions|)
    && Formed(t.regions) && g.base <= g.end && g.kind == CONVENTIONAL
  }

  lemma PlaceCovers(t: Table, g: Region, p: nat, attribute: nat)
    requires Placeable(t, g)
    ensures Formed(Place(t, g).regions)
    ensures InTable(Place(t, g).regions, p, attribute) <==> InTable(t.regions, p, attribute) || Covers(g, p, attribute)
  {
    var n := Place(t, g);
    if t.prev.Some? && Mergeable(t.regions[t.prev.value], g) {
      var k := t.prev.value;
      assert Covers(n.regions[k], p, attribute) <==> Covers(t.regions[k], p, attribute) || Covers(g, p, attribute);
      assert forall j :: 0 <= j < |t.regions| && j != k ==> n.regions[j] == t.regions[j];
      if InTable(t.regions, p, attribute) {
        var j :| 0 <= j < |t.regions| && Covers(t.regions[j], p, attribute);
        assert Covers(n.regions[j], p, attribute);
      }
    } else {
      OneMoreRegion(t.regions, g, p, attribute);
    }
  }

  lemma OneMoreRegion(rs: seq<Region>, g: Region, p: nat, attribute: nat)
    ensures InTable(rs + [g], p, attribute) <==> InTable(rs, p, attribute) || Covers(g, p, attribute)
  {
    if InTable(rs, p, attribute) {
      var j :| 0 <= j < |rs| && Covers(rs[j], p, attribute);
      assert Covers((rs + [g])[j], p, attribute);
    }
    assert Covers(g, p, attribute) ==> Covers((rs + [g])[|rs|], p, attribute);
  }

  lemma PlaceIndexes(t: Table, g: Region)
    requires Placeable(t, g)
    requires forall i :: i in t.reservedIndices ==> i <= |t.regions|
    requires forall j :: 0 <= j < |t.regions| ==> (j in t.reservedIndices <==> Withheld(t.regions[j]))
    requires |t.regions| in t.reservedIndices <==> Withheld(g)
    ensures IndicesRight(Place(t, g))
  {
  }

  lemma PlaceEnds(t: Table, g: Region)
    requires Placeable(t, g) && (t.regions == [] ==> t.availEnd == 0)
    requires forall j :: 0 <= j < |t.regions| ==> t.regions[j].end * PAGE <= t.availEnd || t.regions[j].end < g.end
    requires t.availEnd == 0 || exists j :: 0 <= j < |t.regions| && t.regions[j].end * PAGE == t.availEnd
    ensures AvailEndRight(Place(t, g))
  {
    var n := Place(t, g);
    if t.prev.Some? && Mergeable(t.regions[t.prev.value], g) {
      assert n.regions[t.prev.value].end == g.end;
      if t.availEnd > g.end * PAGE {
        var j :| 0 <= j < |t.regions| && t.regions[j].end * PAGE == t.availEnd;
        assert j != t.prev.value && n.regions[j].end * PAGE == n.availEnd;
      }
    } else {
      assert n.regions[|t.regions|] == g;
      if t.availEnd > g.end * PAGE {
        var j :| 0 <= j < |t.regions| && t.regions[j].end * PAGE == t.availEnd;
        assert n.regions[j] == t.regions[j];
      }
    }
  }

  lemma PlaceCounts(t: Table, g: Region)
    requires Placeable(t, g)
    ensures Place(t, g).availRemaining == t.availRemaining + (g.end - g.base)
  {
  }

  /** What the table records of the ranges `rs`. */
  ghost predicate Records(t: Table, rs: seq<EfiRange>, fap: nat) {
    && Formed(t.regions) && IndicesRight(t) && AvailEndRight(t) && t.availRemaining == CountedPages(rs, fap)
    && forall p, attribute ::
         InTable(t.regions, p, attribute) <==> exists i :: 0 <= i < |rs| && Brings(rs[i], fap, p, attribute)
  }

  /** `n` is `t` with range `r` recorded too. */
  ghost predicate Grown(t: Table, n: Table, r: EfiRange, fap: nat) {
    && Formed(n.regions) && IndicesRight(n) && AvailEndRight(n)
    && n.availRemaining == t.availRemaining + Counted(r, fap)
    && forall p, attribute ::
         InTable(n.regions, p, attribute) <==> InTable(t.regions, p, attribute) || Brings(r, fap, p, attribute)
  }

  /** A table with range `r` still to come. */
  ghost predicate Receives(u: Table, r: EfiRange) {
    && (u.prev.Some? ==> u.prev.value < |u.regions|)
    && Formed(u.regions) && IndicesRight(u) && AvailEndRight(u) && Pages(r).Some?
  }

  lemma OneRegionGrows(u: Table, t: Table, r: EfiRange, g: Region, fap: nat)
    requires Receives(u, r) && t == if Withheld(g) then Index(u) else u
    requires g.base <= g.end && g.kind == CONVENTIONAL && g.end - g.base == Counted(r, fap)
    requires forall p, attribute :: Covers(g, p, attribute) <==> Brings(r, fap, p, attribute)
    ensures Grown(u, Place(t, g), r, fap)
  {
    hide Place, Pages, Counted, Brings, InTable, Covers;
    PlaceIndexes(t, g);
    PlaceEnds(t, g);
    PlaceCounts(t, g);
    forall p, attribute ensures InTable(Place(t, g).regions, p, attribute)
                                <==> InTable(t.regions, p, attribute) || Covers(g, p, attribute)
    {
      PlaceCovers(t, g, p, attribute);
    }
    PlaceCovers(t, g, 0, 0);
  }

  lemma LowGrows(u: Table, r: EfiRange, fap: nat, kernelBase: nat)
    requires Receives(u, r) && Pages(r).value.1 < fap
    ensures Grown(u, AddLow(u, r, kernelBase), r, fap)
  {
    hide Clip, Place, InTable, IndicesRight, AvailEndRight;
    var (base, top) := Pages(r).value;
    var low := if base >= LOWMEM_RESERVED then base else LOWMEM_RESERVED;
    if IsReserved(r.attribute) && top < kernelBase {
      OneRegionGrows(u, Index(u), r, Piece(r, low, top, low, top), fap);
    } else {
      OneRegionGrows(u, u, r, Piece(r, low, top, top + 1, top), fap);
    }
  }

  lemma WholeGrows(u: Table, r: EfiRange, fap: nat)
    requires Receives(u, r) && Pages(r).value.1 >= fap && !Spans(r, fap)
    ensures Grown(u, AddWhole(u, r), r, fap)
  {
    hide Clip, Place, InTable, IndicesRight, AvailEndRight;
    var (base, top) := Pages(r).value;
    OneRegionGrows(u, if IsReserved(r.attribute) then Index(u) else u, r, Piece(r, base, top, base, top), fap);
  }

  lemma SplitGrows(u: Table, r: EfiRange, fap: nat)
    requires Receives(u, r) && Spans(r, fap)
    ensures Grown(u, AddSplit(u, r, fap), r, fap)
  {
    hide Clip, Place, InTable;
    var (base, top) := Pages(r).value;
    var half, g := Piece(r, base, fap - 1, fap, fap - 1), Piece(r, fap, top, fap, top);
    var v := u.(regions := u.regions + [half]);
    var w := if IsReserved(r.attribute) then Index(v) else v;
    PlaceIndexes(w, g);
    if u.regions != [] {
      HighestKept(u, half);
    }
    PlaceEnds(w, g);
    PlaceCounts(w, g);
    forall p, attribute ensures InTable(Place(w, g).regions, p, attribute)
                                <==> InTable(u.regions, p, attribute) || Brings(r, fap, p, attribute)
    {
      PlaceCovers(w, g, p, attribute);
      OneMoreRegion(u.regions, half, p, attribute);
    }
    PlaceCovers(w, g, 0, 0);
  }

  lemma HighestKept(u: Table, half: Region)
    requires AvailEndRight(u) && u.regions != []
    ensures exists j :: 0 <= j < |u.regions + [half]| && (u.regions + [half])[j].end * PAGE == u.availEnd
  {
    var j :| 0 <= j < |u.regions| && u.regions[j].end * PAGE == u.availEnd;
    assert (u.regions + [half])[j] == u.regions[j];
  }

  lemma StepGrows(t: Table, r: EfiRange, fap: nat, kernelBase: nat)
    requires (t.prev.Some? ==> t.prev.value < |t.regions|) && Step(t, r, fap, kernelBase).Some?
    requires Formed(t.regions) && IndicesRight(t) && AvailEndRight(t)
    ensures Grown(t, Step(t, r, fap, kernelBase).value, r, fap)
  {
    hide AddLow, AddSplit, AddWhole, InTable;
    if Clip(r).Some? && Pages(r).Some? {
      var u := CountReserved(t, r);
      if Pages(r).value.1 < fap {
        LowGrows(u, r, fap, kernelBase);
      } else if Spans(r, fap) {
        SplitGrows(u, r, fap);
      } else {
        WholeGrows(u, r, fap);
      }
    }
  }

  /** The table covers exactly the pages of the ranges, each with the attribute of its range; it is these attributes
      that say which regions are withheld from devices; `avail_end` and `avail_remaining` go with the ranges. */
  lemma {:induction false} BuildRecords(rs: seq<EfiRange>, fap: nat, kernelBase: nat)
    requires Ascending(rs) && |rs| < MAX_REGIONS && Build(rs, fap, kernelBase).Some?
    ensures Records(Build(rs, fap, kernelBase).value, rs, fap)
  {
    hide IndicesRight, AvailEndRight, InTable, Brings, Clip, Pages, Step, Counted, Formed, Grown, Records;
    if rs == [] {
      NothingRecorded(fap);
    } else {
      var n := |rs| - 1;
      var before, r := rs[..n], rs[n];
      NeverFull(rs, n, fap, kernelBase);
      BuildRecords(before, fap, kernelBase);
      var t := Build(before, fap, kernelBase).value;
      RecordsFormed(t, before, fap);
      StepGrows(t, r, fap, kernelBase);
      assert rs == before + [r];
      RecordsGrow(t, Build(rs, fap, kernelBase).value, before, r, fap);
    }
  }

  lemma NothingRecorded(fap: nat)
    ensures Records(EMPTY, [], fap)
  {
  }

  lemma RecordsFormed(t: Table, rs: seq<EfiRange>, fap: nat)
    requires Records(t, rs, fap)
    ensures Formed(t.regions) && IndicesRight(t) && AvailEndRight(t)
  {
  }

  lemma RecordsGrow(t: Table, n: Table, before: seq<EfiRange>, r: EfiRange, fap: nat)
    requires Records(t, before, fap) && Grown(t, n, r, fap)
    ensures Records(n, before + [r], fap)
  {
    hide IndicesRight, AvailEndRight, InTable, Brings, Counted, Formed;
    var rs := before + [r];
    assert rs[..|rs| - 1] == before;
    forall p, attribute
      ensures (exists i :: 0 <= i < |rs| && Brings(rs[i], fap, p, attribute))
        <==>
          (exists i :: 0 <= i < |before| && Brings(before[i], fap, p, attribute)) || Brings(r, fap, p, attribute)
    {
      if i :| 0 <= i < |before| && Brings(before[i], fap, p, attribute) {
        assert Brings(rs[i], fap, p, attribute);
      }
      if i :| 0 <= i < |rs| && Brings(rs[i], fap, p, attribute) {
        assert i < |before| ==> Brings(before[i], fap, p, attribute);
      }
      assert Brings(r, fap, p, attribute) ==> Brings(rs[|before|], fap, p, attribute);
    }
  }

  /** The free pages are the intended ones exactly when every range is sound. */
  lemma FreePagesAreIntendedIff(rs: seq<EfiRange>, fap: nat, kernelBase: nat)
    requires Ascending(rs) && |rs| < MAX_REGIONS && Build(rs, fap, kernelBase).Some?
    requires LOWMEM_RESERVED <= fap < UINT32 - 1
    ensures (forall p :: IsFree(Build(rs, fap, kernelBase).value.regions, p)
                         <==> exists i :: 0 <= i < |rs| && IntendedFree(rs[i], fap, kernelBase, p))
            <==> forall i :: 0 <= i < |rs| ==> Sound(rs[i], fap)
  {
    hide Ascending, Build, IsFree, IntendedFree, Sound, Pages;
    if forall i :: 0 <= i < |rs| ==> Sound(rs[i], fap) {
      FreePagesAreIntended(rs, fap, kernelBase);
    } else {
      var p := WrongPage(rs, fap, kernelBase);
      assert IsFree(Build(rs, fap, kernelBase).value.regions, p)
        <==> !exists i :: 0 <= i < |rs| && IntendedFree(rs[i], fap, kernelBase, p);
    }
  }

  /** The free pages are the intended ones when every range is sound. */
  lemma FreePagesAreIntended(rs: seq<EfiRange>, fap: nat, kernelBase: nat)
    requires Ascending(rs) && |rs| < MAX_REGIONS && Build(rs, fap, kernelBase).Some?
    requires LOWMEM_RESERVED <= fap < UINT32 - 1 && forall i :: 0 <= i < |rs| ==> Sound(rs[i], fap)
    ensures forall p :: IsFree(Build(rs, fap, kernelBase).value.regions, p)
                        <==> exists i :: 0 <= i < |rs| && IntendedFree(rs[i], fap, kernelBase, p)
  {
    hide Build, IsFree, IntendedFree, CodeFree, Sound, Pages;
    BuildMeaning(rs, fap, kernelBase, UINT32);
    forall i | 0 <= i < |rs|
      ensures forall p :: CodeFree(rs[i], fap, kernelBase, p) <==> IntendedFree(rs[i], fap, kernelBase, p)
    {
      ContributionIsIntendedIff(rs[i], fap, kernelBase);
    }
    forall p ensures IsFree(Build(rs, fap, kernelBase).value.regions, p)
                     <==> exists i :: 0 <= i < |rs| && IntendedFree(rs[i], fap, kernelBase, p) {
      if i :| 0 <= i < |rs| && CodeFree(rs[i], fap, kernelBase, p) {
        assert IntendedFree(rs[i], fap, kernelBase, p);
      }
      if i :| 0 <= i < |rs| && IntendedFree(rs[i], fap, kernelBase, p) {
        assert CodeFree(rs[i], fap, kernelBase, p);
      }
    }
  }

  /** And only then: otherwise some page is free that no range should give out, or the other way round. */
  lemma WrongPage(rs: seq<EfiRange>, fap: nat, kernelBase: nat) returns (p: nat)
    requires Ascending(rs) && |rs| < MAX_REGIONS && Build(rs, fap, kernelBase).Some?
    requires LOWMEM_RESERVED <= fap < UINT32 - 1 && !forall i :: 0 <= i < |rs| ==> Sound(rs[i], fap)
    ensures IsFree(Build(rs, fap, kernelBase).value.regions, p)
            <==> !exists i :: 0 <= i < |rs| && IntendedFree(rs[i], fap, kernelBase, p)
  {
    hide Ascending, Build, IsFree, IntendedFree, Pages, EndsOnFirstAvailable, Usable, Start;
    if AllFit(rs) {
      var k :| 0 <= k < |rs| && !Sound(rs[k], fap);
      UnsoundGivesOut(rs, fap, kernelBase, k);
      p := Witness(rs[k]);
    } else {
      var k :| 0 <= k < |rs| && Usable(rs[k]) && rs[k].numberOfPages > 0 && !Fits(rs[k]);
      HighPageLost(rs, fap, kernelBase, k);
      p := Start(rs[k]) + rs[k].numberOfPages - 1;
    }
  }

  /** All usable ranges that are not empty lie in 32-bit page numbers. */
  ghost predicate AllFit(rs: seq<EfiRange>) {
    forall i :: 0 <= i < |rs| && Usable(rs[i]) && rs[i].numberOfPages > 0 ==> Fits(rs[i])
  }

  /** A page beyond 32-bit page numbers is never free. */
  lemma HighPageLost(rs: seq<EfiRange>, fap: nat, kernelBase: nat, k: nat)
    requires Ascending(rs) && |rs| < MAX_REGIONS && Build(rs, fap, kernelBase).Some?
    requires fap < UINT32 - 1 && k < |rs| && Usable(rs[k]) && rs[k].numberOfPages > 0 && !Fits(rs[k])
    ensures var p := Start(rs[k]) + rs[k].numberOfPages - 1;
      IntendedFree(rs[k], fap, kernelBase, p) && !IsFree(Build(rs, fap, kernelBase).value.regions, p)
  {
    hide Ascending, Build, Pages, Usable, Start;
    BuildMeaning(rs, fap, kernelBase, UINT32);
  }

  /** The page that shows a range not to be sound: the last one for an empty range, else its first one. */
  function Witness(r: EfiRange): nat
    requires Pages(r).Some?
  {
    if r.numberOfPages == 0 then UINT32 - 2 else Pages(r).value.0
  }

  /** It is one of the pages that the code takes for the range's, is given out, and should not be. */
  lemma WitnessGivenOut(r: EfiRange, fap: nat, kernelBase: nat)
    requires LOWMEM_RESERVED <= fap < UINT32 - 1 && !Sound(r, fap) && (r.numberOfPages > 0 ==> Fits(r))
    ensures Pages(r).Some? && Pages(r).value.0 <= Witness(r) <= Pages(r).value.1
    ensures Witness(r) < fap || r.numberOfPages == 0
    ensures CodeFree(r, fap, kernelBase, Witness(r)) && !IntendedFree(r, fap, kernelBase, Witness(r))
  {
    if r.numberOfPages == 0 {
      PagesOfEmpty(r);
    } else {
      ExposedPage(r, fap, kernelBase);
    }
  }

  /** An intended page of a range in 32-bit page numbers is one of the pages that the code takes for the range's. */
  lemma IntendedIsCounted(r: EfiRange, fap: nat, kernelBase: nat, p: nat)
    requires LOWMEM_RESERVED <= fap && IntendedFree(r, fap, kernelBase, p) && Fits(r)
    ensures Pages(r).Some? && Pages(r).value.0 <= p <= Pages(r).value.1
  {
    PagesOfRange(r, p);
  }

  /** A range in 32-bit page numbers that is not sound gives out a page that no range should give out. */
  lemma UnsoundGivesOut(rs: seq<EfiRange>, fap: nat, kernelBase: nat, k: nat)
    requires Ascending(rs) && |rs| < MAX_REGIONS && Build(rs, fap, kernelBase).Some? && AllFit(rs)
    requires LOWMEM_RESERVED <= fap < UINT32 - 1 && k < |rs| && !Sound(rs[k], fap)
    ensures Pages(rs[k]).Some? && (rs[k].numberOfPages > 0 ==> Witness(rs[k]) < fap)
    ensures IsFree(Build(rs, fap, kernelBase).value.regions, Witness(rs[k]))
    ensures !exists i :: 0 <= i < |rs| && IntendedFree(rs[i], fap, kernelBase, Witness(rs[k]))
  {
    hide TableInv, IsFree, Build, EndsBelow, Witness, Pages, CodeFree, Last;
    BuildMeaning(rs, fap, kernelBase, UINT32);
    WitnessGivenOut(rs[k], fap, kernelBase);
    var p := Witness(rs[k]);
    forall i | 0 <= i < |rs| ensures !IntendedFree(rs[i], fap, kernelBase, p) {
      if IntendedFree(rs[i], fap, kernelBase, p) {
        assert i != k;
        IntendedIsCounted(rs[i], fap, kernelBase, p);
        assert false;
      }
    }
  }

  /** Usable ranges that are not empty, lie in 32-bit page numbers, and come in ascending order. */
  ghost predicate Sorted(rs: seq<EfiRange>) {
    && (forall i :: 0 <= i < |rs| && Usable(rs[i]) ==> rs[i].numberOfPages > 0 && Fits(rs[i]))
    && (forall i, j :: 0 <= i < j < |rs| && Usable(rs[i]) && Usable(rs[j]) ==>
          Start(rs[i]) + rs[i].numberOfPages <= Start(rs[j]))
  }

  /** For such a memory map only a range that ends on the first available page goes wrong. */
  lemma SortedFreePagesIff(rs: seq<EfiRange>, fap: nat, kernelBase: nat)
    requires Sorted(rs) && |rs| < MAX_REGIONS && Build(rs, fap, kernelBase).Some?
    requires LOWMEM_RESERVED <= fap < UINT32 - 1
    ensures Ascending(rs)
    ensures (forall p :: IsFree(Build(rs, fap, kernelBase).value.regions, p)
                         <==> exists i :: 0 <= i < |rs| && IntendedFree(rs[i], fap, kernelBase, p))
            <==> forall i :: 0 <= i < |rs| && Usable(rs[i]) ==> !EndsOnFirstAvailable(rs[i], fap)
  {
    hide Build, IsFree, IntendedFree, Pages, EndsOnFirstAvailable, Start, CodeFree;
    SortedIsAscending(rs);
    FreePagesAreIntendedIff(rs, fap, kernelBase);
  }

  lemma SortedIsAscending(rs: seq<EfiRange>)
    requires Sorted(rs)
    ensures Ascending(rs)
  {
    hide Clip, Start;
    forall i, j | 0 <= i < j < |rs| && Pages(rs[i]).Some? && Pages(rs[j]).Some?
      ensures Pages(rs[i]).value.1 < Pages(rs[j]).value.0
    {
      PagesOfRange(rs[i], 0);
      PagesOfRange(rs[j], 0);
    }
  }

  /** The table of a memory map of one range. */
  lemma OneRange(r: EfiRange, fap: nat, kernelBase: nat)
    ensures Ascending([r]) && Build([r], fap, kernelBase).Some?
    ensures forall p :: IsFree(Build([r], fap, kernelBase).value.regions, p) <==> CodeFree(r, fap, kernelBase, p)
  {
    assert ReservedCount([r]) <= ReservedCount([]) + 1 by {
      assert [r][..0] == [];
    }
    hide Clip, Pages, CodeFree, Build, IsFree, TableInv, EndsBelow;
    PanicIff([r], fap, kernelBase);
    BuildMeaning([r], fap, kernelBase, UINT32);
    forall p ensures IsFree(Build([r], fap, kernelBase).value.regions, p) <==> CodeFree(r, fap, kernelBase, p) {
      assert CodeFree([r][0], fap, kernelBase, p) <==> CodeFree(r, fap, kernelBase, p);
    }
  }

  /** Conventional memory on pages 4 to 10, with page 10 the first available one: page 4 is in use and given out. */
  lemma ExposedExample()
    ensures var r := EfiRange(CONVENTIONAL, 4 * PAGE, 7, 0);
      && Build([r], 10, 0).Some? && IsFree(Build([r], 10, 0).value.regions, 4) && !IntendedFree(r, 10, 0, 4)
  {
    hide Ascending, Build, IsFree, Pages;
    var r := EfiRange(CONVENTIONAL, 4 * PAGE, 7, 0);
    OneRange(r, 10, 0);
    PagesOfRange(r, 4);
    assert Contains(r, 4) && Pages(r) == Some((4, 10));
  }

  /** An empty range at address 0: page 1000 is given out, although there is no memory at all. */
  lemma EmptyRangeExample()
    ensures var r := EfiRange(CONVENTIONAL, 0, 0, 0);
      && Build([r], 10, 0).Some? && IsFree(Build([r], 10, 0).value.regions, 1000) && !IntendedFree(r, 10, 0, 1000)
  {
    hide Ascending, Build, IsFree, Pages;
    var r := EfiRange(CONVENTIONAL, 0, 0, 0);
    OneRange(r, 10, 0);
    PagesOfEmpty(r);
  }

  /** Ten pages from page 2^32 + 20 on: page 25 is given out instead of page 2^32 + 25. */
  lemma HighRangeExample()
    ensures var r := EfiRange(CONVENTIONAL, (UINT32 + 20) * PAGE, 10, 0);
      && Build([r], 10, 0).Some?
      && IsFree(Build([r], 10, 0).value.regions, 25) && !IntendedFree(r, 10, 0, 25)
      && !IsFree(Build([r], 10, 0).value.regions, UINT32 + 25) && IntendedFree(r, 10, 0, UINT32 + 25)
  {
    hide Ascending, Build, IsFree;
    var r := EfiRange(CONVENTIONAL, (UINT32 + 20) * PAGE, 10, 0);
    OneRange(r, 10, 0);
    assert Clip(r) == Some((20, 29));
  }

  // ---------- trimming to a memory limit ----------

  /** The code's own measure of a region leaves out its last page. */
  function Span(g: Region): nat {
    if g.base <= g.end then g.end - g.base else 0
  }

  function Measure(rs: seq<Region>): nat {
    if rs == [] then 0 else Span(rs[0]) + Measure(rs[1..])
  }

  /** Regions are kept until the budget is used up; the one in which that happens is cut short. */
  function Trim(rs: seq<Region>, budget: nat): seq<Region> {
    if rs == [] || budget == 0 then []
    else if Span(rs[0]) < budget then [rs[0]] + Trim(rs[1..], budget - Span(rs[0]))
    else [rs[0].(end := rs[0].base + budget, allocDown := rs[0].base + budget)]
  }

  /** The highest page counted, 0 if none is. */
  function Highest(rs: seq<Region>, budget: nat): nat {
    if rs == [] || budget == 0 then 0
    else if Span(rs[0]) == 0 then Highest(rs[1..], budget)
    else if Span(rs[0]) < budget then Max(rs[0].end - 1, Highest(rs[1..], budget - Span(rs[0])))
    else rs[0].base + budget - 1
  }

  function Max(a: nat, b: nat): nat {
    if a < b then b else a
  }

  /** `kept` is an initial part of `rs`, except that its last region may end earlier. */
  ghost predicate CutShort(kept: seq<Region>, rs: seq<Region>) {
    && |kept| <= |rs| && (forall j :: 0 <= j < |kept| - 1 ==> kept[j] == rs[j])
    && (kept != [] ==> var k := |kept| - 1; kept[k].base == rs[k].base && kept[k].end <= rs[k].end)
  }

  lemma CutShortBehind(g: Region, kept: seq<Region>, rest: seq<Region>)
    requires CutShort(kept, rest)
    ensures CutShort([g] + kept, [g] + rest)
  {
    assert forall j :: 0 < j < |kept| ==> ([g] + kept)[j] == kept[j - 1] && ([g] + rest)[j] == rest[j - 1];
  }

  /** A positive budget leaves a measure of exactly the budget, or all of it; only the last region kept changes. */
  lemma {:induction false} TrimMeaning(rs: seq<Region>, budget: nat)
    requires budget > 0 && forall j :: 0 <= j < |rs| ==> rs[j].base <= rs[j].end
    ensures var kept := Trim(rs, budget);
      && Measure(kept) == (if Measure(rs) < budget then Measure(rs) else budget)
      && (Measure(rs) < budget ==> kept == rs)
      && CutShort(kept, rs)
  {
    hide Span, Measure, CutShort;
    if rs == [] {
      NothingToTrim();
    } else {
      var g, rest := rs[0], rs[1..];
      assert rs == [g] + rest;
      MeasureFront(g, rest);
      if Span(g) < budget {
        TrimMeaning(rest, budget - Span(g));
        CutShortBehind(g, Trim(rest, budget - Span(g)), rest);
        MeasureFront(g, Trim(rest, budget - Span(g)));
      } else {
        CutHere(rs, budget);
      }
    }
  }

  lemma NothingToTrim()
    ensures Measure([]) == 0 && CutShort([], [])
  {
  }

  lemma MeasureFront(g: Region, rest: seq<Region>)
    ensures Measure([g] + rest) == Span(g) + Measure(rest)
  {
    assert ([g] + rest)[1..] == rest;
  }

  lemma CutHere(rs: seq<Region>, budget: nat)
    requires rs != [] && Span(rs[0]) >= budget > 0 && rs[0].base <= rs[0].end
    ensures var cut := [rs[0].(end := rs[0].base + budget, allocDown := rs[0].base + budget)];
      Measure(cut) == budget && CutShort(cut, rs)
  {
    MeasureFront(rs[0].(end := rs[0].base + budget, allocDown := rs[0].base + budget), []);
  }

  ghost predicate SortedRegions(rs: seq<Region>) {
    && (forall j :: 0 <= j < |rs| ==> rs[j].base <= rs[j].end)
    && (forall i, j :: 0 <= i < j < |rs| ==> rs[i].end < rs[j].base)
  }

  /** Trimming keeps the table sorted and disjoint. */
  lemma TrimStaysSorted(rs: seq<Region>, budget: nat)
    requires budget > 0 && SortedRegions(rs)
    ensures forall i, j :: 0 <= i < j < |Trim(rs, budget)| ==> Trim(rs, budget)[i].end < Trim(rs, budget)[j].base
  {
    hide Trim, Measure;
    TrimMeaning(rs, budget);
    var kept := Trim(rs, budget);
    forall i, j | 0 <= i < j < |kept| ensures kept[i].end < kept[j].base {
      assert kept[i] == rs[i] && kept[j].base == rs[j].base;
    }
  }

  /** No kept region of positive size reaches more than one page beyond the highest page counted. */
  lemma {:induction false} HighestBounds(rs: seq<Region>, budget: nat, j: nat)
    requires budget > 0 && j < |Trim(rs, budget)| && Span(Trim(rs, budget)[j]) > 0
    ensures Trim(rs, budget)[j].end <= Highest(rs, budget) + 1
  {
    if j > 0 {
      HighestBounds(rs[1..], budget - Span(rs[0]), j - 1);
    }
  }

  /** One kept region of a sorted table does, unless nothing was counted: the limit is where the table ends. */
  lemma {:induction false} HighestReached(rs: seq<Region>, budget: nat) returns (j: nat)
    requires budget > 0 && SortedRegions(rs) && Measure(rs) > 0
    ensures j < |Trim(rs, budget)| && Span(Trim(rs, budget)[j]) > 0
    ensures Trim(rs, budget)[j].end == Highest(rs, budget) + 1
  {
    if Span(rs[0]) < budget {
      var rest, left := rs[1..], budget - Span(rs[0]);
      if Measure(rest) > 0 {
        var k := HighestReached(rest, left);
        HighestAbove(rest, left, rs[0].end);
        j := k + 1;
        assert Trim(rs, budget)[j] == Trim(rest, left)[k];
      } else {
        NothingCounted(rest, left);
        j := 0;
      }
    } else {
      j := 0;
    }
  }

  /** The last page of the last region. */
  function LastPage(rs: seq<Region>): nat {
    if rs == [] then 0 else rs[|rs| - 1].end
  }

  /** Trimming keeps free exactly the free pages up to the cut; the page on which it cuts is the one at `avail_end`,
      one past the highest page counted, and stays free if it was. */
  lemma {:induction false} TrimKeepsFree(rs: seq<Region>, budget: nat, p: nat)
    requires budget > 0 && SortedRegions(rs) && forall j :: 0 <= j < |rs| ==> RegionOk(rs[j])
    ensures IsFree(Trim(rs, budget), p) <==> IsFree(rs, p) && (Measure(rs) < budget || p <= LastPage(Trim(rs, budget)))
    ensures Measure(rs) >= budget ==> LastPage(Trim(rs, budget)) == Highest(rs, budget) + 1
  {
    if rs != [] {
      if Span(rs[0]) < budget {
        TrimKeepsFree(rs[1..], budget - Span(rs[0]), p);
        WholeKept(rs, budget, p);
      } else {
        CutKept(rs, budget, p);
      }
    }
  }

  /** The case of a first region in which the budget ends. */
  lemma CutKept(rs: seq<Region>, budget: nat, p: nat)
    requires SortedRegions(rs) && (forall j :: 0 <= j < |rs| ==> RegionOk(rs[j])) && rs != []
    requires Span(rs[0]) >= budget > 0
    ensures Measure(rs) >= budget && LastPage(Trim(rs, budget)) == Highest(rs, budget) + 1
    ensures IsFree(Trim(rs, budget), p) <==> IsFree(rs, p) && p <= LastPage(Trim(rs, budget))
  {
    var g, rest := rs[0], rs[1..];
    assert rs == [g] + rest;
    FreeFront(g, rest, p);
    if IsFree(rest, p) {
      FreeAbove(rs, p);
    }
    hide IsFree;
    var cut := g.(end := g.base + budget, allocDown := g.base + budget);
    FreeFront(cut, [], p);
    NoneFree(p);
    assert [cut] + [] == [cut];
  }

  lemma NoneFree(p: nat)
    ensures !IsFree([], p)
  {
  }

  /** The case of a first region that the budget covers. */
  lemma WholeKept(rs: seq<Region>, budget: nat, p: nat)
    requires SortedRegions(rs) && (forall j :: 0 <= j < |rs| ==> RegionOk(rs[j])) && rs != [] && Span(rs[0]) < budget
    requires var rest, left := rs[1..], budget - Span(rs[0]);
      && (IsFree(Trim(rest, left), p) <==> IsFree(rest, p) && (Measure(rest) < left || p <= LastPage(Trim(rest, left))))
      && (Measure(rest) >= left ==> LastPage(Trim(rest, left)) == Highest(rest, left) + 1)
    ensures IsFree(Trim(rs, budget), p) <==> IsFree(rs, p) && (Measure(rs) < budget || p <= LastPage(Trim(rs, budget)))
    ensures Measure(rs) >= budget ==> LastPage(Trim(rs, budget)) == Highest(rs, budget) + 1
  {
    var g, rest, left := rs[0], rs[1..], budget - Span(rs[0]);
    assert rs == [g] + rest;
    FreeFront(g, rest, p);
    FreeFront(g, Trim(rest, left), p);
    hide IsFree;
    if Measure(rest) >= left {
      HighestAbove(rest, left, g.end);
      var kept := Trim(rest, left);
      assert kept != [] && LastPage([g] + kept) == LastPage(kept) > g.end;
    }
  }

  lemma FreeAbove(rs: seq<Region>, p: nat)
    requires SortedRegions(rs) && rs != [] && (forall j :: 0 <= j < |rs| ==> RegionOk(rs[j])) && IsFree(rs[1..], p)
    ensures p > rs[0].end
  {
    var j :| 0 <= j < |rs[1..]| && RegionFree(rs[1..][j], p);
    assert rs[1..][j] == rs[j + 1];
  }

  lemma FreeFront(g: Region, rest: seq<Region>, p: nat)
    ensures IsFree([g] + rest, p) <==> RegionFree(g, p) || IsFree(rest, p)
  {
    if IsFree(rest, p) {
      var j :| 0 <= j < |rest| && RegionFree(rest[j], p);
      assert ([g] + rest)[j + 1] == rest[j];
    }
    if RegionFree(g, p) {
      assert ([g] + rest)[0] == g;
    }
  }

  lemma {:induction false} HighestAbove(rs: seq<Region>, budget: nat, p: nat)
    requires budget > 0 && Measure(rs) > 0 && forall j :: 0 <= j < |rs| ==> p < rs[j].base <= rs[j].end
    ensures Highest(rs, budget) >= p
  {
    if Span(rs[0]) == 0 {
      HighestAbove(rs[1..], budget, p);
    }
  }

  lemma {:induction false} NothingCounted(rs: seq<Region>, budget: nat)
    requires Measure(rs) == 0
    ensures Highest(rs, budget) == 0
  {
    if rs != [] {
      NothingCounted(rs[1..], budget);
    }
  }
}
