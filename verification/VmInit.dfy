/** Building and trimming the region table in place (Kernel/Kernel/i386/i386_vm_init.c), against the table value of
    `MemoryRegions`. */
module VmInit {
  import opened Common
  import opened MemoryRegions

  class VmInit {
    // pmap_memory_regions and its count
    const regions: array<Region>
    var count: nat
    // pmap_reserved_range_indices and its fill
    const reservedIndices: array<nat>
    var lastReserved: nat
    var reservedRanges: nat
    var availEnd: nat
    var availRemaining: nat

    constructor ()
      ensures regions.Length == MAX_REGIONS && reservedIndices.Length == MAX_RESERVED_RANGES
      ensures fresh(regions) && fresh(reservedIndices)
    {
      regions := new Region[MAX_REGIONS](_ => Region(0, 0, 0, 0, 0, 0));
      reservedIndices := new nat[MAX_RESERVED_RANGES](_ => 0);
      count, lastReserved, reservedRanges, availEnd, availRemaining := 0, 0, 0, 0, 0;
    }

    /** The memory holds table `t`. */
    ghost predicate Holds(t: Table)
      reads this, regions, reservedIndices
    {
      && regions.Length == MAX_REGIONS && reservedIndices.Length == MAX_RESERVED_RANGES
      && count <= MAX_REGIONS && regions[..count] == t.regions
      && lastReserved <= reservedRanges <= MAX_RESERVED_RANGES && reservedIndices[..lastReserved] == t.reservedIndices
      && reservedRanges == t.reservedRanges && availEnd == t.availEnd && availRemaining == t.availRemaining
      && (t.prev.Some? ==> t.prev.value < count)
    }

    /** The accounting and merging at the end of the loop body; the new region is already in slot `pm`. */
    method Account(pm: nat, prev: Option<nat>, ghost t: Table, ghost g: Region) returns (newPrev: Option<nat>)
      requires Holds(t) && prev == t.prev && pm == count < MAX_REGIONS && regions[pm] == g && g.base <= g.end
      modifies this`count, this`availEnd, this`availRemaining, regions
      ensures Holds(Place(t, g)) && newPrev == Place(t, g).prev
    {
      if regions[pm].end * PAGE > availEnd {
        availEnd := regions[pm].end * PAGE;
      }
      availRemaining := availRemaining + (regions[pm].end - regions[pm].base);
      var coalescingPermitted :=
        prev.Some? && regions[pm].attribute == regions[prev.value].attribute && !IsReserved(regions[pm].attribute);
      if prev.Some? && regions[pm].kind == regions[prev.value].kind && coalescingPermitted
         && regions[pm].base == regions[pm].allocUp && regions[prev.value].end == regions[prev.value].allocDown
         && regions[pm].base == regions[prev.value].end + 1 {
        regions[prev.value] := regions[prev.value].(end := regions[pm].end, allocDown := regions[pm].allocDown);
        newPrev := prev;
      } else {
        count := count + 1;
        newPrev := Some(pm);
      }
    }

    method RecordReserved(ghost t: Table)
      requires Holds(t) && lastReserved < reservedRanges
      modifies this`lastReserved, reservedIndices
      ensures Holds(Index(t)) && lastReserved == old(lastReserved) + 1
    {
      reservedIndices[lastReserved] := count;
      lastReserved := lastReserved + 1;
    }

    /** One turn of the loop; false stands for the panic. */
    method AddRange(r: EfiRange, fap: nat, kernelBase: nat, prev: Option<nat>, ghost t: Table)
      returns (ok: bool, newPrev: Option<nat>)
      requires Holds(t) && prev == t.prev && count < MAX_REGIONS && (Spans(r, fap) ==> count + 1 < MAX_REGIONS)
      modifies this, regions, reservedIndices
      ensures ok == Step(t, r, fap, kernelBase).Some?
      ensures ok ==> Holds(Step(t, r, fap, kernelBase).value) && newPrev == Step(t, r, fap, kernelBase).value.prev
    {
      var base, top, empty := ClipRange(r);
      if empty {
        return true, prev;
      }
      var kind := RegionKind(r.kind);
      if IsRuntime(r.attribute) || kind != CONVENTIONAL || top < LOWMEM_RESERVED {
        return true, None;
      }
      assert Pages(r) == Some((base, top));
      if IsReserved(r.attribute) {
        reservedRanges := reservedRanges + 1;
        if reservedRanges > MAX_RESERVED_RANGES {
          return false, None;
        }
      }
      ghost var u := CountReserved(t, r);
      hide AddLow, AddSplit, AddWhole, Clip, IsReserved;
      ok := true;
      if top < fap {
        newPrev := PlaceLow(r, base, top, kernelBase, prev, u);
      } else if base < fap && top > fap {
        newPrev := PlaceSplit(r, base, top, fap, prev, u);
      } else {
        newPrev := PlaceWhole(r, base, top, prev, u);
      }
    }

    /** Page numbers of a range, without the first and the last page of all. */
    method ClipRange(r: EfiRange) returns (base: nat, top: nat, empty: bool)
      ensures Clip(r) == if empty then None else Some((base, top))
    {
      base := r.physicalStart / PAGE % UINT32;
      top := (r.physicalStart / PAGE + r.numberOfPages + UINT64 - 1) % UINT32;
      if base == 0 {
        base := base + 1;
      }
      if (top + 1) % UINT32 == 0 {
        top := top - 1;
      }
      empty := top < base;
    }

    method PlaceWhole(r: EfiRange, base: nat, top: nat, prev: Option<nat>, ghost u: Table)
      returns (newPrev: Option<nat>)
      requires Holds(u) && prev == u.prev && count < MAX_REGIONS && Pages(r) == Some((base, top))
      requires IsReserved(r.attribute) ==> lastReserved < reservedRanges
      modifies this, regions, reservedIndices
      ensures Holds(AddWhole(u, r)) && newPrev == AddWhole(u, r).prev
    {
      regions[count] := Region(base, top, base, top, CONVENTIONAL, r.attribute);
      ghost var v := u;
      if IsReserved(r.attribute) {
        RecordReserved(u);
        v := Index(u);
      }
      newPrev := Account(count, prev, v, Piece(r, base, top, base, top));
    }

    method PlaceLow(r: EfiRange, base: nat, top: nat, kernelBase: nat, prev: Option<nat>, ghost u: Table)
      returns (newPrev: Option<nat>)
      requires Holds(u) && prev == u.prev && count < MAX_REGIONS && Pages(r) == Some((base, top))
      requires IsReserved(r.attribute) ==> lastReserved < reservedRanges
      modifies this, regions, reservedIndices
      ensures Holds(AddLow(u, r, kernelBase)) && newPrev == AddLow(u, r, kernelBase).prev
    {
      var low := if base >= LOWMEM_RESERVED then base else LOWMEM_RESERVED;
      if IsReserved(r.attribute) && top < kernelBase {
        regions[count] := Region(low, top, low, top, CONVENTIONAL, r.attribute);
        RecordReserved(u);
        newPrev := Account(count, prev, Index(u), Piece(r, low, top, low, top));
      } else {
        regions[count] := Region(low, top, top + 1, top, CONVENTIONAL, r.attribute);
        newPrev := Account(count, prev, u, Piece(r, low, top, top + 1, top));
      }
    }

    method PlaceSplit(r: EfiRange, base: nat, top: nat, fap: nat, prev: Option<nat>, ghost u: Table)
      returns (newPrev: Option<nat>)
      requires Holds(u) && prev == u.prev && count + 1 < MAX_REGIONS && Pages(r) == Some((base, top))
        && base < fap < top
      requires IsReserved(r.attribute) ==> lastReserved < reservedRanges
      modifies this, regions, reservedIndices
      ensures Holds(AddSplit(u, r, fap)) && newPrev == AddSplit(u, r, fap).prev
    {
      regions[count] := Region(base, fap - 1, fap, fap - 1, CONVENTIONAL, r.attribute);
      count := count + 1;
      regions[count] := Region(fap, top, fap, top, CONVENTIONAL, r.attribute);
      ghost var v := u.(regions := u.regions + [Piece(r, base, fap - 1, fap, fap - 1)]);
      if IsReserved(r.attribute) {
        RecordReserved(v);
        v := Index(v);
      }
      newPrev := Account(count, prev, v, Piece(r, fap, top, fap, top));
    }

    /** The loop over the memory map.  A range around the first available page must not come when only one slot is
        left: the source would write its second half past the table. */
    method ReadMemoryMap(rs: seq<EfiRange>, fap: nat, kernelBase: nat) returns (ok: bool)
      requires regions.Length == MAX_REGIONS && reservedIndices.Length == MAX_RESERVED_RANGES
      requires forall n :: 0 <= n < |rs| && Spans(rs[n], fap) && Build(rs[..n], fap, kernelBase).Some? ==>
                 |Build(rs[..n], fap, kernelBase).value.regions| != MAX_REGIONS - 1
      modifies this, regions, reservedIndices
      ensures ok == Build(rs, fap, kernelBase).Some?
      ensures ok ==> Holds(Build(rs, fap, kernelBase).value)
    {
      count, lastReserved, reservedRanges, availEnd, availRemaining := 0, 0, 0, 0, 0;
      var prev: Option<nat> := None;
      for i := 0 to |rs|
        invariant Build(rs[..i], fap, kernelBase).Some? && Holds(Build(rs[..i], fap, kernelBase).value)
        invariant prev == Build(rs[..i], fap, kernelBase).value.prev
      {
        assert rs[..i + 1][..i] == rs[..i];
        if count >= MAX_REGIONS {
          StaysFull(rs, i, fap, kernelBase);
          return true;
        }
        ghost var t := Build(rs[..i], fap, kernelBase).value;
        ok, prev := AddRange(rs[i], fap, kernelBase, prev, t);
        if !ok {
          StaysPanicked(rs, i + 1, fap, kernelBase);
          return;
        }
      }
      assert rs[..|rs|] == rs;
      ok := true;
    }

    /** The maxmem loop: `pagesToUse` is the budget left after the discarded pages. */
    method TrimRegions(pagesToUse: nat)
      requires count <= regions.Length
      requires forall j :: 0 <= j < count ==> regions[j].base <= regions[j].end
      modifies this`count, this`availEnd, regions
      ensures count <= regions.Length && regions[..count] == Trim(old(regions[..count]), pagesToUse)
      ensures availEnd == (Highest(old(regions[..count]), pagesToUse) + 1) * PAGE
    {
      hide Trim, Highest;
      ghost var rs := regions[..count];
      var pages: nat, cur: nat, highest: nat := pagesToUse, 0, 0;
      ghost var done: seq<Region> := [];
      while cur < count && pages > 0
        modifies regions
        invariant cur <= count && regions[..cur] == done && regions[cur..count] == rs[cur..]
        invariant Trim(rs, pagesToUse) == done + Trim(rs[cur..], pages)
        invariant Highest(rs, pagesToUse) == Max(highest, Highest(rs[cur..], pages))
      {
        ghost var g, rest := regions[cur], rs[cur + 1..];
        assert regions[cur..count][0] == rs[cur..][0] == rs[cur];
        assert rs[cur..] == [g] + rest;
        TrimFirst(g, rest, pages, done);
        TrimNothing(rest, 0);
        var curEnd;
        curEnd, pages, highest := CountPages(regions[cur], pages, highest);
        if pages == 0 {
          regions[cur] := regions[cur].(end := curEnd, allocDown := curEnd);
        }
        done := done + [regions[cur]];
        cur := cur + 1;
      }
      TrimNothing(rs[cur..], pages);
      count := cur;
      availEnd := (highest + 1) * PAGE;
    }

    /** The inner loop: counts pages of one region while the budget lasts. */
    method CountPages(g: Region, budget: nat, top: nat) returns (curEnd: nat, pages: nat, highest: nat)
      requires g.base <= g.end && budget > 0
      ensures curEnd == g.base + (if Span(g) < budget then Span(g) else budget)
      ensures pages == if Span(g) < budget then budget - Span(g) else 0
      ensures highest == if Span(g) == 0 then top else Max(top, curEnd - 1)
    {
      curEnd, pages, highest := g.base, budget, top;
      while curEnd < g.end && pages > 0
        invariant g.base <= curEnd <= g.end && pages + (curEnd - g.base) == budget
        invariant highest == if curEnd == g.base then top else Max(top, curEnd - 1)
        decreases g.end - curEnd
      {
        if curEnd > highest {
          highest := curEnd;
        }
        pages := pages - 1;
        curEnd := curEnd + 1;
      }
    }
  }

  lemma TrimNothing(rs: seq<Region>, budget: nat)
    requires rs == [] || budget == 0
    ensures Trim(rs, budget) == [] && Highest(rs, budget) == 0
  {
  }

  lemma TrimFirst(g: Region, rest: seq<Region>, budget: nat, done: seq<Region>)
    requires budget > 0
    ensures Span(g) < budget ==>
      && done + Trim([g] + rest, budget) == done + [g] + Trim(rest, budget - Span(g))
      && Highest([g] + rest, budget)
         == if Span(g) == 0 then Highest(rest, budget) else Max(g.end - 1, Highest(rest, budget - Span(g)))
    ensures Span(g) >= budget ==>
      && done + Trim([g] + rest, budget) == done + [g.(end := g.base + budget, allocDown := g.base + budget)]
      && Highest([g] + rest, budget) == g.base + budget - 1
  {
    assert ([g] + rest)[1..] == rest;
  }

  lemma {:induction false} StaysFull(rs: seq<EfiRange>, n: nat, fap: nat, kernelBase: nat)
    requires n <= |rs| && Build(rs[..n], fap, kernelBase).Some?
    requires |Build(rs[..n], fap, kernelBase).value.regions| >= MAX_REGIONS
    ensures Build(rs, fap, kernelBase) == Build(rs[..n], fap, kernelBase)
    decreases |rs| - n
  {
    if n == |rs| {
      assert rs[..n] == rs;
    } else {
      assert rs[..n + 1][..n] == rs[..n];
      StaysFull(rs, n + 1, fap, kernelBase);
    }
  }

  lemma {:induction false} StaysPanicked(rs: seq<EfiRange>, n: nat, fap: nat, kernelBase: nat)
    requires n <= |rs| && Build(rs[..n], fap, kernelBase).None?
    ensures Build(rs, fap, kernelBase).None?
    decreases |rs| - n
  {
    if n == |rs| {
      assert rs[..n] == rs;
    } else {
      assert rs[..n + 1][..n] == rs[..n];
      StaysPanicked(rs, n + 1, fap, kernelBase);
    }
  }
}
