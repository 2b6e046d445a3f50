/** The "no list, one list or many lists" container of class metadata: list_array_tt in
    Swift Compatibility Layer/Objective-C Runtime/runtime-private.h. */
module ListArray {
  import opened Common

  /** A list of metadata elements; the container never changes one. */
  class List<Element> {
    const elements: seq<Element>

    constructor (elements: seq<Element>)
      ensures this.elements == elements
    {
      this.elements := elements;
    }

    method Duplicate() returns (copy: List<Element>)
      ensures fresh(copy) && copy.elements == elements
    {
      copy := new List(elements);
    }
  }

  // ---------- the plain sequence the container stands for ----------

  ghost function Flatten<Element>(lists: seq<List<Element>>): seq<Element> {
    if lists == [] then [] else lists[0].elements + Flatten(lists[1..])
  }

  function Total<Element>(lists: seq<List<Element>>): nat {
    if lists == [] then 0 else |lists[0].elements| + Total(lists[1..])
  }

  /** The total of the list lengths is the length of the whole sequence. */
  lemma {:induction false} TotalIsLength<Element>(lists: seq<List<Element>>)
    ensures Total(lists) == |Flatten(lists)|
  {
    if lists != [] {
      TotalIsLength(lists[1..]);
    }
  }

  lemma {:induction false} FlattenConcat<Element>(a: seq<List<Element>>, b: seq<List<Element>>)
    ensures Flatten(a + b) == Flatten(a) + Flatten(b)
  {
    if a == [] {
      assert a + b == b;
    } else {
      FlattenConcat(a[1..], b);
      assert (a + b)[1..] == a[1..] + b && (a + b)[0] == a[0];
      assert a[0].elements + (Flatten(a[1..]) + Flatten(b)) == a[0].elements + Flatten(a[1..]) + Flatten(b);
    }
  }

  lemma TotalStep<Element>(lists: seq<List<Element>>, i: nat)
    requires i < |lists|
    ensures Total(lists[..i + 1]) == Total(lists[..i]) + |lists[i].elements|
    ensures Flatten(lists[..i + 1]) == Flatten(lists[..i]) + lists[i].elements
  {
    assert lists[..i + 1] == lists[..i] + [lists[i]];
    FlattenConcat(lists[..i], [lists[i]]);
    assert Flatten([lists[i]]) == lists[i].elements + Flatten([lists[i]][1..]);
    TotalIsLength(lists[..i + 1]);
    TotalIsLength(lists[..i]);
  }

  lemma TotalOne<Element>(lists: seq<List<Element>>, i: nat)
    requires i < |lists|
    ensures Total(lists[..i + 1]) == Total(lists[..i]) + |lists[i].elements|
  {
    TotalStep(lists, i);
  }

  lemma NoTotal<Element>(lists: seq<List<Element>>)
    ensures Total(lists[..0]) == 0
  {
  }

  /** The lists after a series of attachments: each batch goes in front of everything before it. */
  ghost function AttachedAll<Element>(start: seq<List<Element>>, batches: seq<seq<List<Element>>>): seq<List<Element>>
    decreases |batches|
  {
    if batches == [] then start else AttachedAll(batches[0] + start, batches[1..])
  }

  /** An element of a later batch hides every earlier one: the last batch leads, and the earlier ones follow as
      they were. */
  lemma {:induction false} LastBatchLeads<Element>(start: seq<List<Element>>, batches: seq<seq<List<Element>>>,
                                                   last: seq<List<Element>>)
    ensures AttachedAll(start, batches + [last]) == last + AttachedAll(start, batches)
    ensures Flatten(AttachedAll(start, batches + [last])) == Flatten(last) + Flatten(AttachedAll(start, batches))
    decreases |batches|
  {
    if batches == [] {
      assert (batches + [last])[1..] == [];
    } else {
      assert (batches + [last])[1..] == batches[1..] + [last];
      LastBatchLeads(batches[0] + start, batches[1..], last);
    }
    FlattenConcat(last, AttachedAll(start, batches));
  }

  // ---------- the container ----------

  /** The word of the container: a list pointer, null for none, or a flagged pointer to an array of lists. The array
      holds exactly as many lists as its count field says. */
  datatype Word<Element> = Pointer(list: List?<Element>) | Flagged(lists: array<List?<Element>>)

  ghost predicate NoNulls<Element>(s: seq<List?<Element>>) {
    forall i :: 0 <= i < |s| ==> s[i] != null
  }

  ghost function NonNull<Element>(s: seq<List?<Element>>): (r: seq<List<Element>>)
    requires NoNulls(s)
    ensures |r| == |s| && forall i :: 0 <= i < |s| ==> r[i] == s[i]
  {
    if s == [] then [] else [s[0]] + NonNull(s[1..])
  }

  class ListArrayTT<Element> {
    var word: Word<Element>

    ghost function Repr(): set<object>
      reads this
    {
      if word.Flagged? then {this, word.lists} else {this}
    }

    /** No lists are a null pointer, one list is a plain pointer, and more are an array without null entries. */
    ghost predicate Valid()
      reads this, Repr()
    {
      word.Flagged? ==> 2 <= word.lists.Length < UINT32 && NoNulls(word.lists[..])
    }

    /** The lists in order. */
    ghost function Lists(): (lists: seq<List<Element>>)
      requires Valid()
      reads this, Repr()
    {
      match word
      case Pointer(list) => if list == null then [] else [list]
      case Flagged(lists) => NonNull(lists[..])
    }

    constructor ()
      ensures Valid() && Lists() == [] && fresh(Repr())
    {
      word := Pointer(null);
    }

    method CountLists() returns (n: nat)
      requires Valid()
      ensures n == |Lists()|
    {
      if word.Flagged? {
        n := word.lists.Length;
      } else if word.list != null {
        n := 1;
      } else {
        n := 0;
      }
    }

    /** What the list pointer `i` places after the first one points at. */
    method ListAt(i: nat) returns (list: List<Element>)
      requires Valid() && i < |Lists()|
      ensures list == Lists()[i]
    {
      if word.Flagged? {
        list := word.lists[i];
      } else {
        list := word.list;
      }
    }

    /** Puts the added lists in front of the present ones, in whichever of the three forms they are held. */
    method AttachLists(added: array<List<Element>>, addedCount: nat)
      requires Valid() && addedCount <= added.Length && |Lists()| + addedCount < UINT32
      requires added as object !in Repr()
      modifies this
      ensures Valid() && Lists() == added[..addedCount] + old(Lists())
      ensures fresh(Repr() - old(Repr()))
    {
      if addedCount == 0 {
        assert added[..0] + Lists() == Lists();
        return;
      }
      ghost var before := Lists();
      if word.Flagged? {
        var grown := MoveUp(word.lists, addedCount);
        CopyIn(added, addedCount, grown);
        word := Flagged(grown);
        InFront(grown[..], added[..addedCount], before);
      } else if word.list == null && addedCount == 1 {
        word := Pointer(added[0]);
        assert Lists() == added[..addedCount] + before;
      } else {
        var oldList := word.list;
        var oldCount := if oldList != null then 1 else 0;
        var grown := new List?<Element>[oldCount + addedCount];
        if oldList != null {
          grown[addedCount] := oldList;
        }
        CopyIn(added, addedCount, grown);
        word := Flagged(grown);
        InFront(grown[..], added[..addedCount], before);
      }
    }

    /** The number of elements of all lists, in 32 bits. */
    method Count() returns (result: nat)
      requires Valid()
      ensures result == |Flatten(Lists())| % UINT32
    {
      hide Flatten, NonNull, Total;
      result := 0;
      var end := CountLists();
      NoTotal(Lists());
      var lists := 0;
      while lists != end
        invariant lists <= end
        invariant result == Total(Lists()[..lists]) % UINT32
        decreases end - lists
      {
        var list := ListAt(lists);
        TotalOne(Lists(), lists);
        result := (result + |list.elements|) % UINT32;
        lists := lists + 1;
      }
      assert Lists()[..end] == Lists();
      TotalIsLength(Lists());
    }

    /** A copy of the container in the same form, every list of which is new and equal to the original's. */
    method Duplicate() returns (result: ListArrayTT<Element>)
      requires Valid()
      ensures fresh(result) && result.Valid() && fresh(result.Repr())
      ensures |result.Lists()| == |Lists()|
      ensures forall i :: 0 <= i < |Lists()| ==>
        fresh(result.Lists()[i]) && result.Lists()[i].elements == Lists()[i].elements
      ensures result.word.Flagged? <==> word.Flagged?
    {
      result := new ListArrayTT();
      if word.Flagged? {
        var copy := DuplicateAll(word.lists);
        result.word := Flagged(copy);
      } else if word.list != null {
        var list := word.list.Duplicate();
        result.word := Pointer(list);
      }
    }
  }

  /** Where the first list with no element is; the number of lists when there is none. */
  function FirstEmpty<Element>(lists: seq<List<Element>>): (k: nat)
    ensures k <= |lists| && (forall i :: 0 <= i < k ==> lists[i].elements != [])
    ensures k < |lists| ==> lists[k].elements == []
  {
    if lists == [] || lists[0].elements == [] then 0 else 1 + FirstEmpty(lists[1..])
  }

  /** What a walk has read when it has passed `i` lists, none of them empty, and `m` elements of the next. */
  ghost predicate Walked<Element>(all: seq<List<Element>>, i: nat, m: nat, out: seq<Element>) {
    && i <= |all| && (i < |all| ==> m <= |all[i].elements|)
    && (forall k :: 0 <= k < i ==> all[k].elements != [])
    && out == Flatten(all[..i]) + if i < |all| then all[i].elements[..m] else []
  }

  lemma ReadOne<Element>(all: seq<List<Element>>, i: nat, m: nat, out: seq<Element>)
    requires Walked(all, i, m, out) && i < |all| && m < |all[i].elements|
    ensures var more := out + [all[i].elements[m]];
      if m + 1 < |all[i].elements| then Walked(all, i, m + 1, more) else Walked(all, i + 1, 0, more)
  {
    var elements := all[i].elements;
    assert elements[..m + 1] == elements[..m] + [elements[m]];
    TotalStep(all, i);
    assert m + 1 == |elements| ==> elements[..m + 1] == elements;
  }

  /** Walks the elements of a container that is not changed meanwhile. `lists` counts the list pointers passed, `m` the
      elements of the current list passed; `m` and `mEnd` mean nothing past the last list. */
  class Iterator<Element> {
    const owner: ListArrayTT<Element>
    ghost const all: seq<List<Element>>
    const listsEnd: nat
    var lists: nat
    var m: nat
    var mEnd: nat

    ghost predicate Unchanged()
      reads owner, owner.Repr()
    {
      owner.Valid() && owner.Lists() == all
    }

    ghost predicate Valid()
      reads this
    {
      lists <= listsEnd == |all| && (lists < listsEnd ==> m <= mEnd == |all[lists].elements|)
    }

    constructor (owner: ListArrayTT<Element>, begin: nat, end: nat)
      requires owner.Valid() && begin <= end == |owner.Lists()|
      ensures Valid() && Unchanged() && this.owner == owner && all == owner.Lists() && listsEnd == end
      ensures lists == begin && (begin < end ==> m == 0)
    {
      this.owner, all, lists, listsEnd := owner, owner.Lists(), begin, end;
      new;
      if begin != end {
        var list := owner.ListAt(begin);
        m, mEnd := 0, |list.elements|;
      }
    }

    /** Lists and elements passed; past the last list the element counts for nothing. */
    function Position(): (nat, nat)
      reads this
    {
      (lists, if lists == listsEnd then 0 else m)
    }

    /** Iterators of one container differ exactly by their positions. */
    method Differs(rhs: Iterator<Element>) returns (differs: bool)
      requires rhs.listsEnd == listsEnd
      ensures differs <==> Position() != rhs.Position()
    {
      if lists != rhs.lists {
        return true;
      }
      if lists == listsEnd {
        return false;
      }
      return m != rhs.m;
    }

    method Current() returns (element: Element)
      requires Valid() && Unchanged() && lists < listsEnd && m < mEnd
      ensures element == all[lists].elements[m]
    {
      var list := owner.ListAt(lists);
      element := list.elements[m];
    }

    /** A walk from the beginning has read `out`. */
    ghost predicate HasRead(out: seq<Element>)
      reads this
    {
      && Valid() && Walked(all, lists, if lists < listsEnd then m else 0, out)
      && (lists < listsEnd ==> m == 0 || m < mEnd)
    }

    /** The body of a loop over the elements: take the current one, and step on. */
    method Read(out: seq<Element>) returns (more: seq<Element>)
      requires HasRead(out) && Unchanged() && lists < listsEnd && m < mEnd
      modifies this
      ensures HasRead(more)
      ensures lists > old(lists) || (lists == old(lists) && m > old(m) && mEnd == old(mEnd))
    {
      hide Walked;
      var element := Current();
      ReadOne(all, lists, m, out);
      more := out + [element];
      var _ := Next();
    }

    /** One step on. The step asserts that the current list is not used up; `ok` is false when that fails. */
    method Next() returns (ok: bool)
      requires Valid() && Unchanged() && lists < listsEnd
      modifies this
      ensures Valid() && (ok <==> old(m) < old(mEnd))
      ensures !ok ==> unchanged(this)
      ensures ok && old(m) + 1 == old(mEnd) ==> lists == old(lists) + 1 && (lists < listsEnd ==> m == 0)
      ensures ok && old(m) + 1 < old(mEnd) ==> lists == old(lists) && m == old(m) + 1 && mEnd == old(mEnd)
    {
      if m == mEnd {
        return false;
      }
      m := m + 1;
      if m == mEnd {
        lists := lists + 1;
        if lists != listsEnd {
          var list := owner.ListAt(lists);
          m, mEnd := 0, |list.elements|;
        }
      }
      ok := true;
    }
  }

  /** Reads a container from begin to end. The walk goes through exactly when no list is empty, and then reads the
      whole sequence; otherwise it breaks off at the first empty list, having read everything before it. */
  method ReadAll<Element>(owner: ListArrayTT<Element>) returns (ok: bool, out: seq<Element>)
    requires owner.Valid()
    ensures ok <==> forall i :: 0 <= i < |owner.Lists()| ==> owner.Lists()[i].elements != []
    ensures ok ==> out == Flatten(owner.Lists())
    ensures out == Flatten(owner.Lists()[..FirstEmpty(owner.Lists())])
  {
    hide Flatten, Walked;
    var n := owner.CountLists();
    var it := new Iterator(owner, 0, n);
    var end := new Iterator(owner, n, n);
    NothingRead(it.all);
    ok, out := Drain(it, end);
  }

  /** Of three lists with an empty one in the middle only the first is read. */
  method ReadPastEmptyList() returns (owner: ListArrayTT<int>, ok: bool, out: seq<int>)
    ensures owner.Valid() && Flatten(owner.Lists()) == [7, 8]
    ensures !ok && out == [7]
  {
    owner := new ListArrayTT();
    var front := new List<int>([7]);
    var empty := new List<int>([]);
    var back := new List<int>([8]);
    var added := new List<int>[] [front, empty, back];
    owner.AttachLists(added, 3);
    ghost var all := owner.Lists();
    assert all == [front, empty, back];
    assert all[1..] == [empty, back] && all[2..] == [back] && all[1..][1..] == [back] && [back][1..] == [];
    assert Flatten([back]) == [8] && Flatten([empty, back]) == [8];
    ok, out := ReadAll(owner);
    assert all[1].elements == [] && all[..1] == [front] && [front][1..] == [];
  }

  /** The loop from a begin iterator to an end iterator. */
  method Drain<Element>(it: Iterator<Element>, end: Iterator<Element>) returns (ok: bool, out: seq<Element>)
    requires it.Unchanged() && it !in it.owner.Repr() && it != end
    requires it.HasRead([]) && end.lists == end.listsEnd == it.listsEnd
    modifies it
    ensures ok <==> forall i :: 0 <= i < |it.all| ==> it.all[i].elements != []
    ensures ok ==> out == Flatten(it.all)
    ensures out == Flatten(it.all[..FirstEmpty(it.all)])
  {
    hide Flatten, Walked, FirstEmpty, NonNull;
    out := [];
    var more := it.Differs(end);
    while more
      invariant it.Unchanged() && it.HasRead(out) && (more <==> it.lists < it.listsEnd)
      decreases it.listsEnd - it.lists, it.mEnd - it.m
    {
      if it.m == it.mEnd {
        AllRead(it.all, it.lists, out);
        return false, out;
      }
      out := it.Read(out);
      more := it.Differs(end);
    }
    AllRead(it.all, it.listsEnd, out);
    ok := true;
  }

  lemma NothingRead<Element>(all: seq<List<Element>>)
    ensures Walked(all, 0, 0, [])
  {
  }

  lemma AllRead<Element>(all: seq<List<Element>>, i: nat, out: seq<Element>)
    requires Walked(all, i, 0, out) && (i < |all| ==> all[i].elements == [])
    ensures i == FirstEmpty(all) && all[..|all|] == all && out == Flatten(all[..i])
    ensures i == |all| <==> forall i :: 0 <= i < |all| ==> all[i].elements != []
  {
  }

  /** A block of `n` entries that begins like the old one. */
  method Reallocate<Element>(a: array<List?<Element>>, n: nat) returns (b: array<List?<Element>>)
    requires a.Length <= n
    ensures fresh(b) && b.Length == n && b[..a.Length] == a[..]
  {
    b := new List?<Element>[n];
    forall k | 0 <= k < a.Length {
      b[k] := a[k];
    }
  }

  /** A copy of the block, with every list in it replaced by a copy. */
  method DuplicateAll<Element>(a: array<List?<Element>>) returns (copy: array<List?<Element>>)
    requires NoNulls(a[..])
    ensures fresh(copy) && copy.Length == a.Length
    ensures forall k :: 0 <= k < a.Length ==> copy[k] != null && fresh(copy[k]) && copy[k].elements == a[k].elements
  {
    copy := Reallocate(a, a.Length);
    for i := 0 to a.Length
      invariant forall k :: 0 <= k < i ==> copy[k] != null && fresh(copy[k]) && copy[k].elements == a[k].elements
      invariant a[..] == old(a[..])
    {
      assert a[..][i] != null;
      copy[i] := a[i].Duplicate();
    }
  }

  /** A larger block in which the old entries have moved up by `n`. */
  method MoveUp<Element>(a: array<List?<Element>>, n: nat) returns (b: array<List?<Element>>)
    ensures fresh(b) && b.Length == n + a.Length && b[n..] == a[..]
  {
    b := Reallocate(a, n + a.Length);
    ghost var kept := b[..];
    forall k | 0 <= k < a.Length {
      b[n + k] := b[k];
    }
    assert forall k :: 0 <= k < a.Length ==> b[n + k] == kept[k] == a[k];
  }

  method CopyIn<Element>(added: array<List<Element>>, n: nat, to: array<List?<Element>>)
    requires n <= added.Length && n <= to.Length && to as object != added as object
    modifies to
    ensures forall k :: 0 <= k < n ==> to[k] == added[k]
    ensures to[n..] == old(to[n..])
  {
    forall k | 0 <= k < n {
      to[k] := added[k];
    }
  }

  lemma InFront<Element>(now: seq<List?<Element>>, added: seq<List<Element>>, before: seq<List<Element>>)
    requires |now| == |added| + |before|
    requires forall k :: 0 <= k < |added| ==> now[k] == added[k]
    requires forall k :: 0 <= k < |before| ==> now[|added|..][k] == before[k]
    ensures NoNulls(now) && NonNull(now) == added + before
  {
    assert forall k :: |added| <= k < |now| ==> now[k] == now[|added|..][k - |added|];
  }
}
