/** The device tree routines over the flattened bytes (Kernel/Platform/DeviceTree.c).  A pointer is an offset, NULL is
    None; the ghost node is the tree that lies at the pointer. */
module DeviceTree {
  import opened Common
  import opened DeviceTreeFormat

  predicate NodeAt(mem: seq<Byte>, at: nat, n: Node) {
    NodeOk(n) && LiesAt(mem, at, Encode(n))
  }

  predicate PropsAt(mem: seq<Byte>, at: nat, ps: seq<Prop>) {
    (forall i :: 0 <= i < |ps| ==> PropOk(ps[i])) && LiesAt(mem, at, EncodeProps(ps))
  }

  predicate NodesAt(mem: seq<Byte>, at: nat, ns: seq<Node>) {
    (forall i :: 0 <= i < |ns| ==> NodeOk(ns[i])) && LiesAt(mem, at, EncodeAll(ns))
  }

  function ReadWord(mem: seq<Byte>, at: nat): nat
    requires at + 4 <= |mem|
  {
    Word(mem[at..at + 4])
  }

  /** The header and the two parts of a node. */
  lemma Header(mem: seq<Byte>, at: nat, n: Node)
    requires NodeAt(mem, at, n)
    ensures at + 8 <= |mem| && ReadWord(mem, at) == |n.props| && ReadWord(mem, at + 4) == |n.children|
    ensures PropsAt(mem, at + 8, n.props)
    ensures NodesAt(mem, at + 8 + |EncodeProps(n.props)|, n.children)
    ensures |Encode(n)| == 8 + |EncodeProps(n.props)| + |EncodeAll(n.children)|
  {
    hide Word, LittleEndian, EncodeProps, EncodeAll, LiesAt, NodeOk;
    assert (forall i :: 0 <= i < |n.props| ==> PropOk(n.props[i]))
      && (forall i :: 0 <= i < |n.children| ==> NodeOk(n.children[i]))
      && |n.props| < UINT32 && |n.children| < UINT32 by { Limits(n); }
    var a, b := LittleEndian(|n.props|), LittleEndian(|n.children|);
    var ps, cs := EncodeProps(n.props), EncodeAll(n.children);
    assert Encode(n) == a + (b + (ps + cs));
    LiesApart(mem, at, a, b + (ps + cs));
    LiesApart(mem, at + 4, b, ps + cs);
    LiesApart(mem, at + 8, ps, cs);
    ReadBack(mem, at, |n.props|);
    ReadBack(mem, at + 4, |n.children|);
  }

  lemma Limits(n: Node)
    requires NodeOk(n)
    ensures |n.props| < UINT32 && |n.children| < UINT32
    ensures forall i :: 0 <= i < |n.props| ==> PropOk(n.props[i])
    ensures forall i :: 0 <= i < |n.children| ==> NodeOk(n.children[i])
  {
  }

  lemma ReadBack(mem: seq<Byte>, at: nat, w: nat)
    requires w < UINT32 && LiesAt(mem, at, LittleEndian(w))
    ensures at + 4 <= |mem| && ReadWord(mem, at) == w
  {
    WordRoundTrip(w);
  }

  /** The fields of the first of several properties. */
  lemma FirstProp(mem: seq<Byte>, at: nat, ps: seq<Prop>)
    requires ps != [] && PropsAt(mem, at, ps)
    ensures var p := ps[0];
      && at + 36 <= |mem| && ReadWord(mem, at + 32) == |p.value|
      && LiesAt(mem, at, p.name + Zeros(NAME_FIELD - |p.name|))
      && LiesAt(mem, at + 36, p.value + Zeros(Round4(|p.value|) - |p.value|))
      && |EncodeProp(p)| == 36 + Round4(|p.value|)
      && PropsAt(mem, at + |EncodeProp(p)|, ps[1..])
  {
    hide LiesAt, LittleEndian, Word, Zeros, ReadWord;
    var p := ps[0];
    var name, len := p.name + Zeros(NAME_FIELD - |p.name|), LittleEndian(|p.value|);
    var value := p.value + Zeros(Round4(|p.value|) - |p.value|);
    LiesApart(mem, at, EncodeProp(p), EncodeProps(ps[1..]));
    assert EncodeProp(p) == name + (len + value);
    LiesApart(mem, at, name, len + value);
    LiesApart(mem, at + 32, len, value);
    ReadBack(mem, at + 32, |p.value|);
  }

  lemma PropsFront(ps: seq<Prop>)
    requires ps != [] && forall i :: 0 <= i < |ps| ==> PropOk(ps[i])
    ensures |EncodeProps(ps)| == |EncodeProp(ps[0])| + |EncodeProps(ps[1..])|
  {
  }

  lemma NothingEncoded()
    ensures EncodeProps([]) == [] && EncodeAll([]) == []
  {
  }

  lemma NodesFront(ns: seq<Node>)
    requires ns != [] && forall i :: 0 <= i < |ns| ==> NodeOk(ns[i])
    ensures |EncodeAll(ns)| == |Encode(ns[0])| + |EncodeAll(ns[1..])|
  {
  }

  /** Comparing the name and the value of a property in memory. */
  lemma FirstPropStrings(mem: seq<Byte>, at: nat, ps: seq<Prop>, s: seq<Byte>)
    requires ps != [] && PropsAt(mem, at, ps) && 0 !in s
    ensures StrcmpEqual(mem, at, s) <==> ps[0].name == s
    ensures Comparable(ps[0], s) ==> (StrcmpEqual(mem, at + 36, s) <==> CString(ps[0].value) == s)
  {
    hide LiesAt, StrcmpEqual, CString, EncodeProps, EncodeProp, Comparable;
    var p := ps[0];
    FirstProp(mem, at, ps);
    PaddedString(mem, at, p.name, NAME_FIELD - |p.name|, s);
    CStringOfName(p.name);
    if Comparable(p, s) {
      ComparablePadded(p, s);
      PaddedString(mem, at + 36, p.value, Round4(|p.value|) - |p.value|, s);
    }
  }

  lemma ComparablePadded(p: Prop, s: seq<Byte>)
    requires Comparable(p, s)
    ensures 0 in p.value || Round4(|p.value|) > |p.value| || !(p.value <= s)
  {
  }

  lemma PaddedString(mem: seq<Byte>, at: nat, v: seq<Byte>, pad: nat, s: seq<Byte>)
    requires LiesAt(mem, at, v + Zeros(pad)) && (0 in v || pad > 0 || !(v <= s)) && 0 !in s
    ensures StrcmpEqual(mem, at, s) <==> CString(v) == s
  {
    assert if pad > 0 then (v + Zeros(pad))[|v|] == 0 else v + Zeros(pad) == v;
    StrcmpOfField(mem, at, v + Zeros(pad), s);
    CStringPadded(v, pad);
  }

  lemma FirstNode(mem: seq<Byte>, at: nat, ns: seq<Node>)
    requires ns != [] && NodesAt(mem, at, ns)
    ensures NodeAt(mem, at, ns[0]) && NodesAt(mem, at + |Encode(ns[0])|, ns[1..])
  {
    hide LiesAt, Encode, NodeOk;
    LiesApart(mem, at, Encode(ns[0]), EncodeAll(ns[1..]));
  }

  class DeviceTree {
    const mem: seq<Byte>
    const root: Option<nat>
    var startingP: nat

    constructor (mem: seq<Byte>, base: Option<nat>)
      ensures this.mem == mem && root == base
    {
      this.mem, root, startingP := mem, base, 0;
    }

    // ---------- skipping ----------

    method SkipProperties(entry: Option<nat>, ghost n: Node) returns (r: Option<nat>)
      requires entry.Some? ==> NodeAt(mem, entry.value, n)
      ensures r == if entry.None? || n.props == [] then None else Some(entry.value + 8 + |EncodeProps(n.props)|)
    {
      hide LiesAt, PropOk, EncodeProps, EncodeProp, ReadWord, Encode, NodeOk;
      if entry.Some? {
        Header(mem, entry.value, n);
      }
      if entry.None? || ReadWord(mem, entry.value) == 0 {
        r := None;
      } else {
        var prop: nat := entry.value + 8;
        NothingEncoded();
        assert n.props[0..] == n.props;
        for k := 0 to ReadWord(mem, entry.value)
          invariant PropsAt(mem, prop, n.props[k..])
          invariant prop + |EncodeProps(n.props[k..])| == entry.value + 8 + |EncodeProps(n.props)|
        {
          FirstProp(mem, prop, n.props[k..]);
          PropsFront(n.props[k..]);
          assert n.props[k..][1..] == n.props[k + 1..];
          prop := prop + 36 + Round4(ReadWord(mem, prop + 32));
        }
        r := Some(prop);
      }
    }

    /** The end of a subtree, provided that all its nodes have properties. */
    method SkipTree(root: Option<nat>, ghost n: Node) returns (entry: Option<nat>)
      requires root.Some? ==> NodeAt(mem, root.value, n)
      ensures entry == if root.Some? && HasProps(n) then Some(root.value + |Encode(n)|) else None
      decreases root.Some?, n, 1
    {
      hide LiesAt, Encode, EncodeProps, NodeOk;
      entry := SkipProperties(root, n);
      if entry.None? {
        return;
      }
      Header(mem, root.value, n);
      entry := SkipChildren(entry.value, ReadWord(mem, root.value + 4), n);
    }

    /** The loop of skipTree. */
    method SkipChildren(first: nat, nChildren: nat, ghost n: Node) returns (entry: Option<nat>)
      requires NodesAt(mem, first, n.children) && nChildren == |n.children|
      ensures entry == if forall i :: 0 <= i < nChildren ==> HasProps(n.children[i])
                       then Some(first + |EncodeAll(n.children)|) else None
      decreases true, n, 0
    {
      ghost var cs, end := n.children, first + |EncodeAll(n.children)|;
      hide NodesAt, NodeAt, Encode, EncodeAll, RestAt, HasProps;
      entry := Some(first);
      AllRest(mem, first, cs);
      for k := 0 to nChildren
        invariant entry.Some? <==> forall i :: 0 <= i < k ==> HasProps(cs[i])
        invariant entry.Some? ==> RestAt(mem, entry.value, cs, k, end)
      {
        if entry.Some? {
          RestStep(mem, entry.value, cs, k, end);
        }
        entry := SkipTree(entry, cs[k]);
      }
      if entry.Some? {
        NoRest(mem, entry.value, cs, end);
      }
    }

    method GetFirstChild(parent: Option<nat>, ghost n: Node) returns (r: Option<nat>)
      requires parent.Some? ==> NodeAt(mem, parent.value, n)
      ensures r == if parent.None? || n.props == [] then None else Some(ChildOffset(n, parent.value, 0))
    {
      r := SkipProperties(parent, n);
    }

    method GetNextChild(sibling: Option<nat>, ghost n: Node) returns (r: Option<nat>)
      requires sibling.Some? ==> NodeAt(mem, sibling.value, n)
      ensures r == if sibling.Some? && HasProps(n) then Some(sibling.value + |Encode(n)|) else None
    {
      r := SkipTree(sibling, n);
    }

    // ---------- searching for a property ----------

    method DTFindEntry(propName: seq<Byte>, propValue: Option<seq<Byte>>, ghost n: Node) returns (r: Option<nat>)
      requires root.Some? ==> NodeAt(mem, root.value, n)
      requires 0 !in propName && (propValue.Some? ==> 0 !in propValue.value)
      requires root.Some? ==> SearchComparable(Listing(n, root.value), propName, propValue)
      modifies this`startingP
      ensures r == if root.None? then None else FirstMatch(Visible(Listing(n, root.value)), propName, propValue)
    {
      if root.None? {
        return None;
      }
      startingP := root.value;
      r := FindEntry(propName, propValue, n);
    }

    /** Searches the node under the cursor and then its children, moving the cursor over what has been read. */
    method FindEntry(propName: seq<Byte>, propValue: Option<seq<Byte>>, ghost n: Node) returns (r: Option<nat>)
      requires NodeAt(mem, startingP, n)
      requires 0 !in propName && (propValue.Some? ==> 0 !in propValue.value)
      requires SearchComparable(Listing(n, startingP), propName, propValue)
      modifies this`startingP
      ensures r == FirstMatch(Visible(Listing(n, old(startingP))), propName, propValue)
      ensures r.None? ==> startingP == StopOffset(Listing(n, old(startingP)), old(startingP) + |Encode(n)|)
      decreases n.props != [], n, 1
    {
      var nodeP := startingP;
      Header(mem, nodeP, n);
      if ReadWord(mem, nodeP) == 0 {
        return None;
      }
      startingP := nodeP + 8;
      var found := SearchProps(ReadWord(mem, nodeP), propName, propValue, n.props);
      if found {
        return Some(nodeP);
      }
      r := SearchChildren(nodeP, propName, propValue, n);
    }

    /** The loop over the properties of the current entry. */
    method SearchProps(nProperties: nat, propName: seq<Byte>, propValue: Option<seq<Byte>>, ghost ps: seq<Prop>)
      returns (found: bool)
      requires nProperties == |ps| && PropsAt(mem, startingP, ps) && 0 !in propName
      requires (propValue.Some? ==> 0 !in propValue.value) && PropsComparable(ps, propName, propValue)
      modifies this`startingP
      ensures found <==> exists i :: 0 <= i < |ps| && PropMatches(ps[i], propName, propValue)
      ensures !found ==> startingP == old(startingP) + |EncodeProps(ps)|
    {
      NothingEncoded();
      hide LiesAt, PropOk, EncodeProps, EncodeProp, StrcmpEqual, CString, Comparable, ReadWord;
      assert ps[0..] == ps;
      for k := 0 to nProperties
        invariant PropsAt(mem, startingP, ps[k..]) && PropsComparable(ps[k..], propName, propValue)
        invariant startingP + |EncodeProps(ps[k..])| == old(startingP) + |EncodeProps(ps)|
        invariant forall i :: 0 <= i < k ==> !PropMatches(ps[i], propName, propValue)
      {
        var propP := startingP;
        FirstProp(mem, propP, ps[k..]);
        assert ps[k..][1..] == ps[k + 1..] && ps[k..][0] == ps[k];
        FirstPropStrings(mem, propP, ps[k..], propName);
        PropsFront(ps[k..]);
        startingP := startingP + 36 + Round4(ReadWord(mem, propP + 32));
        if StrcmpEqual(mem, propP, propName) {
          if propValue.Some? {
            FirstPropStrings(mem, propP, ps[k..], propValue.value);
          }
          if propValue.None? || StrcmpEqual(mem, propP + 36, propValue.value) {
            assert PropMatches(ps[k], propName, propValue);
            return true;
          }
        }
      }
      assert ps[|ps|..] == [];
      found := false;
    }

    /** The loop over the children. */
    method SearchChildren(nodeP: nat, propName: seq<Byte>, propValue: Option<seq<Byte>>, ghost n: Node)
      returns (r: Option<nat>)
      requires NodeAt(mem, nodeP, n) && n.props != [] && startingP == nodeP + 8 + |EncodeProps(n.props)|
      requires 0 !in propName && (propValue.Some? ==> 0 !in propValue.value)
      requires SearchComparable(Listing(n, nodeP), propName, propValue)
      requires !NodeMatches(n, propName, propValue)
      modifies this`startingP
      ensures r == FirstMatch(Visible(Listing(n, nodeP)), propName, propValue)
      ensures r.None? ==> startingP == StopOffset(Listing(n, nodeP), nodeP + |Encode(n)|)
      decreases n.props != [], n, 0
    {
      hide LiesAt, Encode, Listing, ListingAll, StopOffset, Visible, FirstMatch, Nothing, ToRead, NodeMatches,
        SearchComparable;
      Header(mem, nodeP, n);
      ghost var cs, end, at: nat := n.children, nodeP + |Encode(n)|, startingP;
      ghost var read: seq<(nat, Node)> := [(nodeP, n)];
      StartChildren(mem, nodeP, n, propName, propValue);
      for k := 0 to ReadWord(mem, nodeP + 4)
        invariant ToRead(mem, read, at, cs[k..], Listing(n, nodeP), end)
        invariant Nothing(mem, read, at, startingP, propName, propValue)
      {
        assert cs[k..][1..] == cs[k + 1..] && cs[k..][0] == cs[k];
        ghost var rest := OneChildLess(mem, read, at, cs[k..], Listing(n, nodeP), end);
        ghost var start := startingP;
        ghost var z := NextNode(mem, read, at, cs[k], start, propName, propValue);
        NextComparable(mem, read, at, cs[k], z, start, rest, propName, propValue);
        r := FindEntry(propName, propValue, z);
        AfterChild(mem, read, at, cs[k], z, start, rest, end, propName, propValue);
        if r.Some? {
          return;
        }
        read, at := read + Listing(cs[k], at), at + |Encode(cs[k])|;
      }
      assert cs[|cs|..] == [];
      AllRead(mem, read, at, startingP, Listing(n, nodeP), end, propName, propValue);
      r := None;
    }

    // ---------- paths ----------

    /** Offset and size of the value of the first property of that name. */
    method DTGetProperty(entry: Option<nat>, name: seq<Byte>, ghost n: Node)
      returns (found: bool, value: nat, size: nat)
      requires (entry.Some? ==> NodeAt(mem, entry.value, n)) && 0 !in name
      ensures found <==> entry.Some? && PropertyOf(n.props, name).Some?
      ensures found ==> ValueAt(mem, value, size, PropertyOf(n.props, name).value)
    {
      found, value, size := false, 0, 0;
      if entry.Some? {
        Header(mem, entry.value, n);
      }
      if entry.None? || ReadWord(mem, entry.value) == 0 {
        return;
      }
      found, value, size := FindProperty(entry.value + 8, ReadWord(mem, entry.value), name, n.props);
    }

    /** The loop over the properties from `first` on. */
    method FindProperty(first: nat, nProperties: nat, name: seq<Byte>, ghost ps: seq<Prop>)
      returns (found: bool, value: nat, size: nat)
      requires PropsAt(mem, first, ps) && nProperties == |ps| && 0 !in name
      ensures found <==> PropertyOf(ps, name).Some?
      ensures found ==> ValueAt(mem, value, size, PropertyOf(ps, name).value)
    {
      hide PropsAt, EncodeProp, StrcmpEqual, PropertyOf, ReadWord, ValueAt;
      assert ps[0..] == ps;
      var prop: nat := first;
      for k := 0 to nProperties
        invariant PropsAt(mem, prop, ps[k..]) && PropertyOf(ps[k..], name) == PropertyOf(ps, name)
      {
        ghost var rest := ps[k..];
        assert rest[1..] == ps[k + 1..];
        FirstProp(mem, prop, rest);
        FirstPropStrings(mem, prop, rest, name);
        PropertyFirst(rest, name);
        if StrcmpEqual(mem, prop, name) {
          FirstValue(mem, prop, rest);
          return true, prop + 36, ReadWord(mem, prop + 32);
        }
        prop := prop + 36 + Round4(ReadWord(mem, prop + 32));
      }
      PropertyFirst(ps[|ps|..], name);
      found, value, size := false, 0, 0;
    }

    method FindChild(cur: nat, buf: seq<Byte>, ghost n: Node) returns (r: Option<nat>)
      requires NodeAt(mem, cur, n) && 0 !in buf && (n.props == [] || ChildNamesComparable(n.children, buf))
      ensures r == match DeviceTreeFormat.FindChild(n, buf)
                   case Some(i) => Some(ChildOffset(n, cur, i))
                   case None => None
    {
      hide LiesAt, Encode, NodesAt, NamedAt, ChildNamed, PropertyOf, StrcmpEqual, HasProps;
      Header(mem, cur, n);
      NamedChild(n, cur, buf);
      var nChildren := ReadWord(mem, cur + 4);
      if nChildren == 0 {
        return None;
      }
      var index: nat := 1;
      var child := GetFirstChild(Some(cur), n);
      ghost var cs, goal := n.children, DeviceTreeFormat.FindChild(n, buf);
      while true
        invariant 1 <= index <= nChildren
        invariant child.None? ==> goal.None?
        invariant child.Some? ==> NodesAt(mem, child.value, cs[index - 1..])
        invariant child.Some? ==> ChildNamesComparable(cs[index - 1..], buf)
        invariant child.Some? ==>
          NamedAt(cs[index - 1..], child.value, buf)
              == if goal.Some? then Some(ChildOffset(n, cur, goal.value)) else None
        decreases nChildren - index
      {
        ghost var rest, c := cs[index - 1..], cs[index - 1];
        assert rest[0] == c && rest[1..] == cs[index..];
        if child.Some? {
          FirstNode(mem, child.value, rest);
          NamedFirst(rest, child.value, buf);
        }
        var found, str, dummy := DTGetProperty(child, NAME, c);
        if !found {
          break;
        }
        NameString(mem, str, c, buf);
        if StrcmpEqual(mem, str, buf) {
          return child;
        }
        if index >= nChildren {
          assert |rest| == 1;
          break;
        }
        child := GetNextChild(child, c);
        index := index + 1;
      }
      r := None;
    }

    method GetNextComponent(path: seq<Byte>) returns (buf: seq<Byte>, rest: seq<Byte>)
      ensures (buf, rest) == NextComponent(path)
    {
      var length, cp := 0, 0;
      buf := [];
      ghost var k := UpToSeparator(path);
      while cp < |path|
        invariant length == cp <= |path| && cp <= k && cp <= MAX_ENTRY_NAME && buf == path[..cp]
      {
        assert cp < k ==> path[cp] in path[..k];
        if path[cp] == SEPARATOR {
          cp := cp + 1;
          return buf, path[cp..];
        }
        length := length + 1;
        if length > MAX_ENTRY_NAME {
          assert k > MAX_ENTRY_NAME && cp == MAX_ENTRY_NAME;
          return [], path[cp..];
        }
        buf := buf + [path[cp]];
        cp := cp + 1;
      }
      assert cp == k == |path|;
      rest := path[cp..];
      assert rest == [] && buf == path[..k];
    }

    method DTLookupEntry(searchPoint: Option<nat>, path: seq<Byte>, ghost n: Node) returns (found: Option<nat>)
      requires root.Some? ==> NodeAt(mem, if searchPoint.Some? then searchPoint.value else root.value, n)
      requires 0 !in path && PathComparable(n, if path != [] && path[0] == SEPARATOR then path[1..] else path)
      ensures found == if root.None? then None
        else match Lookup(n, if searchPoint.Some? then searchPoint.value else root.value, path)
             case Some(at) => Some(at.0)
             case None => None
    {
      if root.None? {
        return None;
      }
      var cur: nat := if searchPoint.Some? then searchPoint.value else root.value;
      var cp := path;
      if |cp| > 0 && cp[0] == SEPARATOR {
        cp := cp[1..];
        if cp == [] {
          return Some(cur);
        }
      }
      ghost var node := n;
      ghost var goal := Lookup(n, cur, path);
      hide LiesAt, Encode, NextComponent, DeviceTreeFormat.FindChild, ChildOffset, HasProps;
      while true
        invariant NodeAt(mem, cur, node) && PathComparable(node, cp) && 0 !in cp
        invariant Walk(node, cur, cp) == goal
        decreases |cp|
      {
        var buf, rest := GetNextComponent(cp);
        ComponentParts(cp);
        if buf == [] {
          return if rest == [] then Some(cur) else None;
        }
        var next := FindChild(cur, buf, node);
        if next.None? {
          return None;
        }
        ChildLies(mem, cur, node, DeviceTreeFormat.FindChild(node, buf).value);
        node := node.children[DeviceTreeFormat.FindChild(node, buf).value];
        cur, cp := next.value, rest;
      }
    }
  }

  /** The offset at which the child of that name lies, among nodes from `at` on. */
  ghost function NamedAt(ns: seq<Node>, at: nat, name: seq<Byte>): Option<nat>
    requires forall k :: 0 <= k < |ns| ==> NodeOk(ns[k])
  {
    match ChildNamed(ns, name)
    case Some(i) => Some(NodeOffset(ns, at, i))
    case None => None
  }

  /** The search for a name, one node at a time. */
  lemma NamedFirst(ns: seq<Node>, at: nat, name: seq<Byte>)
    requires ns != [] && forall k :: 0 <= k < |ns| ==> NodeOk(ns[k])
    ensures NamedAt(ns, at, name) ==
      if NameOf(ns[0]).None? then None
      else if NameOf(ns[0]).value == name then Some(at)
      else if !HasProps(ns[0]) then None
      else NamedAt(ns[1..], at + |Encode(ns[0])|, name)
    ensures |ns| == 1 ==> NamedAt(ns[1..], at + |Encode(ns[0])|, name) == None
  {
  }

  lemma NamedChild(n: Node, at: nat, name: seq<Byte>)
    requires NodeOk(n)
    ensures var goal := DeviceTreeFormat.FindChild(n, name);
      && (n.children == [] ==> goal.None?)
      && (n.props != [] ==> NamedAt(n.children, ChildOffset(n, at, 0), name)
                            == if goal.Some? then Some(ChildOffset(n, at, goal.value)) else None)
  {
  }

  /** The value of a property lies at `value`, padded to four bytes. */
  ghost predicate ValueAt(mem: seq<Byte>, value: nat, size: nat, p: Prop) {
    size == |p.value| && LiesAt(mem, value, p.value + Zeros(Round4(size) - size))
  }

  lemma FirstValue(mem: seq<Byte>, at: nat, ps: seq<Prop>)
    requires ps != [] && PropsAt(mem, at, ps)
    ensures at + 36 <= |mem| && ValueAt(mem, at + 36, ReadWord(mem, at + 32), ps[0])
  {
    FirstProp(mem, at, ps);
  }

  /** The nodes of `cs` from number `k` on lie from `at` to `end`. */
  ghost predicate RestAt(mem: seq<Byte>, at: nat, cs: seq<Node>, k: nat, end: nat) {
    k <= |cs| && NodesAt(mem, at, cs[k..]) && at + |EncodeAll(cs[k..])| == end
  }

  lemma AllRest(mem: seq<Byte>, at: nat, cs: seq<Node>)
    requires NodesAt(mem, at, cs)
    ensures RestAt(mem, at, cs, 0, at + |EncodeAll(cs)|)
  {
    assert cs[0..] == cs;
  }

  lemma RestStep(mem: seq<Byte>, at: nat, cs: seq<Node>, k: nat, end: nat)
    requires RestAt(mem, at, cs, k, end) && k < |cs|
    ensures NodeAt(mem, at, cs[k]) && RestAt(mem, at + |Encode(cs[k])|, cs, k + 1, end)
  {
    hide LiesAt, Encode, NodeOk;
    assert cs[k..][1..] == cs[k + 1..] && cs[k..][0] == cs[k];
    FirstNode(mem, at, cs[k..]);
    NodesFront(cs[k..]);
  }

  lemma NoRest(mem: seq<Byte>, at: nat, cs: seq<Node>, end: nat)
    requires RestAt(mem, at, cs, |cs|, end)
    ensures at == end
  {
    assert cs[|cs|..] == [];
  }

  lemma PropertyFirst(ps: seq<Prop>, name: seq<Byte>)
    ensures ps == [] ==> PropertyOf(ps, name) == None
    ensures ps != [] ==> PropertyOf(ps, name) == if ps[0].name == name then Some(ps[0]) else PropertyOf(ps[1..], name)
  {
  }

  /** Comparing a name property that has been found. */
  lemma NameString(mem: seq<Byte>, at: nat, n: Node, s: seq<Byte>)
    requires NameComparable(n, s) && PropertyOf(n.props, NAME).Some? && 0 !in s
    requires var p := PropertyOf(n.props, NAME).value; ValueAt(mem, at, |p.value|, p)
    ensures StrcmpEqual(mem, at, s) <==> NameOf(n) == Some(s)
  {
    var p := PropertyOf(n.props, NAME).value;
    ComparablePadded(p, s);
    PaddedString(mem, at, p.value, Round4(|p.value|) - |p.value|, s);
  }

  lemma ChildLies(mem: seq<Byte>, at: nat, n: Node, i: nat)
    requires NodeAt(mem, at, n) && i < |n.children|
    ensures NodeAt(mem, ChildOffset(n, at, i), n.children[i])
  {
    hide LiesAt, Encode, EncodeAll, EncodeProps, NodeOk;
    Limits(n);
    Header(mem, at, n);
    NodeLies(mem, at + 8 + |EncodeProps(n.props)|, n.children, i);
  }

  lemma {:induction false} NodeLies(mem: seq<Byte>, at: nat, ns: seq<Node>, i: nat)
    requires NodesAt(mem, at, ns) && i < |ns|
    ensures NodeAt(mem, NodeOffset(ns, at, i), ns[i])
    decreases i
  {
    FirstNode(mem, at, ns);
    if i > 0 {
      NodeLies(mem, at + |Encode(ns[0])|, ns[1..], i - 1);
    }
  }

  // ---------- iterating over children ----------

  class EntryIterator {
    const tree: DeviceTree
    const currentScope: nat
    var currentEntry: Option<nat>
    var currentIndex: nat

    constructor (tree: DeviceTree, startEntry: nat)
      ensures this.tree == tree && currentScope == startEntry && currentEntry == None && currentIndex == 0
    {
      this.tree, currentScope, currentEntry, currentIndex := tree, startEntry, None, 0;
    }

    /** The iterator stands on the last child it returned. */
    ghost predicate Valid(n: Node)
      reads this
    {
      && NodeAt(tree.mem, currentScope, n) && currentIndex <= |n.children|
      && (currentIndex > 0 ==> currentEntry == Reached(n, currentScope, currentIndex - 1))
    }

    /** `done` is the end of the iteration; before it, a child that cannot be reached comes back as NULL. */
    method DTIterateEntries(ghost n: Node) returns (done: bool, next: Option<nat>)
      requires Valid(n)
      modifies this
      ensures Valid(n) && (done <==> old(currentIndex) == |n.children|)
      ensures next == if done then None else Reached(n, currentScope, old(currentIndex))
      ensures currentIndex == old(currentIndex) + if done then 0 else 1
    {
      hide LiesAt, Encode, EncodeProps, NodeOffset, HasProps;
      Header(tree.mem, currentScope, n);
      if currentIndex >= ReadWord(tree.mem, currentScope + 4) {
        return true, None;
      }
      currentIndex := currentIndex + 1;
      if currentIndex == 1 {
        currentEntry := tree.GetFirstChild(Some(currentScope), n);
      } else {
        ChildLies(tree.mem, currentScope, n, currentIndex - 2);
        NextReached(n, currentScope, currentIndex - 2);
        currentEntry := tree.GetNextChild(currentEntry, n.children[currentIndex - 2]);
      }
      done, next := false, currentEntry;
    }

    method DTRestartEntryIteration(ghost n: Node)
      requires Valid(n)
      modifies this
      ensures Valid(n) && currentIndex == 0 && currentEntry == None
    {
      currentEntry := None;
      currentIndex := 0;
    }

    /** Iterating from the start to the end gives every child once, in order, as far as it can be reached. */
    method AllEntries(ghost n: Node) returns (entries: seq<Option<nat>>)
      requires Valid(n)
      modifies this
      ensures |entries| == |n.children|
      ensures forall i :: 0 <= i < |entries| ==> entries[i] == Reached(n, currentScope, i)
    {
      DTRestartEntryIteration(n);
      entries := [];
      var done, next := DTIterateEntries(n);
      while !done
        invariant Valid(n) && |entries| <= |n.children|
        invariant if done then |entries| == |n.children|
                  else |entries| < |n.children| && currentIndex == |entries| + 1
                       && next == Reached(n, currentScope, |entries|)
        invariant forall i :: 0 <= i < |entries| ==> entries[i] == Reached(n, currentScope, i)
        decreases |n.children| - |entries|
      {
        entries := entries + [next];
        done, next := DTIterateEntries(n);
      }
    }
  }

  /** Where child number `i` is found: nowhere if the node, or anything in an earlier child, has no properties. */
  ghost function Reached(n: Node, at: nat, i: nat): Option<nat>
    requires NodeOk(n) && i < |n.children|
  {
    if n.props != [] && forall k :: 0 <= k < i ==> HasProps(n.children[k]) then Some(ChildOffset(n, at, i)) else None
  }

  lemma NextReached(n: Node, at: nat, i: nat)
    requires NodeOk(n) && i + 1 < |n.children|
    ensures Reached(n, at, i + 1) ==
      if Reached(n, at, i).Some? && HasProps(n.children[i]) then Some(Reached(n, at, i).value + |Encode(n.children[i])|)
      else None
  {
    hide Encode, EncodeProps, HasProps, NodeOffset, NodeOk;
    Limits(n);
    NextOffset(n.children, at + 8 + |EncodeProps(n.props)|, i);
  }

  /** Every child is reached exactly when all nodes in all children but the last have properties. */
  lemma AllReachedIff(n: Node, at: nat)
    requires NodeOk(n) && n.children != []
    ensures (forall i :: 0 <= i < |n.children| ==> Reached(n, at, i) == Some(ChildOffset(n, at, i)))
      <==> n.props != [] && forall k :: 0 <= k < |n.children| - 1 ==> HasProps(n.children[k])
  {
    if forall i :: 0 <= i < |n.children| ==> Reached(n, at, i) == Some(ChildOffset(n, at, i)) {
      assert Reached(n, at, |n.children| - 1).Some?;
    }
  }

  /** Of the two children of this node the second one is never reached. */
  lemma UnreachedChild()
    ensures NodeOk(HIDING) && Reached(HIDING, 0, 0) == Some(ChildOffset(HIDING, 0, 0)) && Reached(HIDING, 0, 1) == None
  {
    assert !HasProps(HIDING.children[0]);
  }

  lemma {:induction false} NextOffset(ns: seq<Node>, at: nat, i: nat)
    requires (forall k :: 0 <= k < |ns| ==> NodeOk(ns[k])) && i < |ns|
    ensures NodeOffset(ns, at, i + 1) == NodeOffset(ns, at, i) + |Encode(ns[i])|
  {
    if i > 0 {
      NextOffset(ns[1..], at + |Encode(ns[0])|, i - 1);
    }
  }

  // ---------- how the cursor moves through the children ----------

  /** Every entry of a listing lies where it says. */
  ghost predicate ListingLies(mem: seq<Byte>, listing: seq<(nat, Node)>) {
    forall i :: 0 <= i < |listing| ==> NodeAt(mem, listing[i].0, listing[i].1)
  }

  lemma {:induction false} ListingOfNode(mem: seq<Byte>, n: Node, at: nat)
    requires NodeAt(mem, at, n)
    ensures ListingLies(mem, Listing(n, at))
    decreases n, 0
  {
    Header(mem, at, n);
    ListingOfNodes(mem, n.children, at + 8 + |EncodeProps(n.props)|);
  }

  lemma {:induction false} ListingOfNodes(mem: seq<Byte>, ns: seq<Node>, at: nat)
    requires NodesAt(mem, at, ns)
    ensures ListingLies(mem, ListingAll(ns, at))
    decreases ns, 1
  {
    if ns != [] {
      FirstNode(mem, at, ns);
      ListingOfNode(mem, ns[0], at);
      ListingOfNodes(mem, ns[1..], at + |Encode(ns[0])|);
    }
  }

  /** Nothing has been found in `read`, and the cursor stands where its reading stopped. */
  ghost predicate Nothing(mem: seq<Byte>, read: seq<(nat, Node)>, at: nat, cursor: nat,
                          name: seq<Byte>, value: Option<seq<Byte>>) {
    ListingLies(mem, read) && FirstMatch(Visible(read), name, value).None? && cursor == StopOffset(read, at)
  }

  /** `ns` are the children still to be read, from `at` on; `listing` is the whole listing and ends at `end`. */
  ghost predicate ToRead(mem: seq<Byte>, read: seq<(nat, Node)>, at: nat, ns: seq<Node>, listing: seq<(nat, Node)>,
                         end: nat) {
    NodesAt(mem, at, ns) && read + ListingAll(ns, at) == listing && at + |EncodeAll(ns)| == end
  }

  lemma StartChildren(mem: seq<Byte>, nodeP: nat, n: Node, name: seq<Byte>, value: Option<seq<Byte>>)
    requires NodeAt(mem, nodeP, n) && n.props != [] && !NodeMatches(n, name, value)
    ensures var at := nodeP + 8 + |EncodeProps(n.props)|;
      && Nothing(mem, [(nodeP, n)], at, at, name, value)
      && ToRead(mem, [(nodeP, n)], at, n.children, Listing(n, nodeP), nodeP + |Encode(n)|)
  {
    hide Nothing, LiesAt;
    Header(mem, nodeP, n);
    OnlyRoot(mem, nodeP, n, nodeP + 8 + |EncodeProps(n.props)|, name, value);
  }

  lemma OnlyRoot(mem: seq<Byte>, nodeP: nat, n: Node, at: nat, name: seq<Byte>, value: Option<seq<Byte>>)
    requires NodeAt(mem, nodeP, n) && n.props != [] && !NodeMatches(n, name, value)
    ensures Nothing(mem, [(nodeP, n)], at, at, name, value)
  {
    assert [(nodeP, n)][1..] == [];
  }

  lemma OneChildLess(mem: seq<Byte>, read: seq<(nat, Node)>, at: nat, ns: seq<Node>, listing: seq<(nat, Node)>,
                     end: nat)
    returns (rest: seq<(nat, Node)>)
    requires ns != [] && ToRead(mem, read, at, ns, listing, end)
    ensures NodeAt(mem, at, ns[0]) && listing == read + (Listing(ns[0], at) + rest)
    ensures ToRead(mem, read + Listing(ns[0], at), at + |Encode(ns[0])|, ns[1..], listing, end)
  {
    FirstNode(mem, at, ns);
    rest := ListingAll(ns[1..], at + |Encode(ns[0])|);
    assert read + (Listing(ns[0], at) + rest) == read + Listing(ns[0], at) + rest;
  }

  lemma AllRead(mem: seq<Byte>, read: seq<(nat, Node)>, at: nat, cursor: nat, listing: seq<(nat, Node)>, end: nat,
                name: seq<Byte>, value: Option<seq<Byte>>)
    requires Nothing(mem, read, at, cursor, name, value) && ToRead(mem, read, at, [], listing, end)
    ensures FirstMatch(Visible(listing), name, value).None? && cursor == StopOffset(listing, end)
  {
    assert read + [] == read;
  }

  lemma {:induction false} Stopped(read: seq<(nat, Node)>, at: nat, next: nat)
    ensures Visible(read) == read ==> StopOffset(read, at) == at
    ensures Visible(read) != read ==> StopOffset(read, at) == StopOffset(read, next)
    ensures Visible(read) != read ==>
              exists i :: 0 <= i < |read| && read[i].1.props == [] && read[i].0 == StopOffset(read, at)
    ensures |Visible(read)| <= |read|
  {
    if read != [] && read[0].1.props != [] {
      Stopped(read[1..], at, next);
      assert read == [read[0]] + read[1..];
      if Visible(read) != read {
        var i :| 0 <= i < |read[1..]| && read[1..][i].1.props == [] && read[1..][i].0 == StopOffset(read[1..], at);
        assert read[i + 1] == read[1..][i];
      }
    }
  }

  /** The node under the cursor: the next child, or the node without properties at which reading has stopped. */
  lemma NextNode(mem: seq<Byte>, read: seq<(nat, Node)>, at: nat, child: Node, cursor: nat,
                 name: seq<Byte>, value: Option<seq<Byte>>) returns (z: Node)
    requires Nothing(mem, read, at, cursor, name, value) && NodeAt(mem, at, child)
    ensures NodeAt(mem, cursor, z)
    ensures if Visible(read) == read then z == child && cursor == at else z.props == []
  {
    Stopped(read, at, at);
    if Visible(read) == read {
      z := child;
    } else {
      var i :| 0 <= i < |read| && read[i].1.props == [] && read[i].0 == StopOffset(read, at);
      z := read[i].1;
    }
  }

  /** It can be searched when the whole listing can. */
  lemma NextComparable(mem: seq<Byte>, read: seq<(nat, Node)>, at: nat, child: Node, z: Node, cursor: nat,
                       rest: seq<(nat, Node)>, name: seq<Byte>, value: Option<seq<Byte>>)
    requires Nothing(mem, read, at, cursor, name, value) && NodeOk(child) && NodeOk(z)
    requires SearchComparable(read + (Listing(child, at) + rest), name, value)
    requires if Visible(read) == read then z == child && cursor == at else z.props == []
    ensures SearchComparable(Listing(z, cursor), name, value)
  {
    if Visible(read) == read {
      SearchSuffix(read, Listing(child, at) + rest, name, value);
      SearchPrefix(Listing(child, at), rest, name, value);
    }
  }

  lemma NothingVisible(z: Node, at: nat)
    requires NodeOk(z) && z.props == []
    ensures Visible(Listing(z, at)) == [] && StopOffset(Listing(z, at), at + |Encode(z)|) == at
  {
  }

  /** What reading the node under the cursor means for the search of the whole. */
  lemma AfterChild(mem: seq<Byte>, read: seq<(nat, Node)>, at: nat, child: Node, z: Node, cursor: nat,
                   rest: seq<(nat, Node)>, end: nat, name: seq<Byte>, value: Option<seq<Byte>>)
    requires Nothing(mem, read, at, cursor, name, value) && NodeAt(mem, at, child) && NodeAt(mem, cursor, z)
    requires if Visible(read) == read then z == child && cursor == at else z.props == []
    ensures var r, here := FirstMatch(Visible(Listing(z, cursor)), name, value), Listing(child, at);
      && (r.Some? ==> r == FirstMatch(Visible(read + (here + rest)), name, value))
      && (r.None? ==> Nothing(mem, read + here, at + |Encode(child)|,
                              StopOffset(Listing(z, cursor), cursor + |Encode(z)|), name, value))
  {
    hide LiesAt, NodeMatches;
    ListingOfNode(mem, child, at);
    if Visible(read) == read {
      Stopped(read, at, at);
      Concatenated(read, Listing(child, at), rest, at + |Encode(child)|, end, name, value);
    } else {
      NothingVisible(z, cursor);
      Stopped(read, at, at + |Encode(child)|);
      VisibleConcat(read, Listing(child, at), at + |Encode(child)|);
    }
  }

  lemma Concatenated(read: seq<(nat, Node)>, here: seq<(nat, Node)>, rest: seq<(nat, Node)>, next: nat, end: nat,
                     name: seq<Byte>, value: Option<seq<Byte>>)
    requires Visible(read) == read && FirstMatch(read, name, value).None?
    ensures var r := FirstMatch(Visible(here), name, value);
      && (r.Some? ==> FirstMatch(Visible(read + (here + rest)), name, value) == r)
      && (r.None? ==> FirstMatch(Visible(read + here), name, value).None?)
    ensures StopOffset(read + here, next) == StopOffset(here, next)
  {
    hide Visible, FirstMatch, StopOffset;
    VisibleConcat(read, here, next);
    VisibleConcat(read, here + rest, end);
    VisibleConcat(here, rest, end);
    FirstMatchConcat(read, Visible(here), name, value);
    FirstMatchConcat(read, Visible(here + rest), name, value);
    FirstMatchConcat(here, Visible(rest), name, value);
  }
}
