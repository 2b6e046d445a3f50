/** The flattened device tree (Kernel/Platform/platform/device_tree.h): the tree it stands for, its encoding, and what
    searching and path lookup mean on the tree (Kernel/Platform/DeviceTree.c). */
module DeviceTreeFormat {
  import opened Common

  const NAME_FIELD := 32
  const MAX_NAME := 31
  const MAX_ENTRY_NAME := 63
  const SEPARATOR: Byte := 0x2F

  // ---------- the tree ----------

  /** A property: a name without NUL, and any bytes as its value. */
  datatype Prop = Prop(name: seq<Byte>, value: seq<Byte>)

  datatype Node = Node(props: seq<Prop>, children: seq<Node>)

  /** The format's limits. */
  predicate PropOk(p: Prop) {
    |p.name| <= MAX_NAME && 0 !in p.name && |p.value| <= UINT32 - 4
  }

  predicate NodeOk(n: Node) {
    && |n.props| < UINT32 && |n.children| < UINT32
    && (forall i :: 0 <= i < |n.props| ==> PropOk(n.props[i]))
    && forall i :: 0 <= i < |n.children| ==> NodeOk(n.children[i])
  }

  /** The format takes a node without properties for the end of the nodes. */
  predicate HasProps(n: Node) {
    n.props != [] && forall i :: 0 <= i < |n.children| ==> HasProps(n.children[i])
  }

  // ---------- the encoding ----------

  /** The next multiple of four. */
  function Round4(n: nat): (r: nat)
    ensures r % 4 == 0 && n <= r < n + 4
  {
    (n + 3) / 4 * 4
  }

  function LittleEndian(w: nat): (b: seq<Byte>)
    requires w < UINT32
    ensures |b| == 4
  {
    [w % 256, w / 256 % 256, w / 0x1_0000 % 256, w / 0x100_0000]
  }

  function Word(b: seq<Byte>): nat
    requires |b| == 4
  {
    (b[0] as int) + (b[1] as int) * 256 + (b[2] as int) * 0x1_0000 + (b[3] as int) * 0x100_0000
  }

  lemma WordRoundTrip(w: nat)
    requires w < UINT32
    ensures Word(LittleEndian(w)) == w
  {
    var a := w / 256;
    var b := a / 256;
    assert w / 0x1_0000 == b && w / 0x100_0000 == b / 256;
  }

  function EncodeProp(p: Prop): (b: seq<Byte>)
    requires PropOk(p)
    ensures |b| % 4 == 0 && NAME_FIELD + 4 + |p.value| <= |b| < NAME_FIELD + 4 + |p.value| + 4
  {
    p.name + Zeros(NAME_FIELD - |p.name|) + LittleEndian(|p.value|) + p.value + Zeros(Round4(|p.value|) - |p.value|)
  }

  function EncodeProps(ps: seq<Prop>): seq<Byte>
    requires forall i :: 0 <= i < |ps| ==> PropOk(ps[i])
  {
    if ps == [] then [] else EncodeProp(ps[0]) + EncodeProps(ps[1..])
  }

  function Encode(n: Node): seq<Byte>
    requires NodeOk(n)
    decreases n, 0
  {
    LittleEndian(|n.props|) + LittleEndian(|n.children|) + EncodeProps(n.props) + EncodeAll(n.children)
  }

  function EncodeAll(ns: seq<Node>): seq<Byte>
    requires forall i :: 0 <= i < |ns| ==> NodeOk(ns[i])
    decreases ns, 1
  {
    if ns == [] then [] else Encode(ns[0]) + EncodeAll(ns[1..])
  }

  const ALIGNED := Prop([0x61], [0x62, 0x63, 0x64, 0])
  const PADDED := Prop([0x65, 0x66], [1, 2, 3, 4, 5])

  lemma PropExamples()
    ensures PropOk(ALIGNED) && EncodeProp(ALIGNED) == [0x61] + Zeros(31) + [4, 0, 0, 0] + [0x62, 0x63, 0x64, 0]
    ensures PropOk(PADDED) && EncodeProp(PADDED) == [0x65, 0x66] + Zeros(30) + [5, 0, 0, 0] + [1, 2, 3, 4, 5, 0, 0, 0]
  {
    assert LittleEndian(4) == [4, 0, 0, 0] && LittleEndian(5) == [5, 0, 0, 0];
    assert Zeros(0) == [] && Zeros(3) == [0, 0, 0];
    assert PADDED.value + Zeros(3) == [1, 2, 3, 4, 5, 0, 0, 0];
  }

  /** The bytes of a node with two properties, one of them with a padded value, and of its child. */
  lemma EncodingExample()
    ensures NodeOk(Node([ALIGNED, PADDED], [Node([], [])]))
    ensures Encode(Node([ALIGNED, PADDED], [Node([], [])]))
            == [2, 0, 0, 0, 1, 0, 0, 0]
               + ([0x61] + Zeros(31) + [4, 0, 0, 0] + [0x62, 0x63, 0x64, 0])
               + ([0x65, 0x66] + Zeros(30) + [5, 0, 0, 0] + [1, 2, 3, 4, 5, 0, 0, 0])
               + [0, 0, 0, 0, 0, 0, 0, 0]
  {
    hide EncodeProp, PropOk, Zeros, Round4;
    var child, ps := Node([], []), [ALIGNED, PADDED];
    PropExamples();
    assert [PADDED][1..] == [] && ps[1..] == [PADDED] && [child][1..] == [];
    assert EncodeProps([PADDED]) == EncodeProp(PADDED) + EncodeProps([]);
    assert EncodeProps(ps) == EncodeProp(ALIGNED) + EncodeProps([PADDED]);
    assert LittleEndian(2) == [2, 0, 0, 0] && LittleEndian(1) == [1, 0, 0, 0] && LittleEndian(0) == [0, 0, 0, 0];
    assert Encode(child) == [0, 0, 0, 0, 0, 0, 0, 0];
    assert EncodeAll([child]) == Encode(child) + [];
  }

  /** `bytes` lie in memory from offset `at` on. */
  predicate LiesAt(mem: seq<Byte>, at: nat, bytes: seq<Byte>) {
    at + |bytes| <= |mem| && mem[at..at + |bytes|] == bytes
  }

  lemma LiesApart(mem: seq<Byte>, at: nat, a: seq<Byte>, b: seq<Byte>)
    requires LiesAt(mem, at, a + b)
    ensures LiesAt(mem, at, a) && LiesAt(mem, at + |a|, b)
  {
    assert mem[at..at + |a + b|][..|a|] == a;
    assert mem[at..at + |a + b|][|a|..] == b;
  }

  // ---------- C strings ----------

  /** The bytes up to the first NUL, or all of them. */
  function CString(v: seq<Byte>): (s: seq<Byte>)
    ensures 0 !in s
  {
    if v == [] || v[0] == 0 then [] else [v[0]] + CString(v[1..])
  }

  /** strcmp(mem + at, s) == 0. */
  predicate StrcmpEqual(mem: seq<Byte>, at: nat, s: seq<Byte>)
    decreases |s|
  {
    at < |mem| &&
    if s == [] then mem[at] == 0 else mem[at] == s[0] && StrcmpEqual(mem, at + 1, s[1..])
  }

  /** Comparing a field with a string compares the string that the field holds, provided that the comparison is
      decided inside the field: there is a NUL in it, or it is no initial part of the string. */
  lemma {:induction false} StrcmpOfField(mem: seq<Byte>, at: nat, field: seq<Byte>, s: seq<Byte>)
    requires LiesAt(mem, at, field) && (0 in field || !(field <= s)) && 0 !in s
    ensures StrcmpEqual(mem, at, s) <==> CString(field) == s
    decreases |s|
  {
    assert mem[at] == field[0];
    if s != [] && field[0] == s[0] {
      assert field == [field[0]] + field[1..];
      assert s == [s[0]] + s[1..] && s[0] in s;
      hide LiesAt;
      LiesApart(mem, at, [field[0]], field[1..]);
      StrcmpOfField(mem, at + 1, field[1..], s[1..]);
    }
  }

  lemma {:induction false} CStringPadded(v: seq<Byte>, k: nat)
    ensures CString(v + Zeros(k)) == CString(v)
  {
    if v != [] {
      assert (v + Zeros(k))[1..] == v[1..] + Zeros(k);
      CStringPadded(v[1..], k);
    } else {
      assert v + Zeros(k) == Zeros(k);
    }
  }

  lemma {:induction false} CStringOfName(v: seq<Byte>)
    requires 0 !in v
    ensures CString(v) == v
  {
    if v != [] {
      CStringOfName(v[1..]);
      assert v == [v[0]] + v[1..];
    }
  }

  // ---------- searching the tree ----------

  /** Comparing the value with `s` is decided inside the value and its padding. */
  predicate Comparable(p: Prop, s: seq<Byte>) {
    0 in p.value || |p.value| % 4 != 0 || !(p.value <= s)
  }

  /** So it is for the values that a search among these properties compares, up to the one it finds. */
  predicate PropsComparable(ps: seq<Prop>, name: seq<Byte>, value: Option<seq<Byte>>) {
    if ps == [] || value.None? then true
    else
      && (ps[0].name == name ==> Comparable(ps[0], value.value))
      && (PropMatches(ps[0], name, value) || PropsComparable(ps[1..], name, value))
  }

  /** So it is for the values that a search of the nodes listed compares, up to the first match or the first node
      without properties. */
  predicate SearchComparable(l: seq<(nat, Node)>, name: seq<Byte>, value: Option<seq<Byte>>) {
    if l == [] || l[0].1.props == [] then true
    else
      && PropsComparable(l[0].1.props, name, value)
      && (NodeMatches(l[0].1, name, value) || SearchComparable(l[1..], name, value))
  }

  lemma {:induction false} SearchPrefix(a: seq<(nat, Node)>, b: seq<(nat, Node)>, name: seq<Byte>,
                                        value: Option<seq<Byte>>)
    requires SearchComparable(a + b, name, value)
    ensures SearchComparable(a, name, value)
  {
    hide NodeMatches, PropsComparable;
    if a != [] {
      assert (a + b)[1..] == a[1..] + b;
      if a[0].1.props != [] && !NodeMatches(a[0].1, name, value) {
        SearchPrefix(a[1..], b, name, value);
      }
    }
  }

  lemma {:induction false} SearchSuffix(a: seq<(nat, Node)>, b: seq<(nat, Node)>, name: seq<Byte>,
                                        value: Option<seq<Byte>>)
    requires SearchComparable(a + b, name, value) && Visible(a) == a && FirstMatch(a, name, value).None?
    ensures SearchComparable(b, name, value)
  {
    hide NodeMatches, PropsComparable;
    if a == [] {
      assert a + b == b;
    } else {
      assert (a + b)[1..] == a[1..] + b;
      assert Visible(a)[1..] == Visible(a[1..]);
      SearchSuffix(a[1..], b, name, value);
    }
  }

  predicate PropMatches(p: Prop, name: seq<Byte>, value: Option<seq<Byte>>) {
    p.name == name && (value.Some? ==> CString(p.value) == value.value)
  }

  predicate NodeMatches(n: Node, name: seq<Byte>, value: Option<seq<Byte>>) {
    exists i :: 0 <= i < |n.props| && PropMatches(n.props[i], name, value)
  }

  /** The nodes of a tree in preorder, each with the offset of its encoding when the tree lies at `at`. */
  function Listing(n: Node, at: nat): seq<(nat, Node)>
    requires NodeOk(n)
    decreases n, 0
  {
    [(at, n)] + ListingAll(n.children, at + 8 + |EncodeProps(n.props)|)
  }

  function ListingAll(ns: seq<Node>, at: nat): seq<(nat, Node)>
    requires forall i :: 0 <= i < |ns| ==> NodeOk(ns[i])
    decreases ns, 1
  {
    if ns == [] then [] else Listing(ns[0], at) + ListingAll(ns[1..], at + |Encode(ns[0])|)
  }

  /** The part of a listing that comes before the first node without properties. */
  function Visible(listing: seq<(nat, Node)>): seq<(nat, Node)> {
    if listing == [] || listing[0].1.props == [] then [] else [listing[0]] + Visible(listing[1..])
  }

  /** Where a search that finds nothing stops: at the first node without properties, or at the end. */
  function StopOffset(listing: seq<(nat, Node)>, end: nat): nat {
    if listing == [] then end
    else if listing[0].1.props == [] then listing[0].0
    else StopOffset(listing[1..], end)
  }

  lemma {:induction false} VisibleConcat(a: seq<(nat, Node)>, b: seq<(nat, Node)>, end: nat)
    ensures Visible(a) != a ==> Visible(a + b) == Visible(a) && StopOffset(a + b, end) == StopOffset(a, end)
    ensures Visible(a) == a ==> Visible(a + b) == a + Visible(b) && StopOffset(a + b, end) == StopOffset(b, end)
    ensures |Visible(a)| <= |a|
  {
    if a == [] {
      assert a + b == b;
    } else {
      assert (a + b)[1..] == a[1..] + b && (a + b)[0] == a[0];
      VisibleConcat(a[1..], b, end);
      if a[0].1.props != [] {
        VisibleWhole(a);
        assert [a[0]] + (a[1..] + Visible(b)) == a + Visible(b);
      }
    }
  }

  lemma VisibleWhole(l: seq<(nat, Node)>)
    requires l != [] && l[0].1.props != []
    ensures Visible(l) == [l[0]] + Visible(l[1..]) && (Visible(l) == l <==> Visible(l[1..]) == l[1..])
  {
    assert l == [l[0]] + l[1..];
    assert Visible(l)[1..] == Visible(l[1..]);
  }

  /** In a tree whose nodes all have a property, everything is visible and the search stops at the end. */
  lemma {:induction false} AllVisible(n: Node, at: nat, end: nat)
    requires NodeOk(n) && HasProps(n)
    ensures Visible(Listing(n, at)) == Listing(n, at) && StopOffset(Listing(n, at), end) == end
    decreases n, 0
  {
    AllVisibleChildren(n.children, at + 8 + |EncodeProps(n.props)|, end);
    var l := Listing(n, at);
    assert l[1..] == ListingAll(n.children, at + 8 + |EncodeProps(n.props)|);
  }

  lemma {:induction false} AllVisibleChildren(ns: seq<Node>, at: nat, end: nat)
    requires forall i :: 0 <= i < |ns| ==> NodeOk(ns[i]) && HasProps(ns[i])
    ensures Visible(ListingAll(ns, at)) == ListingAll(ns, at) && StopOffset(ListingAll(ns, at), end) == end
    decreases ns, 1
  {
    if ns != [] {
      AllVisible(ns[0], at, end);
      AllVisibleChildren(ns[1..], at + |Encode(ns[0])|, end);
      VisibleConcat(Listing(ns[0], at), ListingAll(ns[1..], at + |Encode(ns[0])|), end);
    }
  }

  /** Everything listed lies inside the encoding. */
  lemma {:induction false} ListingInside(n: Node, at: nat)
    requires NodeOk(n)
    ensures forall i :: 0 <= i < |Listing(n, at)| ==> Listing(n, at)[i].0 < at + |Encode(n)|
    decreases n, 0
  {
    ListingAllInside(n.children, at + 8 + |EncodeProps(n.props)|);
  }

  lemma {:induction false} ListingAllInside(ns: seq<Node>, at: nat)
    requires forall i :: 0 <= i < |ns| ==> NodeOk(ns[i])
    ensures forall i :: 0 <= i < |ListingAll(ns, at)| ==> ListingAll(ns, at)[i].0 < at + |EncodeAll(ns)|
    decreases ns, 1
  {
    if ns != [] {
      ListingInside(ns[0], at);
      ListingAllInside(ns[1..], at + |Encode(ns[0])|);
    }
  }

  /** A tree with a node without properties lists such a node. */
  lemma {:induction false} ListsBareNode(n: Node, at: nat) returns (i: nat)
    requires NodeOk(n) && !HasProps(n)
    ensures i < |Listing(n, at)| && Listing(n, at)[i].1.props == []
    decreases n, 0
  {
    if n.props == [] {
      i := 0;
    } else {
      i := ListsBareChild(n.children, at + 8 + |EncodeProps(n.props)|);
      i := i + 1;
    }
  }

  lemma {:induction false} ListsBareChild(ns: seq<Node>, at: nat) returns (i: nat)
    requires (forall i :: 0 <= i < |ns| ==> NodeOk(ns[i])) && exists i :: 0 <= i < |ns| && !HasProps(ns[i])
    ensures i < |ListingAll(ns, at)| && ListingAll(ns, at)[i].1.props == []
    decreases ns, 1
  {
    if HasProps(ns[0]) {
      i := ListsBareChild(ns[1..], at + |Encode(ns[0])|);
      i := i + |Listing(ns[0], at)|;
    } else {
      i := ListsBareNode(ns[0], at);
    }
  }

  lemma {:induction false} StopsAtBareNode(l: seq<(nat, Node)>, end: nat, i: nat) returns (k: nat)
    requires i < |l| && l[i].1.props == []
    ensures k <= i && l[k].1.props == [] && StopOffset(l, end) == l[k].0
  {
    if l[0].1.props == [] {
      k := 0;
    } else {
      k := StopsAtBareNode(l[1..], end, i - 1);
      k := k + 1;
    }
  }

  /** A search that finds nothing stops at the end of the tree exactly when all its nodes have properties. */
  lemma StopsAtEndIff(n: Node, at: nat)
    requires NodeOk(n)
    ensures StopOffset(Listing(n, at), at + |Encode(n)|) == at + |Encode(n)| <==> HasProps(n)
  {
    var end := at + |Encode(n)|;
    if HasProps(n) {
      AllVisible(n, at, end);
    } else {
      ListingInside(n, at);
      var i := ListsBareNode(n, at);
      var k := StopsAtBareNode(Listing(n, at), end, i);
    }
  }

  /** The offset of the first node listed that has the property. */
  function FirstMatch(listing: seq<(nat, Node)>, name: seq<Byte>, value: Option<seq<Byte>>): (r: Option<nat>)
    ensures r.None? <==> forall i :: 0 <= i < |listing| ==> !NodeMatches(listing[i].1, name, value)
  {
    if listing == [] then None
    else if NodeMatches(listing[0].1, name, value) then Some(listing[0].0)
    else FirstMatch(listing[1..], name, value)
  }

  /** A match found is that of the first matching entry. */
  lemma {:induction false} FirstMatchIsFirst(listing: seq<(nat, Node)>, name: seq<Byte>, value: Option<seq<Byte>>,
                                             i: nat)
    requires i < |listing| && NodeMatches(listing[i].1, name, value)
    requires forall j :: 0 <= j < i ==> !NodeMatches(listing[j].1, name, value)
    ensures FirstMatch(listing, name, value) == Some(listing[i].0)
  {
    if i > 0 {
      FirstMatchIsFirst(listing[1..], name, value, i - 1);
    }
  }

  lemma {:induction false} FirstMatchConcat(a: seq<(nat, Node)>, b: seq<(nat, Node)>, name: seq<Byte>,
                                            value: Option<seq<Byte>>)
    ensures FirstMatch(a + b, name, value)
            == if FirstMatch(a, name, value).Some? then FirstMatch(a, name, value) else FirstMatch(b, name, value)
  {
    if a == [] {
      assert a + b == b;
    } else {
      assert (a + b)[1..] == a[1..] + b;
      FirstMatchConcat(a[1..], b, name, value);
    }
  }

  /** Every match behind a node without properties comes after another match before that node. */
  ghost predicate NoneHidden(l: seq<(nat, Node)>, name: seq<Byte>, value: Option<seq<Byte>>) {
    forall k, i :: 0 <= k < i < |l| && l[k].1.props == [] && NodeMatches(l[i].1, name, value) ==>
      exists j :: 0 <= j < k && NodeMatches(l[j].1, name, value)
  }

  /** The search finds what is first in the whole listing exactly when that is not behind a node without
      properties. */
  lemma SearchIsCompleteIff(l: seq<(nat, Node)>, name: seq<Byte>, value: Option<seq<Byte>>)
    ensures FirstMatch(Visible(l), name, value) == FirstMatch(l, name, value) <==> NoneHidden(l, name, value)
  {
    VisiblePrefix(l);
    hide NodeMatches, Visible, FirstMatch;
    var v := Visible(l);
    FirstMatchConcat(v, l[|v|..], name, value);
    if FirstMatch(v, name, value).Some? {
      var j :| 0 <= j < |v| && NodeMatches(v[j].1, name, value);
      FirstVisible(l, name, value, j);
    } else if FirstMatch(l, name, value).Some? {
      var i :| 0 <= i < |l| && NodeMatches(l[i].1, name, value);
      assert forall j :: 0 <= j < |v| ==> v[j] == l[j] && !NodeMatches(l[j].1, name, value);
      assert |v| < i && l[|v|].1.props == [];
    }
  }

  lemma FirstVisible(l: seq<(nat, Node)>, name: seq<Byte>, value: Option<seq<Byte>>, j: nat)
    requires j < |Visible(l)| <= |l| && Visible(l) == l[..|Visible(l)|] && NodeMatches(l[j].1, name, value)
    requires forall k :: 0 <= k < |Visible(l)| ==> l[k].1.props != []
    ensures NoneHidden(l, name, value)
  {
    hide NodeMatches;
  }

  /** What is visible is an initial part; behind it comes a node without properties, or nothing. */
  lemma {:induction false} VisiblePrefix(l: seq<(nat, Node)>)
    ensures var n := |Visible(l)|;
      && n <= |l| && Visible(l) == l[..n] && l == l[..n] + l[n..] && (forall k :: 0 <= k < n ==> l[k].1.props != [])
      && (n < |l| ==> l[n].1.props == [] && forall name, value :: !NodeMatches(l[n].1, name, value))
  {
    if l != [] && l[0].1.props != [] {
      hide NodeMatches;
      var n := |Visible(l[1..])|;
      VisiblePrefix(l[1..]);
      VisibleWhole(l);
      assert [l[0]] + l[1..][..n] == l[..n + 1];
      assert forall k :: 0 < k < |l| ==> l[k] == l[1..][k - 1];
    }
  }

  const PLAIN := Prop([1], [])
  const WANTED := Prop([2], [])

  /** A root with a property, a child without any, and its sibling, which has the property looked for. */
  const HIDING := Node([PLAIN], [Node([], []), Node([WANTED], [])])

  lemma TwoChildren(a: Node, b: Node, at: nat)
    requires NodeOk(a) && NodeOk(b) && a.children == b.children == []
    ensures ListingAll([a, b], at) == [(at, a), (at + |Encode(a)|, b)]
  {
    OneChild(b, at + |Encode(a)|);
    var ns := [a, b];
    assert ns[1..] == [b] && ns[0] == a;
    assert Listing(a, at) == [(at, a)];
  }

  lemma OneChild(b: Node, at: nat)
    requires NodeOk(b) && b.children == []
    ensures ListingAll([b], at) == [(at, b)]
  {
    var ns, end := [b], at + |Encode(b)|;
    assert ns[1..] == [];
    assert Listing(b, at) == [(at, b)];
    assert ListingAll(ns, at) == Listing(ns[0], at) + ListingAll(ns[1..], end);
  }

  /** Here the search misses a node that is in the tree. */
  lemma HiddenMatch()
    ensures NodeOk(HIDING) && LiesAt(Encode(HIDING), 0, Encode(HIDING))
    ensures FirstMatch(Visible(Listing(HIDING, 0)), WANTED.name, None) == None
    ensures FirstMatch(Listing(HIDING, 0), WANTED.name, None).Some?
  {
    var bare, last := Node([], []), Node([WANTED], []);
    var l := Listing(HIDING, 0);
    TwoChildren(bare, last, 8 + |EncodeProps(HIDING.props)|);
    assert |l| == 3 && l[0].1 == HIDING && l[1].1 == bare && l[2].1 == last;
    assert HIDING.props[0].name != WANTED.name;
    assert !NodeMatches(HIDING, WANTED.name, None);
    assert Visible(l) == [l[0]] + Visible(l[1..]) == [l[0]];
    assert last.props[0] == WANTED && PropMatches(last.props[0], WANTED.name, None)
        && NodeMatches(l[2].1, WANTED.name, None);
  }

  // ---------- paths ----------

  /** The value of the first property with this name. */
  function PropertyOf(ps: seq<Prop>, name: seq<Byte>): Option<Prop> {
    if ps == [] then None else if ps[0].name == name then Some(ps[0]) else PropertyOf(ps[1..], name)
  }

  const NAME: seq<Byte> := [0x6E, 0x61, 0x6D, 0x65]

  /** The property that names a node is called name. */
  lemma NameSpelled()
    ensures |NAME| == |"name"| && forall i :: 0 <= i < |NAME| ==> NAME[i] as char == "name"[i]
  {
  }

  function NameOf(n: Node): Option<seq<Byte>> {
    match PropertyOf(n.props, NAME)
    case Some(p) => Some(CString(p.value))
    case None => None
  }

  /** The first child of that name; the search ends at a child without a name, and after one that has a node
      without properties below it. */
  function ChildNamed(ns: seq<Node>, name: seq<Byte>): (r: Option<nat>)
    ensures r.Some? ==> r.value < |ns|
  {
    if ns == [] || NameOf(ns[0]).None? then None
    else if NameOf(ns[0]).value == name then Some(0)
    else if !HasProps(ns[0]) then None
    else
      match ChildNamed(ns[1..], name)
      case Some(i) => Some(i + 1)
      case None => None
  }

  /** The first child of that name. */
  function FirstNamed(ns: seq<Node>, name: seq<Byte>): (r: Option<nat>)
    ensures match r
      case Some(k) => k < |ns| && NameOf(ns[k]) == Some(name) && forall i :: 0 <= i < k ==> NameOf(ns[i]) != Some(name)
      case None => forall i :: 0 <= i < |ns| ==> NameOf(ns[i]) != Some(name)
  {
    if ns == [] then None
    else if NameOf(ns[0]) == Some(name) then Some(0)
    else
      assert forall i :: 0 < i < |ns| ==> ns[i] == ns[1..][i - 1];
      match FirstNamed(ns[1..], name)
      case Some(k) => Some(k + 1)
      case None => None
  }

  /** All of the first `k` nodes have a name, and properties in every node. */
  predicate Passable(ns: seq<Node>, k: nat)
    requires k <= |ns|
  {
    forall j :: 0 <= j < k ==> NameOf(ns[j]).Some? && HasProps(ns[j])
  }

  /** What is found is the first child of that name; it is found exactly when every child before it has a name, and
      properties in every node. */
  lemma {:induction false} ChildNamedMeaning(ns: seq<Node>, name: seq<Byte>)
    ensures ChildNamed(ns, name).Some? ==> ChildNamed(ns, name) == FirstNamed(ns, name)
    ensures ChildNamed(ns, name) == FirstNamed(ns, name)
      <==>
        (FirstNamed(ns, name).Some? ==> Passable(ns, FirstNamed(ns, name).value))
  {
    if ns != [] && NameOf(ns[0]) != Some(name) {
      ChildNamedMeaning(ns[1..], name);
      if FirstNamed(ns, name).Some? {
        var k := FirstNamed(ns, name).value;
        assert forall j :: 0 < j < k ==> ns[j] == ns[1..][j - 1];
        assert forall j :: 0 <= j < k - 1 ==> ns[1..][j] == ns[j + 1];
      }
    }
  }

  /** The child of that name, which cannot be reached in a node without properties. */
  function FindChild(n: Node, name: seq<Byte>): (r: Option<nat>)
    ensures r.Some? ==> r.value < |n.children|
  {
    if n.props == [] then None else ChildNamed(n.children, name)
  }

  /** Comparing the node's name with `s` is decided inside its value. */
  predicate NameComparable(n: Node, s: seq<Byte>) {
    PropertyOf(n.props, NAME).Some? ==> Comparable(PropertyOf(n.props, NAME).value, s)
  }

  /** So it is for the names that the search for a child compares. */
  predicate ChildNamesComparable(ns: seq<Node>, name: seq<Byte>) {
    if ns == [] || NameOf(ns[0]).None? then true
    else
      && NameComparable(ns[0], name)
      && (NameOf(ns[0]).value == name || !HasProps(ns[0]) || ChildNamesComparable(ns[1..], name))
  }

  /** How many bytes come before the first separator, or the end. */
  function UpToSeparator(path: seq<Byte>): (k: nat)
    ensures k <= |path| && SEPARATOR !in path[..k] && (k < |path| ==> path[k] == SEPARATOR)
  {
    if path == [] || path[0] == SEPARATOR then 0
    else
      assert path[..1 + UpToSeparator(path[1..])] == [path[0]] + path[1..][..UpToSeparator(path[1..])];
      1 + UpToSeparator(path[1..])
  }

  /** The next component of a path and what follows its separator.  Of a component that is too long nothing is
      returned, and the rest starts in its middle. */
  function NextComponent(path: seq<Byte>): (r: (seq<Byte>, seq<Byte>))
    ensures r.0 != [] ==> |r.1| < |path|
  {
    var k := UpToSeparator(path);
    if k > MAX_ENTRY_NAME then ([], path[MAX_ENTRY_NAME..])
    else (path[..k], if k < |path| then path[k + 1..] else [])
  }

  /** Where node number `i` of several nodes from `at` on begins. */
  function NodeOffset(ns: seq<Node>, at: nat, i: nat): nat
    requires (forall k :: 0 <= k < |ns| ==> NodeOk(ns[k])) && i <= |ns|
  {
    if i == 0 then at else NodeOffset(ns[1..], at + |Encode(ns[0])|, i - 1)
  }

  function ChildOffset(n: Node, at: nat, i: nat): nat
    requires NodeOk(n) && i <= |n.children|
  {
    NodeOffset(n.children, at + 8 + |EncodeProps(n.props)|, i)
  }

  /** What the loop of the lookup does with a path. */
  function Walk(n: Node, at: nat, path: seq<Byte>): Option<(nat, Node)>
    requires NodeOk(n)
    decreases |path|
  {
    var (name, rest) := NextComponent(path);
    if name == [] then (if rest == [] then Some((at, n)) else None)
    else
      match FindChild(n, name)
      case None => None
      case Some(i) => Walk(n.children[i], ChildOffset(n, at, i), rest)
  }

  /** Every name compared on the way can be compared. */
  predicate PathComparable(n: Node, path: seq<Byte>)
    decreases |path|
  {
    var (name, rest) := NextComponent(path);
    if name == [] || n.props == [] then true
    else
      && ChildNamesComparable(n.children, name)
      && match FindChild(n, name)
         case None => true
         case Some(i) => PathComparable(n.children[i], rest)
  }

  function Lookup(n: Node, at: nat, path: seq<Byte>): Option<(nat, Node)>
    requires NodeOk(n)
  {
    Walk(n, at, if path != [] && path[0] == SEPARATOR then path[1..] else path)
  }

  // ---------- paths as lists of names ----------

  /** Going down by child names. */
  function Descend(n: Node, at: nat, names: seq<seq<Byte>>): Option<(nat, Node)>
    requires NodeOk(n)
    decreases |names|
  {
    if names == [] then Some((at, n))
    else
      match FindChild(n, names[0])
      case None => None
      case Some(i) => Descend(n.children[i], ChildOffset(n, at, i), names[1..])
  }

  /** Going down by the first child of each name. */
  function Follow(n: Node, at: nat, names: seq<seq<Byte>>): Option<(nat, Node)>
    requires NodeOk(n)
    decreases |names|
  {
    if names == [] then Some((at, n))
    else
      match FirstNamed(n.children, names[0])
      case None => None
      case Some(i) => Follow(n.children[i], ChildOffset(n, at, i), names[1..])
  }

  /** On the way down every node has a property, and the children before the one wanted can be passed. */
  predicate Unhidden(n: Node, names: seq<seq<Byte>>)
    decreases |names|
  {
    if names == [] then true
    else
      match FirstNamed(n.children, names[0])
      case None => true
      case Some(i) => n.props != [] && Passable(n.children, i) && Unhidden(n.children[i], names[1..])
  }

  /** Going down follows the first child of each name exactly when nothing on the way hides one. */
  lemma {:induction false} DescendIff(n: Node, at: nat, names: seq<seq<Byte>>)
    requires NodeOk(n)
    ensures Descend(n, at, names).Some? ==> Descend(n, at, names) == Follow(n, at, names)
    ensures Descend(n, at, names) == Follow(n, at, names)
      <==>
        (Follow(n, at, names).Some? ==> Unhidden(n, names))
    decreases |names|
  {
    hide NameOf, Passable, ChildNamed, FirstNamed, NodeOk, ChildOffset;
    if names != [] {
      var found := FirstNamed(n.children, names[0]);
      ChildNamedMeaning(n.children, names[0]);
      if found.Some? {
        ChildOk(n, found.value);
        DescendIff(n.children[found.value], ChildOffset(n, at, found.value), names[1..]);
      }
    }
  }

  lemma ChildOk(n: Node, i: nat)
    requires NodeOk(n) && i < |n.children|
    ensures NodeOk(n.children[i])
  {
  }

  /** A tree with a property in every node and a name in every node but perhaps its root. */
  predicate NamedBelow(n: Node) {
    n.props != [] && forall i :: 0 <= i < |n.children| ==> NameOf(n.children[i]).Some? && NamedBelow(n.children[i])
  }

  lemma {:induction false} NamedHasProps(n: Node)
    requires NamedBelow(n)
    ensures HasProps(n)
  {
    forall i | 0 <= i < |n.children| ensures HasProps(n.children[i]) {
      NamedHasProps(n.children[i]);
    }
  }

  /** In such a tree nothing is hidden. */
  lemma {:induction false} NamedIsUnhidden(n: Node, names: seq<seq<Byte>>)
    requires NamedBelow(n)
    ensures Unhidden(n, names)
    decreases |names|
  {
    if names != [] && FirstNamed(n.children, names[0]).Some? {
      var i := FirstNamed(n.children, names[0]).value;
      forall j | 0 <= j < i ensures HasProps(n.children[j]) {
        NamedHasProps(n.children[j]);
      }
      NamedIsUnhidden(n.children[i], names[1..]);
    }
  }

  predicate ValidName(name: seq<Byte>) {
    0 < |name| <= MAX_ENTRY_NAME && SEPARATOR !in name
  }

  ghost predicate ValidNames(names: seq<seq<Byte>>) {
    forall i :: 0 <= i < |names| ==> ValidName(names[i])
  }

  function Join(names: seq<seq<Byte>>): seq<Byte> {
    if names == [] then []
    else if |names| == 1 then names[0]
    else names[0] + [SEPARATOR] + Join(names[1..])
  }

  /** The written forms of a list of names: an optional leading separator, and trailing ones.  After a name two are
      let through; without a name, one. */
  ghost predicate Written(path: seq<Byte>, names: seq<seq<Byte>>) {
    ValidNames(names) &&
    exists lead: seq<Byte>, trail: seq<Byte> ::
      path == lead + Join(names) + trail && (lead == [] || lead == [SEPARATOR]) && GoodTrail(trail, names)
      && (lead == [] && names == [] ==> trail == [])
  }

  predicate GoodTrail(trail: seq<Byte>, names: seq<seq<Byte>>) {
    trail == [] || trail == [SEPARATOR] || (trail == [SEPARATOR, SEPARATOR] && names != [])
  }

  lemma {:induction false} SeparatorFound(name: seq<Byte>, rest: seq<Byte>)
    requires SEPARATOR !in name && (rest == [] || rest[0] == SEPARATOR)
    ensures UpToSeparator(name + rest) == |name|
  {
    if name == [] {
      assert name + rest == rest;
    } else {
      assert (name + rest)[1..] == name[1..] + rest;
      SeparatorFound(name[1..], rest);
    }
  }

  /** A name, a separator or the end, and the rest are the path. */
  lemma ComponentParts(path: seq<Byte>)
    ensures var (name, rest) := NextComponent(path);
      if name == [] then rest == [] ==> path == [] || path == [SEPARATOR]
      else ValidName(name) && ((path == name && rest == []) || path == name + [SEPARATOR] + rest)
  {
    var k := UpToSeparator(path);
    if k < |path| {
      assert path == path[..k] + [path[k]] + path[k + 1..];
    }
  }

  lemma JoinFront(name: seq<Byte>, more: seq<seq<Byte>>)
    ensures Join([name] + more) == if more == [] then name else name + [SEPARATOR] + Join(more)
  {
    assert ([name] + more)[1..] == more;
  }

  /** Any written form leads where its names lead. */
  lemma {:induction false} WalkOfNames(n: Node, at: nat, names: seq<seq<Byte>>, trail: seq<Byte>)
    requires NodeOk(n) && ValidNames(names) && GoodTrail(trail, names)
    ensures Walk(n, at, Join(names) + trail) == Descend(n, at, names)
    decreases |names|
  {
    hide UpToSeparator, NextComponent;
    if names == [] {
      EmptyPath(trail);
    } else {
      var tail := FirstOfPath(names, trail);
      match FindChild(n, names[0])
      case None =>
      case Some(i) => WalkOfNames(n.children[i], ChildOffset(n, at, i), names[1..], tail);
    }
  }

  lemma EmptyPath(trail: seq<Byte>)
    requires trail == [] || trail == [SEPARATOR]
    ensures NextComponent(Join([]) + trail) == ([], [])
  {
    SeparatorFound([], trail);
    assert Join([]) + trail == trail == [] + trail;
  }

  lemma FirstOfPath(names: seq<seq<Byte>>, trail: seq<Byte>) returns (tail: seq<Byte>)
    requires names != [] && ValidNames(names) && GoodTrail(trail, names)
    ensures GoodTrail(tail, names[1..])
    ensures NextComponent(Join(names) + trail) == (names[0], Join(names[1..]) + tail)
  {
    hide UpToSeparator, NextComponent, Join;
    var more := names[1..];
    var after := if more == [] then trail else [SEPARATOR] + Join(more) + trail;
    assert names == [names[0]] + more;
    JoinFront(names[0], more);
    assert Join(names) + trail == names[0] + after;
    SeparatorFound(names[0], after);
    EmptyJoin();
    tail := if more == [] && trail != [] then trail[1..] else trail;
    assert after == [] || after == [SEPARATOR] + (Join(more) + tail);
    AfterName(names[0], after, Join(more) + tail);
  }

  lemma AfterName(name: seq<Byte>, after: seq<Byte>, rest: seq<Byte>)
    requires ValidName(name) && UpToSeparator(name + after) == |name|
    requires (after == [] && rest == []) || after == [SEPARATOR] + rest
    ensures NextComponent(name + after) == (name, rest)
  {
    assert (name + after)[..|name|] == name;
    assert after != [] ==> (name + after)[|name| + 1..] == rest;
  }

  /** Conversely, a path that leads anywhere is a written form of names. */
  lemma {:induction false} WalkHasNames(n: Node, at: nat, path: seq<Byte>)
    returns (names: seq<seq<Byte>>, trail: seq<Byte>)
    requires NodeOk(n) && Walk(n, at, path).Some?
    ensures ValidNames(names) && GoodTrail(trail, names) && path == Join(names) + trail
    decreases |path|
  {
    hide UpToSeparator;
    var (name, rest) := NextComponent(path);
    ComponentParts(path);
    if name == [] {
      names, trail := [], path;
    } else {
      var i := FindChild(n, name).value;
      var more, t := WalkHasNames(n.children[i], ChildOffset(n, at, i), rest);
      if path == name {
        names, trail := [name], [];
      } else {
        names, trail := [name] + more, if more == [] then [SEPARATOR] + t else t;
        JoinFront(name, more);
        NameFront(name, more, t, rest, path);
      }
    }
  }

  lemma NameFront(name: seq<Byte>, more: seq<seq<Byte>>, t: seq<Byte>, rest: seq<Byte>, path: seq<Byte>)
    requires path == name + [SEPARATOR] + rest && rest == Join(more) + t
    ensures path == Join([name] + more) + if more == [] then [SEPARATOR] + t else t
  {
    JoinFront(name, more);
    if more == [] {
      assert rest == t;
    }
  }

  /** A path spells at most one list of names. */
  lemma NamesUnique(path: seq<Byte>, a: seq<seq<Byte>>, b: seq<seq<Byte>>)
    requires Written(path, a) && Written(path, b)
    ensures a == b
  {
    var lead: seq<Byte>, trail: seq<Byte> :|
      path == lead + Join(a) + trail && (lead == [] || lead == [SEPARATOR]) && GoodTrail(trail, a)
      && (lead == [] && a == [] ==> trail == []);
    var lead2: seq<Byte>, trail2: seq<Byte> :|
      path == lead2 + Join(b) + trail2 && (lead2 == [] || lead2 == [SEPARATOR]) && GoodTrail(trail2, b)
      && (lead2 == [] && b == [] ==> trail2 == []);
    LeadShows(path, lead, a, trail);
    LeadShows(path, lead2, b, trail2);
    assert lead == lead2;
    assert Join(a) + trail == path[|lead|..] == Join(b) + trail2;
    OneReading(a, trail, b, trail2);
  }

  /** Names do not begin with a separator. */
  lemma NamesFirst(names: seq<seq<Byte>>, trail: seq<Byte>)
    requires ValidNames(names) && GoodTrail(trail, names)
    ensures names != [] ==> Join(names) + trail != [] && (Join(names) + trail)[0] != SEPARATOR
  {
    if names != [] {
      assert names == [names[0]] + names[1..];
      JoinFront(names[0], names[1..]);
      assert (Join(names) + trail)[0] == names[0][0] && names[0][0] in names[0];
    }
  }

  /** Whether a path has a leading separator can be seen from it. */
  lemma LeadShows(path: seq<Byte>, lead: seq<Byte>, names: seq<seq<Byte>>, trail: seq<Byte>)
    requires path == lead + Join(names) + trail && (lead == [] || lead == [SEPARATOR])
    requires ValidNames(names) && GoodTrail(trail, names) && (lead == [] && names == [] ==> trail == [])
    ensures lead == [SEPARATOR] <==> path != [] && path[0] == SEPARATOR
    ensures path == lead + (Join(names) + trail)
  {
    NamesFirst(names, trail);
    EmptyJoin();
  }

  lemma {:induction false} OneReading(a: seq<seq<Byte>>, trail: seq<Byte>, b: seq<seq<Byte>>, trail2: seq<Byte>)
    requires ValidNames(a) && ValidNames(b) && GoodTrail(trail, a) && GoodTrail(trail2, b)
    requires Join(a) + trail == Join(b) + trail2
    ensures a == b
    decreases |a|
  {
    hide Join, NextComponent;
    if a == [] || b == [] {
      EmptyJoin();
      NamesFirst(a, trail);
      NamesFirst(b, trail2);
    } else {
      var t := FirstOfPath(a, trail);
      var u := FirstOfPath(b, trail2);
      OneReading(a[1..], t, b[1..], u);
      assert a == [a[0]] + a[1..] && b == [b[0]] + b[1..];
    }
  }

  /** Lookup succeeds exactly on the written forms of names that can be followed. */
  lemma LookupMeaning(n: Node, at: nat, path: seq<Byte>)
    requires NodeOk(n)
    ensures forall names :: Written(path, names) ==> Lookup(n, at, path) == Descend(n, at, names)
    ensures Lookup(n, at, path).Some? ==> exists names :: Written(path, names)
    ensures forall a, b :: Written(path, a) && Written(path, b) ==> a == b
  {
    forall a, b | Written(path, a) && Written(path, b) ensures a == b {
      NamesUnique(path, a, b);
    }
    forall names | Written(path, names) ensures Lookup(n, at, path) == Descend(n, at, names) {
      var lead: seq<Byte>, trail: seq<Byte> :|
        path == lead + Join(names) + trail && (lead == [] || lead == [SEPARATOR]) && GoodTrail(trail, names)
        && (lead == [] && names == [] ==> trail == []);
      LookupOfNames(n, at, names, lead, trail);
    }
    if Lookup(n, at, path).Some? {
      var names := LookupHasNames(n, at, path);
    }
  }

  /** Looking up a written form of names leads to the first child of each name exactly when nothing on the way hides
      one, and so in every tree with names and properties throughout. */
  lemma LookupIff(n: Node, at: nat, path: seq<Byte>, names: seq<seq<Byte>>)
    requires NodeOk(n) && Written(path, names)
    ensures Lookup(n, at, path) == Follow(n, at, names)
      <==>
        (Follow(n, at, names).Some? ==> Unhidden(n, names))
    ensures NamedBelow(n) ==> Lookup(n, at, path) == Follow(n, at, names)
  {
    hide NodeOk, Lookup, Follow, Unhidden, Written, NamedBelow, Descend;
    LookupMeaning(n, at, path);
    DescendIff(n, at, names);
    if NamedBelow(n) {
      NamedIsUnhidden(n, names);
    }
  }

  const NAMED_A := Node([Prop(NAME, [0x61, 0])], [])

  /** A node with one child, named a. */
  const PARENT := Node([PLAIN], [NAMED_A])

  /** The path a// leads to that child. */
  lemma TwoTrailingSeparators()
    ensures NodeOk(PARENT)
    ensures Lookup(PARENT, 0, [0x61, SEPARATOR, SEPARATOR]) == Some((ChildOffset(PARENT, 0, 0), NAMED_A))
  {
    NameOfA();
    var names, trail: seq<Byte> := [[0x61]], [SEPARATOR, SEPARATOR];
    assert names[1..] == [];
    LookupOfNames(PARENT, 0, names, [], trail);
    assert [] + Join(names) + trail == [0x61, SEPARATOR, SEPARATOR];
  }

  lemma NameOfA()
    ensures NameOf(NAMED_A) == Some([0x61])
  {
    var v: seq<Byte> := [0x61, 0];
    assert v[1..] == [0];
    assert CString(v) == [0x61] + CString([0]) == [0x61];
  }

  /** A node whose child named a comes after a child without a name. */
  const UNNAMED_FIRST := Node([PLAIN], [Node([PLAIN], []), NAMED_A])

  /** The path a does not lead to that child. */
  lemma HiddenChild()
    ensures NodeOk(UNNAMED_FIRST) && Lookup(UNNAMED_FIRST, 0, [0x61]) == None
    ensures Follow(UNNAMED_FIRST, 0, [[0x61]]) == Some((ChildOffset(UNNAMED_FIRST, 0, 1), NAMED_A))
  {
    NameOfA();
    var names: seq<seq<Byte>> := [[0x61]];
    assert names[1..] == [];
    assert PropertyOf([PLAIN], NAME) == None by {
      assert [PLAIN][1..] == [];
      assert |PLAIN.name| != |NAME|;
    }
    assert NameOf(UNNAMED_FIRST.children[0]) == None;
    assert FirstNamed(UNNAMED_FIRST.children, [0x61]) == Some(1);
    LookupOfNames(UNNAMED_FIRST, 0, names, [], []);
    assert [] + Join(names) + [] == [0x61];
  }

  lemma LookupOfNames(n: Node, at: nat, names: seq<seq<Byte>>, lead: seq<Byte>, trail: seq<Byte>)
    requires NodeOk(n) && ValidNames(names) && GoodTrail(trail, names)
    requires (lead == [] || lead == [SEPARATOR]) && (lead == [] && names == [] ==> trail == [])
    ensures Lookup(n, at, lead + Join(names) + trail) == Descend(n, at, names)
  {
    hide Walk, Descend;
    var path, body := lead + Join(names) + trail, Join(names) + trail;
    WalkOfNames(n, at, names, trail);
    if lead != [] {
      assert path[1..] == body;
    } else {
      assert path == body;
      if names != [] {
        assert names == [names[0]] + names[1..];
        JoinFront(names[0], names[1..]);
        assert path[0] == names[0][0] && names[0][0] in names[0];
      }
    }
  }

  lemma LookupHasNames(n: Node, at: nat, path: seq<Byte>) returns (names: seq<seq<Byte>>)
    requires NodeOk(n) && Lookup(n, at, path).Some?
    ensures Written(path, names)
  {
    hide Walk, Join;
    var lead := if path != [] && path[0] == SEPARATOR then [SEPARATOR] else [];
    var trail;
    names, trail := WalkHasNames(n, at, path[|lead|..]);
    assert path == lead + Join(names) + trail;
    if lead == [] && names == [] {
      assert Join(names) == [] by { EmptyJoin(); }
      assert path == trail;
    }
  }

  lemma EmptyJoin()
    ensures Join([]) == []
  {
  }
}
