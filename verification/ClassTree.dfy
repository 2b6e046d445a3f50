/** The stackless walk of the Objective-C runtime over the tree of realized classes
    (Swift Compatibility Layer/Objective-C Runtime/runtime-private.h).

    A class points at its first subclass, its next sibling and its superclass.  The walk keeps no
    stack: after a leaf it climbs superclass pointers until a sibling is left to visit. */
module ClassTree {

  /** The three links of `objc_class` that the walk follows. */
  class Class {
    var superclass: Class?
    var firstSubclass: Class?
    var nextSiblingClass: Class?

    constructor ()
      ensures superclass == null && firstSubclass == null && nextSiblingClass == null
    {
      superclass, firstSubclass, nextSiblingClass := null, null, null;
    }
  }

  /** The shape that the links describe: a class and the trees of its direct subclasses. */
  datatype Tree = Node(cls: Class, subs: seq<Tree>)

  ghost function Preorder(t: Tree): seq<Class> {
    [t.cls] + PreorderAll(t.subs)
  }

  ghost function PreorderAll(ts: seq<Tree>): seq<Class> {
    if ts == [] then [] else Preorder(ts[0]) + PreorderAll(ts[1..])
  }

  ghost function Classes(t: Tree): set<Class> {
    {t.cls} + ClassesAll(t.subs)
  }

  ghost function ClassesAll(ts: seq<Tree>): set<Class> {
    if ts == [] then {} else Classes(ts[0]) + ClassesAll(ts[1..])
  }

  /** The heap links below `t.cls` are exactly the tree `t`.  Nothing is said about the superclass and
      the next sibling of `t.cls` itself: `t` may be any subtree of a larger tree. */
  ghost predicate Linked(t: Tree)
    reads Classes(t)
    decreases t, 0
  {
    t.cls.firstSubclass == Head(t.subs) && LinkedAll(t.subs, t.cls)
  }

  /** `ts` is the sibling chain of subclasses of `parent`. */
  ghost predicate LinkedAll(ts: seq<Tree>, parent: Class)
    reads ClassesAll(ts)
    decreases ts, 1
  {
    ts != [] ==>
      && Linked(ts[0])
      && ts[0].cls.superclass == parent
      && ts[0].cls.nextSiblingClass == Head(ts[1..])
      && LinkedAll(ts[1..], parent)
  }

  ghost function Head(ts: seq<Tree>): Class? {
    if ts == [] then null else ts[0].cls
  }

  lemma {:induction false} PreorderMembers(t: Tree, c: Class)
    ensures c in Preorder(t) <==> c in Classes(t)
    decreases t, 0
  {
    PreorderAllMembers(t.subs, c);
  }

  lemma {:induction false} PreorderAllMembers(ts: seq<Tree>, c: Class)
    ensures c in PreorderAll(ts) <==> c in ClassesAll(ts)
    decreases ts, 1
  {
    if ts != [] {
      PreorderMembers(ts[0], c);
      PreorderAllMembers(ts[1..], c);
    }
  }

  // ---------- the links determine the tree, so no class occurs twice ----------

  /** Two trees that the same links describe and that share their root are equal. */
  lemma {:induction false} LinksDetermineTree(t: Tree, u: Tree)
    requires Linked(t) && Linked(u) && t.cls == u.cls
    ensures t == u
    decreases t, 0
  {
    LinksDetermineSiblings(t.subs, u.subs, t.cls);
  }

  lemma {:induction false} LinksDetermineSiblings(ts: seq<Tree>, us: seq<Tree>, parent: Class)
    requires LinkedAll(ts, parent) && LinkedAll(us, parent) && Head(ts) == Head(us)
    ensures ts == us
    decreases ts, 1
  {
    if ts != [] {
      LinksDetermineTree(ts[0], us[0]);
      LinksDetermineSiblings(ts[1..], us[1..], parent);
      assert ts == [ts[0]] + ts[1..] && us == [us[0]] + us[1..];
    }
  }

  ghost function Size(t: Tree): nat {
    1 + SizeAll(t.subs)
  }

  ghost function SizeAll(ts: seq<Tree>): nat {
    if ts == [] then 0 else Size(ts[0]) + SizeAll(ts[1..])
  }

  /** A class below a sibling chain is the root of a linked tree no larger than the chain. */
  lemma {:induction false} SubtreeAt(ts: seq<Tree>, parent: Class, c: Class) returns (s: Tree)
    requires LinkedAll(ts, parent) && c in ClassesAll(ts)
    ensures s.cls == c && Linked(s) && Size(s) <= SizeAll(ts)
  {
    if c in Classes(ts[0]) {
      if c == ts[0].cls {
        s := ts[0];
      } else {
        s := SubtreeAt(ts[0].subs, ts[0].cls, c);
      }
    } else {
      s := SubtreeAt(ts[1..], parent, c);
    }
  }

  /** A class is never its own strict descendant. */
  lemma {:induction false} RootNotBelow(t: Tree)
    requires Linked(t)
    ensures t.cls !in ClassesAll(t.subs)
  {
    if t.cls in ClassesAll(t.subs) {
      var s := SubtreeAt(t.subs, t.cls, t.cls);
      LinksDetermineTree(t, s);
    }
  }

  /** Superclass pointers lead from a class of a tree to a class of that tree, except from its root. */
  lemma {:induction false} SuperclassInside(t: Tree, c: Class)
    requires Linked(t) && c in Classes(t) && c != t.cls
    ensures c.superclass in Classes(t)
    decreases t, 0
  {
    SuperclassInsideAll(t.subs, t.cls, c);
  }

  lemma {:induction false} SuperclassInsideAll(ts: seq<Tree>, parent: Class, c: Class)
    requires LinkedAll(ts, parent) && c in ClassesAll(ts)
    ensures c.superclass == parent || c.superclass in ClassesAll(ts)
    decreases ts, 1
  {
    if c in Classes(ts[0]) {
      if c != ts[0].cls {
        SuperclassInside(ts[0], c);
      }
    } else {
      SuperclassInsideAll(ts[1..], parent, c);
    }
  }

  /** Two linked trees that share a class: one contains the root of the other. */
  lemma {:induction false} SharedClass(t: Tree, u: Tree, c: Class)
    requires Linked(t) && Linked(u) && c in Classes(t) && c in Classes(u)
    ensures t.cls in Classes(u) || u.cls in Classes(t)
    decreases t, 0
  {
    if c != t.cls {
      SharedClassAll(t.subs, t.cls, u, c);
    }
  }

  lemma {:induction false} SharedClassAll(ts: seq<Tree>, parent: Class, u: Tree, c: Class)
    requires LinkedAll(ts, parent) && Linked(u) && c in ClassesAll(ts) && c in Classes(u)
    ensures parent in Classes(u) || u.cls in ClassesAll(ts)
    decreases ts, 1
  {
    if c in Classes(ts[0]) {
      SharedClass(ts[0], u, c);
      if u.cls !in Classes(ts[0]) {
        SuperclassInside(u, ts[0].cls);
      }
    } else {
      SharedClassAll(ts[1..], parent, u, c);
    }
  }

  /** A tree shares no class with the siblings that follow it. */
  lemma {:induction false} SiblingsDisjoint(s: Tree, ts: seq<Tree>, us: seq<Tree>, parent: Class, c: Class)
    requires Linked(s) && s.cls.superclass == parent && s.cls.nextSiblingClass == Head(ts) && LinkedAll(ts, parent)
    requires LinkedAll(us, parent) && |us| <= |ts| && c in Classes(s) && c in ClassesAll(us)
    requires parent !in Classes(s) && parent !in ClassesAll(us)
    ensures false
    decreases us
  {
    var u := us[0];
    if c in Classes(u) {
      SharedClass(s, u, c);
      if s.cls == u.cls {
        LinksDetermineSiblings(ts, us[1..], parent);
      } else if s.cls in Classes(u) {
        SuperclassInside(u, s.cls);
      } else {
        SuperclassInside(s, u.cls);
      }
    } else {
      SiblingsDisjoint(s, ts, us[1..], parent, c);
    }
  }

  ghost predicate NoRepeats(s: seq<Class>) {
    forall i, j :: 0 <= i < j < |s| ==> s[i] != s[j]
  }

  /** A preorder listing of linked classes names each class once. */
  lemma {:induction false} PreorderNoRepeats(t: Tree)
    requires Linked(t)
    ensures NoRepeats(Preorder(t))
    decreases t, 0
  {
    RootNotBelow(t);
    PreorderAllNoRepeats(t.subs, t.cls);
    PreorderAllMembers(t.subs, t.cls);
  }

  lemma {:induction false} PreorderAllNoRepeats(ts: seq<Tree>, parent: Class)
    requires LinkedAll(ts, parent) && parent !in ClassesAll(ts)
    ensures NoRepeats(PreorderAll(ts))
    decreases ts, 1
  {
    if ts != [] {
      PreorderNoRepeats(ts[0]);
      PreorderAllNoRepeats(ts[1..], parent);
      var first, rest := Preorder(ts[0]), PreorderAll(ts[1..]);
      forall i, j | 0 <= i < |first| && 0 <= j < |rest| ensures first[i] != rest[j] {
        if first[i] == rest[j] {
          PreorderMembers(ts[0], first[i]);
          PreorderAllMembers(ts[1..], rest[j]);
          SiblingsDisjoint(ts[0], ts[1..], ts[1..], parent, first[i]);
        }
      }
    }
  }

  // ---------- the walk ----------

  /** A step down from `parent` into its subclass number `i`. */
  datatype Frame = Frame(parent: Tree, i: nat)

  /** `frames` leads from `top` down to `cur`. */
  ghost predicate Path(frames: seq<Frame>, top: Tree, cur: Tree) {
    if frames == [] then cur == top
    else
      var f := frames[|frames| - 1];
      f.i < |f.parent.subs| && f.parent.subs[f.i] == cur && Path(frames[..|frames| - 1], top, f.parent)
  }

  /** What is left to visit once the subtree at the end of `frames` is finished. */
  ghost function After(frames: seq<Frame>): seq<Class> {
    if frames == [] then []
    else
      var f := frames[|frames| - 1];
      (if f.i < |f.parent.subs| then PreorderAll(f.parent.subs[f.i + 1..]) else []) + After(frames[..|frames| - 1])
  }

  /** Everything the walk needs to know about the links of the class it stands on. */
  lemma {:induction false} OnPath(frames: seq<Frame>, top: Tree, cur: Tree)
    requires Linked(top) && Path(frames, top, cur)
    ensures Linked(cur)
    ensures frames == [] <==> cur.cls == top.cls
    ensures frames != [] ==>
              var f := frames[|frames| - 1];
              && cur.cls in ClassesAll(top.subs)
              && cur.cls.superclass == f.parent.cls
              && cur.cls.nextSiblingClass == Head(f.parent.subs[f.i + 1..])
  {
    if frames != [] {
      var f := frames[|frames| - 1];
      OnPath(frames[..|frames| - 1], top, f.parent);
      SubclassAt(f.parent.subs, f.parent.cls, f.i);
      if |frames| > 1 {
        StillBelow(top.subs, top.cls, f.parent, cur);
      }
      RootNotBelow(top);
    }
  }

  lemma {:induction false} SubclassAt(ts: seq<Tree>, parent: Class, i: nat)
    requires LinkedAll(ts, parent) && i < |ts|
    ensures Linked(ts[i]) && ts[i].cls.superclass == parent && ts[i].cls.nextSiblingClass == Head(ts[i + 1..])
    ensures ts[i].cls in ClassesAll(ts)
  {
    if i > 0 {
      SubclassAt(ts[1..], parent, i - 1);
      assert ts[1..][i..] == ts[i + 1..];
    }
  }

  lemma {:induction false} StillBelow(ts: seq<Tree>, parent: Class, above: Tree, cur: Tree)
    requires LinkedAll(ts, parent) && Linked(above) && above.cls in ClassesAll(ts) && cur.cls in ClassesAll(above.subs)
    ensures cur.cls in ClassesAll(ts)
  {
    if above.cls in Classes(ts[0]) {
      if above.cls == ts[0].cls {
        LinksDetermineTree(above, ts[0]);
      } else {
        StillBelow(ts[0].subs, ts[0].cls, above, cur);
      }
    } else {
      StillBelow(ts[1..], parent, above, cur);
    }
  }

  /** One more frame on the path. */
  lemma {:induction false} Pushed(above: seq<Frame>, f: Frame, top: Tree, cur: Tree)
    requires Path(above, top, f.parent) && f.i < |f.parent.subs| && f.parent.subs[f.i] == cur
    ensures Path(above + [f], top, cur) && After(above + [f]) == PreorderAll(f.parent.subs[f.i + 1..]) + After(above)
  {
    var frames := above + [f];
    assert frames[..|frames| - 1] == above;
  }

  /** Going down to the first subclass leaves the same classes to visit. */
  lemma {:induction false} Descend(frames: seq<Frame>, top: Tree, cur: Tree)
    requires Path(frames, top, cur) && cur.subs != []
    ensures var down := frames + [Frame(cur, 0)];
      Path(down, top, cur.subs[0]) && Preorder(cur.subs[0]) + After(down) == PreorderAll(cur.subs) + After(frames)
  {
    Pushed(frames, Frame(cur, 0), top, cur.subs[0]);
  }

  /** Climbing from a last sibling leaves the same classes to visit. */
  lemma {:induction false} Climb(frames: seq<Frame>, top: Tree, cur: Tree)
    requires Path(frames, top, cur) && frames != []
    requires var f := frames[|frames| - 1]; Head(f.parent.subs[f.i + 1..]) == null
    ensures After(frames) == After(frames[..|frames| - 1])
  {
  }

  /** Moving on to the next sibling starts on what was left. */
  lemma {:induction false} Sideways(frames: seq<Frame>, top: Tree, cur: Tree)
    requires Path(frames, top, cur) && frames != []
    requires var f := frames[|frames| - 1]; Head(f.parent.subs[f.i + 1..]) != null
    ensures var f := frames[|frames| - 1];
      var next := frames[..|frames| - 1] + [Frame(f.parent, f.i + 1)];
      && f.i + 1 < |f.parent.subs| && Path(next, top, f.parent.subs[f.i + 1])
      && Preorder(f.parent.subs[f.i + 1]) + After(next) == After(frames)
  {
    var f, above := frames[|frames| - 1], frames[..|frames| - 1];
    var tail := f.parent.subs[f.i + 1..];
    assert tail[1..] == f.parent.subs[f.i + 1 + 1..];
    Pushed(above, Frame(f.parent, f.i + 1), top, tail[0]);
    assert After(frames) == Preorder(tail[0]) + PreorderAll(tail[1..]) + After(above);
  }

  /** The calls that a block makes of a list of classes: up to and including the first it answers with false.
      The block may take all its earlier calls into account. */
  ghost function CallsUntilFalse(code: (seq<Class>, Class) -> bool, done: seq<Class>, todo: seq<Class>): seq<Class>
    decreases |todo|
  {
    if todo == [] then done
    else if !code(done, todo[0]) then done + [todo[0]]
    else CallsUntilFalse(code, done + [todo[0]], todo[1..])
  }

  /** `called` records the classes handed to `code`, in order. */
  method ForeachRealizedClassAndSubclass2(top: Class, code: (seq<Class>, Class) -> bool, ghost tree: Tree)
    returns (called: seq<Class>)
    requires tree.cls == top && Linked(tree)
    ensures called == CallsUntilFalse(code, [], Preorder(tree))
  {
    var cls := top;
    called := [];
    ghost var cur := tree;
    ghost var frames: seq<Frame> := [];
    ghost var todo := Preorder(tree);
    while true
      invariant Linked(tree) && cur.cls == cls && Path(frames, tree, cur) && todo == Preorder(cur) + After(frames)
      invariant CallsUntilFalse(code, called, todo) == CallsUntilFalse(code, [], Preorder(tree))
      decreases |todo|
    {
      OnPath(frames, tree, cur);
      if !code(called, cls) {
        called := called + [cls];
        break;
      }
      called := called + [cls];
      todo := todo[1..];
      assert todo == PreorderAll(cur.subs) + After(frames);

      if cls.firstSubclass != null {
        Descend(frames, tree, cur);
        cls := cls.firstSubclass;
        frames := frames + [Frame(cur, 0)];
        cur := cur.subs[0];
      } else {
        while cls.nextSiblingClass == null && cls != top
          invariant Linked(tree) && cur.cls == cls && Path(frames, tree, cur) && todo == After(frames)
          decreases |frames|
        {
          OnPath(frames, tree, cur);
          Climb(frames, tree, cur);
          cls := cls.superclass;
          cur := frames[|frames| - 1].parent;
          frames := frames[..|frames| - 1];
        }
        OnPath(frames, tree, cur);
        if cls == top {
          break;
        }
        Sideways(frames, tree, cur);
        cls := cls.nextSiblingClass;
        ghost var f := frames[|frames| - 1];
        cur := f.parent.subs[f.i + 1];
        frames := frames[..|frames| - 1] + [Frame(f.parent, f.i + 1)];
      }
    }
  }

  /** The void-block form: it calls `code` on every class, once, parents before subclasses. */
  method ForeachRealizedClassAndSubclass(top: Class, ghost tree: Tree) returns (called: seq<Class>)
    requires tree.cls == top && Linked(tree)
    ensures called == Preorder(tree)
  {
    called := ForeachRealizedClassAndSubclass2(top, (done, cls) => true, tree);
    AlwaysTrue((done, cls) => true, [], Preorder(tree));
  }

  lemma {:induction false} AlwaysTrue(code: (seq<Class>, Class) -> bool, done: seq<Class>, todo: seq<Class>)
    requires forall d, c :: code(d, c)
    ensures CallsUntilFalse(code, done, todo) == done + todo
    decreases |todo|
  {
    if todo != [] {
      AlwaysTrue(code, done + [todo[0]], todo[1..]);
    }
  }

  /** `calls` starts the list `all`; every call but the last was answered true, and the list was cut short
      only right after an answer of false. */
  ghost predicate StopsAtFirstFalse(code: (seq<Class>, Class) -> bool, calls: seq<Class>, all: seq<Class>) {
    && calls <= all
    && (forall i :: 0 <= i < |calls| - 1 ==> code(calls[..i], calls[i]))
    && (calls != all ==> calls != [] && !code(calls[..|calls| - 1], calls[|calls| - 1]))
  }

  lemma {:induction false} CallsStopAtFirstFalse(code: (seq<Class>, Class) -> bool, all: seq<Class>)
    ensures StopsAtFirstFalse(code, CallsUntilFalse(code, [], all), all)
  {
    CallsFrom(code, [], all);
    assert [] + all == all;
  }

  lemma {:induction false} CallsFrom(code: (seq<Class>, Class) -> bool, done: seq<Class>, todo: seq<Class>)
    requires forall i :: 0 <= i < |done| ==> code(done[..i], done[i])
    ensures StopsAtFirstFalse(code, CallsUntilFalse(code, done, todo), done + todo)
    decreases |todo|
  {
    if todo != [] {
      var calls := CallsUntilFalse(code, done, todo);
      var more := done + [todo[0]];
      assert more[..|done|] == done;
      assert forall i :: 0 <= i < |done| ==> more[..i] == done[..i];
      if code(done, todo[0]) {
        CallsFrom(code, more, todo[1..]);
        assert done + todo == more + todo[1..];
      }
    }
  }

  /** The classes called belong to the subtree of `top`, never to its siblings or ancestors, and none is called
      twice; a walk that was not cut short calls them all. */
  lemma {:induction false} CallsCoverSubtree(calls: seq<Class>, tree: Tree)
    requires Linked(tree) && calls <= Preorder(tree)
    ensures NoRepeats(calls)
    ensures forall c :: c in calls ==> c in Classes(tree)
    ensures calls == Preorder(tree) ==> forall c :: c in calls <==> c in Classes(tree)
  {
    PreorderNoRepeats(tree);
    PrefixNoRepeats(calls, Preorder(tree));
    forall c ensures c in Preorder(tree) <==> c in Classes(tree) {
      PreorderMembers(tree, c);
    }
  }

  lemma PrefixNoRepeats(s: seq<Class>, t: seq<Class>)
    requires s <= t && NoRepeats(t)
    ensures NoRepeats(s) && forall c :: c in s ==> c in t
  {
  }
}
