// The variable tables of csh: look up, set, unset and list.
module CshSet {
  import opened CshName
  import opened CshPower
  import opened CshTree
  import opened CshTable
  import opened CshHeap
  import opened CshBalance

  // The tree `t` of a table hangs off the left link of its header.
  ghost predicate Valid(head: Varent, t: VTree)
    reads head, Fp(t)
  {
    At(Top(head), t) && Table(t)
  }

  // The entries of a table come in the order of their names.
  lemma TableOrdered(head: Varent, t: VTree)
    requires Valid(head, t)
    ensures Ordered(InOrder(t))
  {
    SortedOrdered(InOrder(t));
  }

  // The hole of `c` is where `name` belongs.
  ghost predicate Search(c: VCtx, name: Name) {
    Below(Before(c), name) && Above(After(c), name)
  }

  lemma SearchLeft(c: VCtx, t: VTree, name: Name)
    requires t.Node? && Search(c, name) && Sorted(InOrder(Plug(c, t))) && Less(name, t.entry.name)
    ensures Search(InLeft(c, t.id, t.entry, t.bal, t.right), name)
  {
    PlugInOrder(c, t);
    var a, b, r := Before(c) + InOrder(t.left), InOrder(t.right), After(c);
    assert Before(c) + InOrder(t) + After(c) == a + [t.entry] + (b + r);
    SortedParts(a, t.entry, b + r);
    assert forall i :: 0 <= i < |b| ==> b[i] == (b + r)[i];
    forall i | 0 <= i < |b| ensures Less(name, b[i].name) {
      LessIsTotalOrder(name, t.entry.name, b[i].name);
    }
  }

  lemma SearchRight(c: VCtx, t: VTree, name: Name)
    requires t.Node? && Search(c, name) && Sorted(InOrder(Plug(c, t))) && Less(t.entry.name, name)
    ensures Search(InRight(c, t.left, t.id, t.entry, t.bal), name)
  {
    PlugInOrder(c, t);
    var a, l, b := Before(c), InOrder(t.left), InOrder(t.right) + After(c);
    assert Before(c) + InOrder(t) + After(c) == (a + l) + [t.entry] + b;
    SortedParts(a + l, t.entry, b);
    assert forall i :: 0 <= i < |l| ==> l[i] == (a + l)[|a| + i];
    forall i | 0 <= i < |l| ensures Less(l[i].name, name) {
      LessIsTotalOrder(l[i].name, t.entry.name, name);
    }
  }

  // Where a search for `name` stands: at tree `u`, below the parent p of the
  // hole of `c`.
  ghost predicate Searching(head: Varent, t: VTree, name: Name, c: VCtx, u: VTree)
    reads FpC(c), Fp(u)
  {
    && At(c, u) && Plug(c, u) == t && All(c, u) == All(Top(head), t)
    && Search(c, name) && Header(c) == head
  }

  lemma StepDown(head: Varent, t: VTree, name: Name, c: VCtx, u: VTree)
    requires Searching(head, t, name, c, u) && Sorted(InOrder(t)) && u.Node?
    ensures u.id.name == u.entry.name && u.id.left == Root(u.left) && u.id.right == Root(u.right)
    ensures Less(name, u.entry.name) ==>
      Searching(head, t, name, InLeft(c, u.id, u.entry, u.bal, u.right), u.left)
    ensures Less(u.entry.name, name) ==>
      Searching(head, t, name, InRight(c, u.left, u.id, u.entry, u.bal), u.right)
  {
    NodeLinked(u, c.id);
    DownLeft(c, u);
    DownRight(c, u);
    if Less(name, u.entry.name) {
      SearchLeft(c, u, name);
    }
    if Less(u.entry.name, name) {
      SearchRight(c, u, name);
    }
  }

  // The end of a search: at the entry, or at the place where it would be.
  lemma SearchAbsent(t: VTree, name: Name, c: VCtx, vec: Vec)
    requires Plug(c, Nil) == t && Sorted(InOrder(t)) && Search(c, name)
    ensures name !in Vars(t) && InOrder(t) == Before(c) + After(c)
    ensures Sorted(Before(c) + [Entry(name, vec)] + After(c))
    ensures Contents(Before(c) + [Entry(name, vec)] + After(c)) == Vars(t)[name := vec]
  {
    var a, b := Before(c), After(c);
    PlugInOrder(c, Nil);
    assert a + [] + b == a + b;
    SortedParts(a, Entry(name, vec), b);
    ContentsParts(a, Entry(name, vec), b);
  }

  lemma HoleInOrder(c: VCtx, u: VTree)
    requires u.Node?
    ensures Before(c) + InOrder(u) + After(c) == (Before(c) + InOrder(u.left)) + [u.entry] + (InOrder(u.right) + After(c))
  {
    hide Before; hide After;
    Regroup(Before(c), InOrder(u.left), [u.entry], InOrder(u.right), After(c));
  }

  lemma Regroup<T>(b: seq<T>, l: seq<T>, e: seq<T>, r: seq<T>, a: seq<T>)
    ensures b + (l + e + r) + a == (b + l) + e + (r + a)
  {
  }

  lemma SearchFound(t: VTree, c: VCtx, u: VTree)
    requires Plug(c, u) == t && Sorted(InOrder(t)) && u.Node?
    ensures var a, b := Before(c) + InOrder(u.left), InOrder(u.right) + After(c);
            && InOrder(t) == a + [u.entry] + b && Sorted(a + b) && u.entry.name !in Contents(a + b)
            && Vars(t) == Contents(a + b)[u.entry.name := u.entry.vec]
  {
    hide Sorted; hide Contents; hide Plug; hide InOrder; hide Before; hide After;
    PlugInOrder(c, u);
    HoleInOrder(c, u);
    ContentsParts(Before(c) + InOrder(u.left), u.entry, InOrder(u.right) + After(c));
  }

  // adrof1: the record of `name`, or null.  The walk takes no more steps than
  // the table is high, hence at most twice the logarithm of its size.
  method Adrof1(name: Name, head: Varent, ghost t: VTree) returns (v: Varent?, ghost steps: nat)
    requires Valid(head, t)
    ensures v == null <==> name !in Vars(t)
    ensures v != null ==> v in Fp(t) && v.name == name && Vars(t)[name] == v.vec
    ensures steps <= Height(t) && Pow2(steps / 2) <= Size(t) + 1
  {
    hide At; hide Linked; hide LinkedCtx; hide Sep; hide SepC; hide FpC; hide Search; hide Sorted; hide InOrder;
    hide Compare; hide Contents; hide Plug; hide Avl; hide Pow2;
    HeightLogarithmic(t);
    SearchStart(head, t, name);
    v := head.left;
    steps := 0;
    ghost var c: VCtx, u := Top(head), t;
    while v != null
      invariant Searching(head, t, name, c, u) && v == Root(u) && steps + Height(u) <= Height(t)
      invariant Fp(u) <= Fp(t)
      decreases u
    {
      StepDown(head, t, name, c, u);
      var cmp := Compare(name, v.name);
      LessIsTotalOrder(name, v.name, name);
      if cmp == 0 {
        break;
      } else if cmp < 0 {
        v, c, u := v.left, InLeft(c, u.id, u.entry, u.bal, u.right), u.left;
      } else {
        v, c, u := v.right, InRight(c, u.left, u.id, u.entry, u.bal), u.right;
      }
      steps := steps + 1;
    }
    if v == null {
      SearchAbsent(t, name, c, []);
    } else {
      RootFields(c, u);
      SearchFound(t, c, u);
    }
    PowMonotone(steps / 2, Height(t) / 2);
  }

  lemma SearchStart(head: Varent, t: VTree, name: Name)
    requires Valid(head, t)
    ensures Searching(head, t, name, Top(head), t) && head.left == Root(t)
  {
    assert HoleIs(Top(head), Root(t));
  }

  lemma RootFields(c: VCtx, u: VTree)
    requires At(c, u)
    ensures u.Node? ==> u.id.name == u.entry.name && u.id.vec == u.entry.vec && u.id in Fp(u)
  {
  }

  // -------------------------------------------------------------- setq

  // A tree in the hole of `c` whose height there is as before.
  lemma Settled(head: Varent, c: VCtx, u: VTree, u': VTree)
    requires At(c, u') && Avl(Plug(c, u)) && Avl(u') && Height(u') == Height(u) && Header(c) == head
    requires Sorted(Before(c) + InOrder(u') + After(c))
    ensures Valid(head, Plug(c, u')) && InOrder(Plug(c, u')) == Before(c) + InOrder(u') + After(c)
    ensures All(Top(head), Plug(c, u')) == All(c, u')
  {
    PlugAvl(c, u);
    PlugAvl(c, u');
    PlugInOrder(c, u');
    UpToTop(c, u');
  }

  // The found case of setq: a new value for an entry.
  method Assign(v: Varent, vec: Vec, head: Varent, ghost t: VTree, ghost c: VCtx, ghost u: VTree)
    returns (ghost t': VTree)
    requires At(c, u) && Plug(c, u) == t && Header(c) == head && Table(t) && u.Node? && v == u.id
    modifies v`vec
    ensures Valid(head, t') && All(Top(head), t') == All(c, u)
    ensures Vars(t') == Vars(t)[u.entry.name := vec]
  {
    ghost var e' := Entry(u.entry.name, vec);
    ghost var u' := u.(entry := e');
    AssignPure(t, c, u, vec);
    hide Sorted; hide Contents; hide Plug; hide InOrder; hide Before; hide After;
    hide Linked; hide Sep; hide Fp; hide FpC; hide SepC; hide LinkedCtx; hide Avl; hide Height;
    NodeLinked(u, c.id);
    v.vec := vec;
    NodeLinked(u', c.id);
    Settled(head, c, u, u');
    t' := Plug(c, u');
  }

  lemma AssignPure(t: VTree, c: VCtx, u: VTree, vec: Vec)
    requires Plug(c, u) == t && Table(t) && u.Node?
    ensures var u' := u.(entry := Entry(u.entry.name, vec));
            && Avl(u') && Height(u') == Height(u)
            && Sorted(Before(c) + InOrder(u') + After(c))
            && Contents(Before(c) + InOrder(u') + After(c)) == Vars(t)[u.entry.name := vec]
  {
    hide Sorted; hide Contents; hide Plug; hide InOrder; hide Before; hide After; hide Below; hide Above;
    var e' := Entry(u.entry.name, vec);
    var u' := u.(entry := e');
    var a, b := Before(c) + InOrder(u.left), InOrder(u.right) + After(c);
    PlugAvl(c, u);
    SearchFound(t, c, u);
    HoleInOrder(c, u');
    SortedParts(a, u.entry, b);
    SortedParts(a, e', b);
    ContentsParts(a, e', b);
  }

  // A new leaf in the hole of `c`.
  method Attach(p: Varent, f: bool, name: Name, vec: Vec, ghost c: VCtx) returns (n: Varent, ghost u: VTree)
    requires At(c, Nil) && p == c.id && f == c.InRight?
    modifies p`left, p`right
    ensures fresh(n) && u == Node(Nil, n, Entry(name, vec), 0, Nil) && At(c, u)
  {
    CtxAllocated(c);
    IdInFp(c);
    n := new Varent(name, vec);
    u := Node(Nil, n, Entry(name, vec), 0, Nil);
    n.parent := p;
    SetLink(p, f, n, c);
  }

  // What rebalancing after an insertion or deletion amounts to.
  lemma Rebalanced(head: Varent, c0: VCtx, t0: VTree, d: bool, h: nat, c: VCtx, t: VTree)
    requires At(c, t) && Plug(c, t) == Retrace(c0, t0, d) && Header(c) == head
    requires CtxAvl(c0, h) && Avl(t0) && Height(t0) == if d then h - 1 else h + 1
    requires Sorted(Before(c0) + InOrder(t0) + After(c0))
    ensures Valid(head, Plug(c, t)) && All(Top(head), Plug(c, t)) == All(c, t)
    ensures InOrder(Plug(c, t)) == Before(c0) + InOrder(t0) + After(c0)
  {
    RetraceAvl(c0, t0, d, h);
    RetraceInOrder(c0, t0, d);
    UpToTop(c, t);
  }

  lemma LeafInOrder(n: Varent, e: Entry)
    ensures InOrder(Node(Nil, n, e, 0, Nil)) == [e]
    ensures Fp(Node(Nil, n, e, 0, Nil)) == {n}
    ensures Avl(Node(Nil, n, e, 0, Nil)) && Height(Node(Nil, n, e, 0, Nil)) == 1
  {
  }

  // setq: set a variable, adding its record where there is none.
  method SetQ(name: Name, vec: Vec, head: Varent, ghost t: VTree) returns (ghost t': VTree)
    requires Valid(head, t)
    modifies head, Fp(t)
    ensures Valid(head, t') && Vars(t') == Vars(t)[name := vec] && Ordered(InOrder(t'))
    ensures Fp(t) <= Fp(t') && fresh(Fp(t') - Fp(t))
    ensures name in Vars(t) ==> Fp(t') == Fp(t)
  {
    hide At; hide Linked; hide LinkedCtx; hide Sep; hide SepC; hide FpC; hide Search; hide Sorted; hide InOrder;
    hide Compare; hide Contents; hide Plug; hide Avl; hide Fp; hide Before; hide After; hide Ordered;
    SearchStart(head, t, name);
    AllFp(head, t);
    var p, f := head, false;
    var v := head.left;
    ghost var c: VCtx, u := Top(head), t;
    while v != null
      invariant Searching(head, t, name, c, u) && v == Root(u) && p == c.id && f == c.InRight?
      modifies {}
      decreases u
    {
      StepDown(head, t, name, c, u);
      var cmp := Compare(name, v.name);
      LessIsTotalOrder(name, v.name, name);
      if cmp == 0 {
        break;
      }
      p, f := v, cmp > 0;
      if f {
        v, c, u := v.right, InRight(c, u.left, u.id, u.entry, u.bal), u.right;
      } else {
        v, c, u := v.left, InLeft(c, u.id, u.entry, u.bal, u.right), u.left;
      }
    }
    if v != null {
      SearchFound(t, c, u);
      RootFields(c, u);
      t' := Assign(v, vec, head, t, c, u);
      AllFp(head, t');
      TableOrdered(head, t');
      return;
    }
    SearchAbsent(t, name, c, vec);
    PlugAvl(c, Nil);
    IdInFp(c);
    NilFp(c);
    v, u := Attach(p, f, name, vec, c);
    LeafInOrder(v, Entry(name, vec));
    ghost var c1, t1 := Balance(p, f, false, c, u, 0);
    Rebalanced(head, c, u, false, 0, c1, t1);
    t' := Plug(c1, t1);
    AllFp(head, t');
    TableOrdered(head, t');
  }

  lemma NilFp(c: VCtx)
    ensures All(c, Nil) == FpC(c)
  {
  }

  lemma AllFp(head: Varent, t: VTree)
    requires Valid(head, t)
    ensures head !in Fp(t) && All(Top(head), t) == Fp(t) + {head}
    ensures forall o :: o in Fp(t) ==> allocated(o)
  {
    FpAllocated(t);
  }

  // ------------------------------------------------------------ unsetv1

  // The node that record `p` holds, as a context and the tree below it.
  ghost function Focus(c: VCtx, t: VTree, p: Varent): (r: (VCtx, VTree))
    requires p in Fp(t)
    ensures r.1.Node? && r.1.id == p && Plug(r.0, r.1) == Plug(c, t) && Header(r.0) == Header(c)
    decreases t
  {
    if t.id == p then (c, t)
    else if p in Fp(t.left) then Focus(InLeft(c, t.id, t.entry, t.bal, t.right), t.left, p)
    else Focus(InRight(c, t.left, t.id, t.entry, t.bal), t.right, p)
  }

  lemma {:induction false} FocusAt(c: VCtx, t: VTree, p: Varent)
    requires p in Fp(t) && At(c, t)
    ensures var (c', t') := Focus(c, t, p); At(c', t') && All(c', t') == All(c, t)
    decreases t
  {
    DownLeft(c, t);
    DownRight(c, t);
    if t.id == p {
    } else if p in Fp(t.left) {
      FocusAt(InLeft(c, t.id, t.entry, t.bal, t.right), t.left, p);
    } else {
      FocusAt(InRight(c, t.left, t.id, t.entry, t.bal), t.right, p);
    }
  }

  // The rightmost node of a tree, likewise.
  ghost function MaxCtx(c: VCtx, t: VTree): (r: (VCtx, VTree))
    requires t.Node?
    ensures r.1.Node? && r.1.right.Nil? && Header(r.0) == Header(c)
    ensures Plug(r.0, r.1) == Plug(c, t) && After(r.0) == After(c)
    decreases t
  {
    if t.right.Nil? then (c, t) else MaxCtx(InRight(c, t.left, t.id, t.entry, t.bal), t.right)
  }

  lemma {:induction false} MaxAt(c: VCtx, t: VTree)
    requires t.Node? && At(c, t)
    ensures var (c', t') := MaxCtx(c, t); At(c', t') && All(c', t') == All(c, t)
    decreases t
  {
    if !t.right.Nil? {
      DownRight(c, t);
      MaxAt(InRight(c, t.left, t.id, t.entry, t.bal), t.right);
    }
  }

  lemma {:induction false} MaxBefore(c: VCtx, t: VTree)
    requires t.Node?
    ensures var (c', t') := MaxCtx(c, t); Before(c') + InOrder(t') == Before(c) + InOrder(t)
    decreases t
  {
    if !t.right.Nil? {
      var c1 := InRight(c, t.left, t.id, t.entry, t.bal);
      MaxBefore(c1, t.right);
      assert Before(c) + (InOrder(t.left) + [t.entry] + InOrder(t.right)) == Before(c1) + InOrder(t.right);
    }
  }

  // Which node is rightmost does not depend on what is above.
  lemma {:induction false} MaxSame(c: VCtx, d: VCtx, t: VTree)
    requires t.Node?
    ensures MaxCtx(c, t).1 == MaxCtx(d, t).1
    decreases t
  {
    if !t.right.Nil? {
      MaxSame(InRight(c, t.left, t.id, t.entry, t.bal), InRight(d, t.left, t.id, t.entry, t.bal), t.right);
    }
  }

  lemma HoleSide(c: VCtx, u: VTree)
    requires At(c, u) && u.Node?
    ensures u.id.parent == c.id && (c.id.right == u.id <==> c.InRight?)
  {
    if c.InLeft? && c.right.Node? {
      assert c.right.id in Fp(c.right) && u.id in Fp(u);
    }
  }

  ghost function Child(u: VTree): VTree
    requires u.Node?
  {
    if u.right.Nil? then u.left else u.right
  }

  // The only child `ch` of record p is moved into the place of p.
  method Bypass(p: Varent, ch: Varent?, ghost c: VCtx, ghost u: VTree) returns (pp: Varent, f: bool)
    requires At(c, u) && u.Node? && p == u.id && (u.left.Nil? || u.right.Nil?) && ch == Root(Child(u))
    modifies All(c, u)
    ensures At(c, Child(u)) && pp == c.id && f == c.InRight?
    ensures p !in All(c, Child(u)) && All(c, Child(u)) + {p} == All(c, u)
  {
    hide LinkedCtx; hide SepC; hide FpC;
    HoleSide(c, u);
    NodeLinked(u, c.id);
    CtxAllocated(c);
    FpAllocated(u);
    IdInFp(c);
    pp := p.parent;
    f := pp.right == p;
    SetLink(pp, f, ch, c);
    SetParent(ch, pp, Child(u), p);
  }

  // The last part of unsetv1: node `u`, which lacks a child, is bypassed, and
  // the tree is rebalanced from there on.
  method Splice(p: Varent, ghost c: VCtx, ghost u: VTree, ghost head: Varent)
    returns (ghost t': VTree)
    requires At(c, u) && u.Node? && p == u.id && (u.left.Nil? || u.right.Nil?)
    requires Header(c) == head && Avl(Plug(c, u)) && Sorted(Before(c) + InOrder(Child(u)) + After(c))
    modifies All(c, u)
    ensures Valid(head, t') && p !in All(Top(head), t') && All(Top(head), t') + {p} == All(c, u)
    ensures InOrder(t') == Before(c) + InOrder(Child(u)) + After(c)
  {
    hide Linked; hide LinkedCtx; hide Sep; hide SepC; hide FpC; hide Sorted; hide InOrder;
    hide Plug; hide Avl; hide Fp; hide Before; hide After; hide CtxAvl; hide Height; hide Retrace;
    SpliceAvl(c, u);
    NodeLinked(u, c.id);
    var pp, f := Bypass(p, if p.right == null then p.left else p.right, c, u);
    ghost var c1, t1 := Balance(pp, f, true, c, Child(u), Height(u));
    Rebalanced(head, c, Child(u), true, Height(u), c1, t1);
    t' := Plug(c1, t1);
  }

  lemma SpliceAvl(c: VCtx, u: VTree)
    requires u.Node? && (u.left.Nil? || u.right.Nil?) && Avl(Plug(c, u))
    ensures CtxAvl(c, Height(u)) && Avl(Child(u)) && Height(Child(u)) == Height(u) - 1
  {
    PlugAvl(c, u);
  }

  lemma CopyAvl(c: VCtx, u: VTree, e: Entry)
    requires u.Node? && Avl(Plug(c, u))
    ensures Avl(Plug(c, u.(entry := e)))
  {
    PlugAvl(c, u);
    PlugAvl(c, u.(entry := e));
  }

  ghost function LeftHole(c: VCtx, u: VTree): VCtx
    requires u.Node?
  {
    InLeft(c, u.id, u.entry, u.bal, u.right)
  }

  // Node `u` with the entry `e`, and its rightmost left descendant taken out.
  lemma CopyPure(c: VCtx, u: VTree, e: Entry)
    requires u.Node? && u.left.Node? && Avl(Plug(c, u)) && e == MaxCtx(LeftHole(c, u), u.left).1.entry
    ensures var u' := u.(entry := e);
            var (c2, v) := MaxCtx(LeftHole(c, u'), u.left);
            && v == MaxCtx(LeftHole(c, u), u.left).1 && Avl(Plug(c2, v)) && Header(c2) == Header(c)
            && Before(c2) + InOrder(Child(v)) + After(c2) ==
                 (Before(c) + InOrder(u.left)) + (InOrder(u.right) + After(c))
  {
    hide InOrder; hide Avl; hide Plug; hide MaxCtx;
    var u' := u.(entry := e);
    var (c2, v) := MaxCtx(LeftHole(c, u'), u.left);
    MaxSame(LeftHole(c, u), LeftHole(c, u'), u.left);
    CopyAvl(c, u, e);
    PlugLeft(c, u');
    MaxBefore(LeftHole(c, u'), u.left);
    VInOrder(v);
    CopyText(Before(c2), InOrder(v.left), e, Before(c), InOrder(u.left), InOrder(u.right), After(c));
  }

  lemma PlugLeft(c: VCtx, u: VTree)
    requires u.Node?
    ensures Plug(LeftHole(c, u), u.left) == Plug(c, u) && Header(LeftHole(c, u)) == Header(c)
  {
  }

  lemma FocusTop(head: Varent, t: VTree, p: Varent)
    requires Valid(head, t) && p in Fp(t)
    ensures var (c, u) := Focus(Top(head), t, p);
            At(c, u) && All(c, u) == All(Top(head), t) && Plug(c, u) == t && Header(c) == head
  {
    FocusAt(Top(head), t, p);
  }

  lemma VInOrder(v: VTree)
    requires v.Node? && v.right.Nil?
    ensures InOrder(v) == InOrder(v.left) + [v.entry]
  {
  }

  lemma CopyText(b2: seq<Entry>, l: seq<Entry>, e: Entry, b: seq<Entry>, ul: seq<Entry>, ur: seq<Entry>, a: seq<Entry>)
    requires b2 + (l + [e]) == b + ul
    ensures b2 + l + ([e] + ur + a) == (b + ul) + (ur + a)
  {
    assert b2 + l + [e] == b2 + (l + [e]);
  }

  // Copying the predecessor's name and value into a node.
  method CopyEntry(p: Varent, q: Varent, ghost c: VCtx, ghost u: VTree)
    requires At(c, u) && u.Node? && p == u.id
    modifies p`name, p`vec
    ensures At(c, u.(entry := Entry(old(q.name), old(q.vec))))
  {
    hide Linked; hide Sep; hide Fp; hide FpC; hide SepC; hide LinkedCtx;
    NodeLinked(u, c.id);
    p.name := q.name;
    p.vec := q.vec;
    NodeLinked(u.(entry := Entry(old(q.name), old(q.vec))), c.id);
  }

  // The predecessor of a node with two children: down its left child's right spine.
  method Predecessor(p: Varent, ghost c: VCtx, ghost u: VTree) returns (q: Varent)
    requires At(c, u) && u.Node? && p == u.id && u.left.Node?
    ensures var v := MaxCtx(LeftHole(c, u), u.left).1;
            q == v.id && q.name == v.entry.name && q.vec == v.entry.vec
  {
    ghost var c0 := LeftHole(c, u);
    DownLeft(c, u);
    NodeLinked(u, c.id);
    q := p.left;
    ghost var ci, ui := c0, u.left;
    while q.right != null
      invariant At(ci, ui) && ui.Node? && q == ui.id && (q.right == null <==> ui.right.Nil?)
      invariant MaxCtx(ci, ui) == MaxCtx(c0, u.left)
      decreases ui
    {
      hide LinkedCtx; hide SepC; hide FpC;
      DownRight(ci, ui);
      q := q.right;
      ci, ui := InRight(ci, ui.left, ui.id, ui.entry, ui.bal), ui.right;
    }
  }

  // unsetv1: remove record `p` from the table.
  method UnsetV1(p: Varent, head: Varent, ghost t: VTree)
    returns (freed: Varent, ghost t': VTree, ghost a: seq<Entry>, ghost e: Entry, ghost b: seq<Entry>)
    requires Valid(head, t) && p in Fp(t)
    modifies head, Fp(t)
    ensures Valid(head, t') && Ordered(InOrder(t')) && freed !in Fp(t') && Fp(t') + {freed} == Fp(t)
    ensures InOrder(t) == a + [e] + b && InOrder(t') == a + b && e.name == old(p.name)
    ensures Vars(t') == Vars(t) - {old(p.name)}
  {
    hide Linked; hide LinkedCtx; hide Sep; hide SepC; hide FpC; hide Sorted; hide InOrder;
    hide Plug; hide Avl; hide Fp; hide Before; hide After; hide CtxAvl; hide Height; hide Contents; hide Ordered;
    AllFp(head, t);
    FocusTop(head, t, p);
    ghost var (c, u) := Focus(Top(head), t, p);
    SearchFound(t, c, u);
    NodeLinked(u, c.id);
    CtxAllocated(c);
    FpAllocated(u);
    a, e, b := Before(c) + InOrder(u.left), u.entry, InOrder(u.right) + After(c);

    if p.right == null || p.left == null {
      freed := p;
      ChildInOrder(c, u);
      t' := Splice(p, c, u, head);
    } else {
      CopyPure(c, u, MaxCtx(LeftHole(c, u), u.left).1.entry);
      var q := Predecessor(p, c, u);
      ghost var u' := u.(entry := Entry(q.name, q.vec));
      CopyEntry(p, q, c, u);
      NodeLinked(u', c.id);
      DownLeft(c, u');
      MaxAt(LeftHole(c, u'), u.left);
      ghost var (c2, v) := MaxCtx(LeftHole(c, u'), u.left);
      freed := q;
      t' := Splice(q, c2, v, head);
    }
    AllFp(head, t');
    TableOrdered(head, t');
    assert Vars(t') == Contents(a + b) == Vars(t) - {e.name};
  }

  lemma ChildInOrder(c: VCtx, u: VTree)
    requires u.Node? && (u.left.Nil? || u.right.Nil?)
    ensures Before(c) + InOrder(Child(u)) + After(c) == (Before(c) + InOrder(u.left)) + (InOrder(u.right) + After(c))
  {
  }
}
