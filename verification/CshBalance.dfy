// balance() of csh's variable tables: retracing a heap tree in place.
module CshBalance {
  import opened CshName
  import opened CshTree
  import opened CshHeap

  // (x->v_parent = p), where there is an x
  method SetParent(x: Varent?, p: Varent, ghost t: VTree, ghost par: Varent)
    requires Linked(t, par) && Sep(t) && x == Root(t)
    modifies Fp(t)`parent
    ensures Linked(t, p)
  {
    if x != null {
      x.parent := p;
    }
  }

  // Subtrees a, b, c share no record with one another or with p and q.
  ghost predicate Apart(p: Varent, q: Varent, a: VTree, b: VTree, c: VTree) {
    && p != q && p !in Fp(a) && p !in Fp(b) && p !in Fp(c) && q !in Fp(a) && q !in Fp(b) && q !in Fp(c)
    && Fp(a) !! Fp(b) && Fp(b) !! Fp(c) && Fp(a) !! Fp(c)
    && Sep(a) && Sep(b) && Sep(c)
  }

  // Linked, spelled out for a root and its right child ...
  ghost predicate LeanRight(t: VTree, par: Varent)
    requires t.Node? && t.right.Node?
    reads t.id, t.right.id, Fp(t.left), Fp(t.right.left), Fp(t.right.right)
  {
    var p, q, a, b, c := t.id, t.right.id, t.left, t.right.left, t.right.right;
    && Linked(a, p) && Linked(b, q) && Linked(c, q)
    && Holds(p, t.entry, t.bal) && Holds(q, t.right.entry, t.right.bal)
    && p.left == Root(a) && p.right == q && p.parent == par
    && q.left == Root(b) && q.right == Root(c) && q.parent == p
  }

  // ... and for a root and its left child.
  ghost predicate LeanLeft(t: VTree, par: Varent)
    requires t.Node? && t.left.Node?
    reads t.id, t.left.id, Fp(t.left.left), Fp(t.left.right), Fp(t.right)
  {
    var p, q, a, b, c := t.left.id, t.id, t.left.left, t.left.right, t.right;
    && Linked(a, p) && Linked(b, p) && Linked(c, q)
    && Holds(p, t.left.entry, t.left.bal) && Holds(q, t.entry, t.bal)
    && p.left == Root(a) && p.right == Root(b) && p.parent == q
    && q.left == p && q.right == Root(c) && q.parent == par
  }

  lemma LeanRightLinked(t: VTree, par: Varent)
    requires t.Node? && t.right.Node?
    ensures Linked(t, par) <==> LeanRight(t, par)
    ensures Sep(t) <==> Apart(t.id, t.right.id, t.left, t.right.left, t.right.right)
    ensures Fp(t) == Fp(t.left) + {t.id} + Fp(t.right.left) + {t.right.id} + Fp(t.right.right)
  {
  }

  lemma LeanLeftLinked(t: VTree, par: Varent)
    requires t.Node? && t.left.Node?
    ensures Linked(t, par) <==> LeanLeft(t, par)
    ensures Sep(t) <==> Apart(t.left.id, t.id, t.left.left, t.left.right, t.right)
    ensures Fp(t) == Fp(t.left.left) + {t.left.id} + Fp(t.left.right) + {t.id} + Fp(t.right)
  {
  }

  // The macros rleft and rright: rotate the tree below p, return its new root.
  method RLeft(p: Varent, ghost t: VTree, ghost par: Varent) returns (q: Varent)
    requires Linked(t, par) && Sep(t) && t.Node? && t.right.Node? && p == t.id && par !in Fp(t)
    modifies Fp(t)
    ensures Linked(RotLeft(t), par) && Sep(RotLeft(t)) && Fp(RotLeft(t)) == Fp(t)
    ensures q == RotLeft(t).id
  {
    hide Linked; hide Fp; hide Sep;
    FpAllocated(t);
    LeanRightLinked(t, par);
    LeanLeftLinked(RotLeft(t), par);
    q := p.right;
    q.parent := p.parent;
    p.right := q.left;
    SetParent(q.left, p, t.right.left, q);
    q.left := p;
    p.parent := q;
    LeanLeftLinked(RotLeft(t), par);
  }

  method RRight(p: Varent, ghost t: VTree, ghost par: Varent) returns (q: Varent)
    requires Linked(t, par) && Sep(t) && t.Node? && t.left.Node? && p == t.id && par !in Fp(t)
    modifies Fp(t)
    ensures Linked(RotRight(t), par) && Sep(RotRight(t)) && Fp(RotRight(t)) == Fp(t)
    ensures q == RotRight(t).id
  {
    hide Linked; hide Fp; hide Sep;
    FpAllocated(t);
    LeanLeftLinked(t, par);
    LeanRightLinked(RotRight(t), par);
    q := p.left;
    q.parent := p.parent;
    p.left := q.right;
    SetParent(q.right, p, t.left.right, q);
    q.right := p;
    p.parent := q;
    LeanRightLinked(RotRight(t), par);
  }

  // pp->v_link[ff] = q: fills the hole of `c`.
  method SetLink(pp: Varent, ff: bool, q: Varent?, ghost c: VCtx)
    requires LinkedCtx(c) && SepC(c) && pp == c.id && ff == c.InRight?
    modifies pp`left, pp`right
    ensures LinkedCtx(c) && HoleIs(c, q)
  {
    if ff {
      pp.right := q;
    } else {
      pp.left := q;
    }
  }

  // Setting the balance factors of a root and of one or both children.
  method SetBals(p: Varent, left: int, root: int, right: int, ghost t: VTree, ghost par: Varent)
    requires Linked(t, par) && Sep(t) && t.Node? && t.left.Node? && t.right.Node? && p == t.id
    modifies Fp(t)`bal
    ensures Linked(SetBal(t, left, root, right), par) && Sep(SetBal(t, left, root, right))
    ensures Fp(SetBal(t, left, root, right)) == Fp(t)
  {
    LeanRightLinked(t, par);
    LeanLeftLinked(t, par);
    p.left.bal := left;
    p.right.bal := right;
    p.bal := root;
  }

  lemma NodeLinked(t: VTree, par: Varent)
    requires t.Node?
    ensures Linked(t, par) <==>
      && Holds(t.id, t.entry, t.bal) && t.id.left == Root(t.left) && t.id.right == Root(t.right)
      && t.id.parent == par && Linked(t.left, t.id) && Linked(t.right, t.id)
    ensures Sep(t) <==>
      && t.id !in Fp(t.left) && t.id !in Fp(t.right) && Fp(t.left) !! Fp(t.right) && Sep(t.left) && Sep(t.right)
    ensures Fp(t) == Fp(t.left) + {t.id} + Fp(t.right)
  {
  }

  method SetRootBal(p: Varent, b: int, ghost t: VTree, ghost par: Varent)
    requires Linked(t, par) && Sep(t) && t.Node? && p == t.id
    modifies p`bal
    ensures Linked(t.(bal := b), par) && Sep(t.(bal := b)) && Fp(t.(bal := b)) == Fp(t)
  {
    hide Linked; hide Sep; hide Fp;
    NodeLinked(t, par);
    p.bal := b;
    NodeLinked(t.(bal := b), par);
  }

  // The first half of a double rotation: (void) rright(p->v_right), and its mirror.
  method RotateRightChild(p: Varent, ghost t: VTree, ghost par: Varent)
    requires Linked(t, par) && Sep(t) && t.Node? && t.right.Node? && t.right.left.Node? && p == t.id
    modifies Fp(t)
    ensures var t' := t.(right := RotRight(t.right)); Linked(t', par) && Sep(t') && Fp(t') == Fp(t)
  {
    hide Linked; hide Sep; hide Fp;
    FpAllocated(t);
    NodeLinked(t, par);
    var q := RRight(p.right, t.right, p);
    p.right := q;
    NodeLinked(t.(right := RotRight(t.right)), par);
  }

  method RotateLeftChild(p: Varent, ghost t: VTree, ghost par: Varent)
    requires Linked(t, par) && Sep(t) && t.Node? && t.left.Node? && t.left.right.Node? && p == t.id
    modifies Fp(t)
    ensures var t' := t.(left := RotLeft(t.left)); Linked(t', par) && Sep(t') && Fp(t') == Fp(t)
  {
    hide Linked; hide Sep; hide Fp;
    FpAllocated(t);
    NodeLinked(t, par);
    var q := RLeft(p.left, t.left, p);
    p.left := q;
    NodeLinked(t.(left := RotLeft(t.left)), par);
  }

  // Single rotation of a right heavy node: the new root gets balance factor `rb`,
  // its left child `cb`.
  method SingleRight(p0: Varent, cb: int, rb: int, ghost t: VTree, ghost par: Varent) returns (p: Varent)
    requires Linked(t, par) && Sep(t) && t.Node? && t.right.Node? && p0 == t.id && par !in Fp(t)
    modifies Fp(t)
    ensures var u := RotLeft(t); var t' := u.(left := u.left.(bal := cb), bal := rb);
            Linked(t', par) && Sep(t') && Fp(t') == Fp(t) && p == t'.id
  {
    hide Linked; hide Sep; hide Fp;
    FpAllocated(t);
    ghost var u := RotLeft(t);
    p := RLeft(p0, t, par);
    NodeLinked(u, par);
    NodeLinked(u.left, p);
    SetRootBal(p.left, cb, u.left, p);
    ghost var v := u.(left := u.left.(bal := cb));
    NodeLinked(v, par);
    SetRootBal(p, rb, v, par);
  }

  // Double rotation of a right heavy node.
  method DoubleRight(p0: Varent, ghost t: VTree, ghost par: Varent) returns (p: Varent)
    requires Linked(t, par) && Sep(t) && t.Node? && t.right.Node? && t.right.left.Node? && p0 == t.id && par !in Fp(t)
    modifies Fp(t)
    ensures var t' := Double(RotLeft(t.(right := RotRight(t.right))));
            Linked(t', par) && Sep(t') && Fp(t') == Fp(t) && p == t'.id
  {
    hide Linked; hide Sep; hide Fp;
    FpAllocated(t);
    ghost var t1 := t.(right := RotRight(t.right));
    RotateRightChild(p0, t, par);
    p := RLeft(p0, t1, par);
    ghost var u := RotLeft(t1);
    NodeLinked(u, par);
    SetBals(p, if p.bal < 1 then 0 else -1, 0, if p.bal > -1 then 0 else 1, u, par);
  }

  // The switch of balance for a node that became right heavy; t' is what the
  // rotation makes of the tree below it.
  method FixRight(p0: Varent, pp: Varent, ff: bool, ghost c: VCtx, ghost t: VTree, ghost d: bool, ghost h: nat)
    returns (p: Varent)
    requires At(c, t) && Stale(t, !d, d, h) && p0 == t.id && pp == c.id && ff == c.InRight?
    modifies All(c, t)
    ensures var t' := Fix(t, !d, d);
            t'.Node? && At(c, t') && Fp(t') == Fp(t) && p == t'.id
  {
    hide Linked; hide Sep; hide Fp; hide FpC; hide SepC; hide LinkedCtx; hide RotLeft; hide Double;
    FixNode(t, !d, d);
    FpAllocated(t);
    CtxAllocated(c);
    IdInFp(c);
    NodeLinked(t, pp);
    p := p0;
    if p.bal == -1 {
      SetRootBal(p, 0, t, pp);
    } else if p.bal == 0 {
      SetRootBal(p, 1, t, pp);
    } else {
      HeavyRight(t, d, h);
      NodeLinked(t.right, p);
      if p.right.bal == 1 {
        p := SingleRight(p, 0, 0, t, pp);
      } else if p.right.bal == 0 {
        p := SingleRight(p, 1, -1, t, pp);
      } else {
        p := DoubleRight(p, t, pp);
      }
      SetLink(pp, ff, p, c);
    }
  }

  // A heavy node has the children that the rotations need.
  lemma HeavyRight(t: VTree, d: bool, h: nat)
    requires Stale(t, !d, d, h) && t.bal == 1
    ensures t.right.Node? && -1 <= t.right.bal <= 1
    ensures t.right.bal == -1 ==> t.right.left.Node?
  {
    assert Avl(t.right) && Height(t.right) > 0;
    assert t.right.left.Nil? ==> Height(t.right.left) == 0;
  }

  // Single rotation of a left heavy node: the new root gets balance factor `rb`,
  // its right child `cb`.
  method SingleLeft(p0: Varent, cb: int, rb: int, ghost t: VTree, ghost par: Varent) returns (p: Varent)
    requires Linked(t, par) && Sep(t) && t.Node? && t.left.Node? && p0 == t.id && par !in Fp(t)
    modifies Fp(t)
    ensures var u := RotRight(t); var t' := u.(right := u.right.(bal := cb), bal := rb);
            Linked(t', par) && Sep(t') && Fp(t') == Fp(t) && p == t'.id
  {
    hide Linked; hide Sep; hide Fp;
    FpAllocated(t);
    ghost var u := RotRight(t);
    p := RRight(p0, t, par);
    NodeLinked(u, par);
    NodeLinked(u.right, p);
    SetRootBal(p.right, cb, u.right, p);
    ghost var v := u.(right := u.right.(bal := cb));
    NodeLinked(v, par);
    SetRootBal(p, rb, v, par);
  }

  // Double rotation of a left heavy node.
  method DoubleLeft(p0: Varent, ghost t: VTree, ghost par: Varent) returns (p: Varent)
    requires Linked(t, par) && Sep(t) && t.Node? && t.left.Node? && t.left.right.Node? && p0 == t.id && par !in Fp(t)
    modifies Fp(t)
    ensures var t' := Double(RotRight(t.(left := RotLeft(t.left))));
            Linked(t', par) && Sep(t') && Fp(t') == Fp(t) && p == t'.id
  {
    hide Linked; hide Sep; hide Fp;
    FpAllocated(t);
    ghost var t1 := t.(left := RotLeft(t.left));
    RotateLeftChild(p0, t, par);
    p := RRight(p0, t1, par);
    ghost var u := RotRight(t1);
    NodeLinked(u, par);
    SetBals(p, if p.bal < 1 then 0 else -1, 0, if p.bal > -1 then 0 else 1, u, par);
  }

  // The switch of balance for a node that became left heavy; t' is what the
  // rotation makes of the tree below it.
  method FixLeft(p0: Varent, pp: Varent, ff: bool, ghost c: VCtx, ghost t: VTree, ghost d: bool, ghost h: nat)
    returns (p: Varent)
    requires At(c, t) && Stale(t, d, d, h) && p0 == t.id && pp == c.id && ff == c.InRight?
    modifies All(c, t)
    ensures var t' := Fix(t, d, d);
            t'.Node? && At(c, t') && Fp(t') == Fp(t) && p == t'.id
  {
    hide Linked; hide Sep; hide Fp; hide FpC; hide SepC; hide LinkedCtx; hide RotRight; hide Double;
    FixNode(t, d, d);
    FpAllocated(t);
    CtxAllocated(c);
    IdInFp(c);
    NodeLinked(t, pp);
    p := p0;
    if p.bal == 1 {
      SetRootBal(p, 0, t, pp);
    } else if p.bal == 0 {
      SetRootBal(p, -1, t, pp);
    } else {
      HeavyLeft(t, d, h);
      NodeLinked(t.left, p);
      if p.left.bal == -1 {
        p := SingleLeft(p, 0, 0, t, pp);
      } else if p.left.bal == 0 {
        p := SingleLeft(p, -1, 1, t, pp);
      } else {
        p := DoubleLeft(p, t, pp);
      }
      SetLink(pp, ff, p, c);
    }
  }

  // A heavy node has the children that the rotations need.
  lemma HeavyLeft(t: VTree, d: bool, h: nat)
    requires Stale(t, d, d, h) && t.bal == -1
    ensures t.left.Node? && -1 <= t.left.bal <= 1
    ensures t.left.bal == 1 ==> t.left.right.Node?
  {
    assert Avl(t.left) && Height(t.left) > 0;
    assert t.left.right.Nil? ==> Height(t.left.right) == 0;
  }

  // Where the loop of balance stands: at the parent p of the hole of `c`, having
  // come from its child `f`; the content of the hole was of height h before.
  ghost predicate Retracing(p: Varent, f: bool, d: bool, c: VCtx, t: VTree, h: nat)
    reads FpC(c), Fp(t)
  {
    && At(c, t) && p == c.id && (!c.Top? ==> f == c.InRight?)
    && CtxAvl(c, h) && Avl(t) && Height(t) == if d then h - 1 else h + 1
  }

  lemma ParentIsNull(c: VCtx, t: VTree)
    requires At(c, t)
    ensures c.id.parent == null <==> c.Top?
    ensures !c.Top? ==> c.id.parent == c.up.id && (c.up.id.right == c.id <==> c.up.InRight?)
  {
    assert !c.Top? ==> LinkedCtx(c.up) && HoleIs(c.up, c.id);
    if !c.Top? && c.up.InLeft? && c.up.right.Node? {
      assert c.up.right.id in Fp(c.up.right) && c.id !in FpC(c.up);
    }
  }

  // One round of balance's loop.
  method Round(p0: Varent, f: bool, d: bool, ghost c: VCtx, ghost t: VTree, ghost h: nat)
    returns (p: Varent, pp: Varent, ff: bool, ghost t': VTree, ghost h': nat)
    requires Retracing(p0, f, d, c, t, h) && !c.Top?
    modifies All(c, t)
    ensures t' == Fix(Parent(c, t), f, d) && t'.Node? && p == t'.id && p.bal == t'.bal
    ensures At(c.up, t') && All(c.up, t') == All(c, t) && pp == c.up.id && ff == c.up.InRight?
    ensures CtxAvl(c.up, h') && Avl(t') && Height(t') == if Stop(t', d) then h' else if d then h' - 1 else h' + 1
  {
    hide Linked; hide Sep; hide Fp; hide FpC; hide SepC; hide LinkedCtx; hide Fix; hide CtxAvl; hide Avl; hide Height;
    ParentIsNull(c, t);
    pp := p0.parent;
    ff := pp.right == p0;
    Up(c, t);
    ghost var u := Parent(c, t);
    h' := ParentStale(c, t, d, h);
    FixAvl(u, f, d, h');
    if f != d {
      p := FixRight(p0, pp, ff, c.up, u, d, h');
    } else {
      p := FixLeft(p0, pp, ff, c.up, u, d, h');
    }
    t' := Fix(u, f, d);
    NodeLinked(t', pp);
  }

  // Rebalance a tree, starting at the parent of the hole of `c0` and going up;
  // the content of the hole became higher (insertion) or lower (deletion, `d`).
  method Balance(p0: Varent, f0: bool, d: bool, ghost c0: VCtx, ghost t0: VTree, ghost h0: nat)
    returns (ghost c: VCtx, ghost t: VTree)
    requires Retracing(p0, f0, d, c0, t0, h0)
    modifies All(c0, t0)
    ensures At(c, t) && All(c, t) == All(c0, t0) && Plug(c, t) == Retrace(c0, t0, d) && Header(c) == Header(c0)
  {
    hide Linked; hide Sep; hide Fp; hide SepC; hide FpC; hide LinkedCtx; hide Fix; hide At; hide CtxAvl; hide Avl;
    var p, f := p0, f0;
    ghost var h := h0;
    c, t := c0, t0;
    ParentIsNull(c, t);
    while p.parent != null
      invariant Retracing(p, f, d, c, t, h) && (p.parent == null <==> c.Top?)
      invariant Retrace(c, t, d) == Retrace(c0, t0, d) && All(c, t) == All(c0, t0)
      invariant Header(c) == Header(c0)
      decreases c
    {
      var q, pp, ff;
      ghost var t', h';
      q, pp, ff, t', h' := Round(p, f, d, c, t, h);
      c, t := c.up, t';
      if (q.bal == 0) != d {
        return;
      }
      p, f, h := pp, ff, h';
      ParentIsNull(c, t);
    }
  }
}
