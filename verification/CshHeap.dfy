// The records of csh's variable tables and the trees they form.
module CshHeap {
  import opened CshName
  import opened CshTree

  class Varent {
    var vec: Vec
    var name: Name
    var left: Varent?
    var right: Varent?
    var parent: Varent?
    var bal: int

    constructor (name: Name, vec: Vec)
      ensures this.name == name && this.vec == vec && bal == 0 && left == null && right == null && parent == null
    {
      this.name, this.vec, bal := name, vec, 0;
      left, right, parent := null, null, null;
    }
  }

  type VTree = Tree<Varent>
  type VCtx = Ctx<Varent>

  ghost function Fp(t: VTree): set<Varent> {
    match t
    case Nil => {}
    case Node(l, p, _, _, r) => Fp(l) + {p} + Fp(r)
  }

  lemma {:induction false} FpAllocated(t: VTree)
    ensures forall o :: o in Fp(t) ==> allocated(o)
  {
    if t.Node? {
      FpAllocated(t.left);
      FpAllocated(t.right);
    }
  }

  ghost function Root(t: VTree): Varent? {
    if t.Nil? then null else t.id
  }

  // No record occurs twice.
  ghost predicate Sep(t: VTree) {
    match t
    case Nil => true
    case Node(l, p, _, _, r) => p !in Fp(l) && p !in Fp(r) && Fp(l) !! Fp(r) && Sep(l) && Sep(r)
  }

  ghost predicate Holds(p: Varent, e: Entry, b: int)
    reads p
  {
    p.name == e.name && p.vec == e.vec && p.bal == b
  }

  // The records of `t` hold its entries and balance factors, and their links
  // are those of `t`; the root hangs below `par`.
  ghost predicate Linked(t: VTree, par: Varent)
    reads Fp(t)
  {
    match t
    case Nil => true
    case Node(l, p, e, b, r) =>
      && Holds(p, e, b)
      && p.left == Root(l) && p.right == Root(r) && p.parent == par
      && Linked(l, p) && Linked(r, p)
  }

  // ------------------------------------------------------------ contexts

  ghost function FpC(c: VCtx): set<Varent> {
    match c
    case Top(h) => {h}
    case InLeft(up, p, _, _, r) => FpC(up) + {p} + Fp(r)
    case InRight(up, l, p, _, _) => FpC(up) + {p} + Fp(l)
  }

  ghost predicate SepC(c: VCtx) {
    match c
    case Top(_) => true
    case InLeft(up, p, _, _, r) => p !in FpC(up) && p !in Fp(r) && FpC(up) !! Fp(r) && SepC(up) && Sep(r)
    case InRight(up, l, p, _, _) => p !in FpC(up) && p !in Fp(l) && FpC(up) !! Fp(l) && SepC(up) && Sep(l)
  }

  // The link that leads to the hole.
  ghost function Hole(c: VCtx): Varent?
    reads c.id
  {
    if c.InRight? then c.id.right else c.id.left
  }

  // The records around the hole; the link into the hole is left open.
  ghost predicate LinkedCtx(c: VCtx)
    reads FpC(c)
  {
    match c
    case Top(h) => h.parent == null && h.right == null
    case InLeft(up, p, e, b, r) =>
      Holds(p, e, b) && p.right == Root(r) && p.parent == up.id && Linked(r, p) && LinkedCtx(up) && HoleIs(up, p)
    case InRight(up, l, p, e, b) =>
      Holds(p, e, b) && p.left == Root(l) && p.parent == up.id && Linked(l, p) && LinkedCtx(up) && HoleIs(up, p)
  }

  ghost predicate HoleIs(c: VCtx, p: Varent?)
    reads c.id
  {
    Hole(c) == p
  }

  lemma {:induction false} CtxAllocated(c: VCtx)
    ensures forall o :: o in FpC(c) ==> allocated(o)
  {
    if !c.Top? {
      CtxAllocated(c.up);
      FpAllocated(if c.InLeft? then c.right else c.left);
    }
  }

  lemma IdInFp(c: VCtx)
    ensures c.id in FpC(c)
  {
  }

  // Tree `t` stands in the hole of `c`.
  ghost predicate At(c: VCtx, t: VTree)
    reads FpC(c), Fp(t)
  {
    && SepC(c) && Sep(t) && FpC(c) !! Fp(t)
    && LinkedCtx(c)
    && (IdInFp(c); HoleIs(c, Root(t)))
    && Linked(t, c.id)
  }

  ghost function All(c: VCtx, t: VTree): set<Varent> {
    FpC(c) + Fp(t)
  }

  // Moving the hole one step up or down.
  lemma Up(c: VCtx, t: VTree)
    requires !c.Top? && At(c, t)
    ensures At(c.up, Parent(c, t)) && All(c.up, Parent(c, t)) == All(c, t)
  {
    IdInFp(c.up);
  }

  lemma DownLeft(c: VCtx, t: VTree)
    requires t.Node? && At(c, t)
    ensures var c' := InLeft(c, t.id, t.entry, t.bal, t.right);
            At(c', t.left) && All(c', t.left) == All(c, t)
  {
    IdInFp(c);
  }

  lemma DownRight(c: VCtx, t: VTree)
    requires t.Node? && At(c, t)
    ensures var c' := InRight(c, t.left, t.id, t.entry, t.bal);
            At(c', t.right) && All(c', t.right) == All(c, t)
  {
    IdInFp(c);
  }

  ghost function Header(c: VCtx): Varent {
    if c.Top? then c.id else Header(c.up)
  }

  lemma {:induction false} UpToTop(c: VCtx, t: VTree)
    requires At(c, t)
    ensures At(Top(Header(c)), Plug(c, t)) && All(Top(Header(c)), Plug(c, t)) == All(c, t)
    decreases c
  {
    if !c.Top? {
      Up(c, t);
      UpToTop(c.up, Parent(c, t));
    }
  }
}
