// The AVL trees of csh as values: rebalancing after an insertion or deletion,
// and what it keeps.  A node's `id` stands for the record that holds it.
module CshTree {
  import opened CshName

  type Vec = seq<Name>
  datatype Entry = Entry(name: Name, vec: Vec)

  datatype Tree<T> = Nil | Node(left: Tree<T>, id: T, entry: Entry, bal: int, right: Tree<T>)

  // A tree with a hole: the way from the hole up to the header `id`.
  datatype Ctx<T> =
    | Top(id: T)
    | InLeft(up: Ctx<T>, id: T, entry: Entry, bal: int, right: Tree<T>)
    | InRight(up: Ctx<T>, left: Tree<T>, id: T, entry: Entry, bal: int)

  function Height<T>(t: Tree<T>): nat {
    match t
    case Nil => 0
    case Node(l, _, _, _, r) => 1 + if Height(l) > Height(r) then Height(l) else Height(r)
  }

  function Size<T>(t: Tree<T>): nat {
    match t
    case Nil => 0
    case Node(l, _, _, _, r) => Size(l) + 1 + Size(r)
  }

  function InOrder<T>(t: Tree<T>): seq<Entry> {
    match t
    case Nil => []
    case Node(l, _, e, _, r) => InOrder(l) + [e] + InOrder(r)
  }

  // Balance factors are exact: right height minus left height, within -1..1.
  predicate Avl<T>(t: Tree<T>) {
    match t
    case Nil => true
    case Node(l, _, _, b, r) => Avl(l) && Avl(r) && b == Height(r) - Height(l) && -1 <= b <= 1
  }

  // ------------------------------------------------------------ contexts

  // The parent of the hole, as a tree with `t` in the hole.
  function Parent<T>(c: Ctx<T>, t: Tree<T>): Tree<T>
    requires !c.Top?
  {
    match c
    case InLeft(_, p, e, b, r) => Node(t, p, e, b, r)
    case InRight(_, l, p, e, b) => Node(l, p, e, b, t)
  }

  function Plug<T>(c: Ctx<T>, t: Tree<T>): Tree<T> {
    if c.Top? then t else Plug(c.up, Parent(c, t))
  }

  function Before<T>(c: Ctx<T>): seq<Entry> {
    match c
    case Top(_) => []
    case InLeft(up, _, _, _, _) => Before(up)
    case InRight(up, l, _, e, _) => Before(up) + InOrder(l) + [e]
  }

  function After<T>(c: Ctx<T>): seq<Entry> {
    match c
    case Top(_) => []
    case InLeft(up, _, e, _, r) => [e] + InOrder(r) + After(up)
    case InRight(up, _, _, _, _) => After(up)
  }

  lemma Reassociate<E>(a: seq<E>, b: seq<E>, x: E, c: seq<E>, d: seq<E>)
    ensures a + b + ([x] + c + d) == a + (b + [x] + c) + d
    ensures (a + b + [x]) + c + d == a + (b + [x] + c) + d
  {
  }

  lemma ParentInOrder<T>(c: Ctx<T>, t: Tree<T>)
    requires !c.Top?
    ensures Before(c) + InOrder(t) + After(c) == Before(c.up) + InOrder(Parent(c, t)) + After(c.up)
  {
    match c
    case InLeft(up, _, e, _, r) => Reassociate(Before(up), InOrder(t), e, InOrder(r), After(up));
    case InRight(up, l, _, e, _) => Reassociate(Before(up), InOrder(l), e, InOrder(t), After(up));
  }

  lemma {:induction false} PlugInOrder<T>(c: Ctx<T>, t: Tree<T>)
    ensures InOrder(Plug(c, t)) == Before(c) + InOrder(t) + After(c)
  {
    if !c.Top? {
      ParentInOrder(c, t);
      PlugInOrder(c.up, Parent(c, t));
    }
  }

  // The tree around a hole that used to hold a tree of height `h` is balanced.
  predicate CtxAvl<T>(c: Ctx<T>, h: nat) {
    match c
    case Top(_) => true
    case InLeft(up, _, _, b, r) =>
      Avl(r) && b == Height(r) - h && -1 <= b <= 1 && CtxAvl(up, 1 + if h > Height(r) then h else Height(r))
    case InRight(up, l, _, _, b) =>
      Avl(l) && b == h - Height(l) && -1 <= b <= 1 && CtxAvl(up, 1 + if h > Height(l) then h else Height(l))
  }

  lemma ParentAvl<T>(c: Ctx<T>, t: Tree<T>)
    requires !c.Top?
    ensures Avl(Parent(c, t)) && CtxAvl(c.up, Height(Parent(c, t))) <==> Avl(t) && CtxAvl(c, Height(t))
  {
  }

  lemma {:induction false} PlugAvl<T>(c: Ctx<T>, t: Tree<T>)
    ensures Avl(Plug(c, t)) <==> Avl(t) && CtxAvl(c, Height(t))
  {
    if !c.Top? {
      ParentAvl(c, t);
      PlugAvl(c.up, Parent(c, t));
    }
  }

  // ------------------------------------------------------------ rotation

  function RotLeft<T>(t: Tree<T>): Tree<T>
    requires t.Node? && t.right.Node?
  {
    var r := t.right;
    r.(left := t.(right := r.left))
  }

  function RotRight<T>(t: Tree<T>): Tree<T>
    requires t.Node? && t.left.Node?
  {
    var l := t.left;
    l.(right := t.(left := l.right))
  }

  function SetBal<T>(t: Tree<T>, left: int, root: int, right: int): Tree<T>
    requires t.Node? && t.left.Node? && t.right.Node?
  {
    t.(left := t.left.(bal := left), bal := root, right := t.right.(bal := right))
  }

  // One round of balance's loop on node `t`: child `f` (false left, true
  // right) became higher (insertion) or lower (deletion, `d`).
  function Fix<T>(t: Tree<T>, f: bool, d: bool): Tree<T>
    requires t.Node?
  {
    if f != d then
      if t.bal == -1 then t.(bal := 0)
      else if t.bal == 0 then t.(bal := 1)
      else if t.bal == 1 && t.right.Node? then
        if t.right.bal == 1 then
          var r := RotLeft(t); r.(left := r.left.(bal := 0), bal := 0)
        else if t.right.bal == 0 then
          var r := RotLeft(t); r.(left := r.left.(bal := 1), bal := -1)
        else if t.right.bal == -1 && t.right.left.Node? then
          Double(RotLeft(t.(right := RotRight(t.right))))
        else t
      else t
    else
      if t.bal == 1 then t.(bal := 0)
      else if t.bal == 0 then t.(bal := -1)
      else if t.bal == -1 && t.left.Node? then
        if t.left.bal == -1 then
          var r := RotRight(t); r.(right := r.right.(bal := 0), bal := 0)
        else if t.left.bal == 0 then
          var r := RotRight(t); r.(right := r.right.(bal := -1), bal := 1)
        else if t.left.bal == 1 && t.left.right.Node? then
          Double(RotRight(t.(left := RotLeft(t.left))))
        else t
      else t
  }

  // The balance factors after a double rotation, from that of the new root.
  function Double<T>(t: Tree<T>): Tree<T>
    requires t.Node? && t.left.Node? && t.right.Node?
  {
    SetBal(t, if t.bal < 1 then 0 else -1, 0, if t.bal > -1 then 0 else 1)
  }

  // The loop ends early: balanced after an insertion, unbalanced after a deletion.
  predicate Stop<T>(t: Tree<T>, d: bool)
    requires t.Node?
  {
    (t.bal == 0) != d
  }

  function Retrace<T>(c: Ctx<T>, t: Tree<T>, d: bool): Tree<T> {
    if c.Top? then t
    else
      var t' := Fix(Parent(c, t), c.InRight?, d);
      if Stop(t', d) then Plug(c.up, t') else Retrace(c.up, t', d)
  }

  lemma Regroup<E>(a: seq<E>, x: E, b: seq<E>, y: E, c: seq<E>)
    ensures a + [x] + (b + [y] + c) == (a + [x] + b) + [y] + c
  {
  }

  lemma RotLeftInOrder<T>(t: Tree<T>)
    requires t.Node? && t.right.Node?
    ensures InOrder(RotLeft(t)) == InOrder(t)
  {
    Regroup(InOrder(t.left), t.entry, InOrder(t.right.left), t.right.entry, InOrder(t.right.right));
  }

  lemma RotRightInOrder<T>(t: Tree<T>)
    requires t.Node? && t.left.Node?
    ensures InOrder(RotRight(t)) == InOrder(t)
  {
    Regroup(InOrder(t.left.left), t.left.entry, InOrder(t.left.right), t.entry, InOrder(t.right));
  }

  lemma BalInOrder<T>(t: Tree<T>, a: int, b: int, c: int)
    requires t.Node? && t.left.Node? && t.right.Node?
    ensures InOrder(SetBal(t, a, b, c)) == InOrder(t)
  {
  }

  lemma FixNode<T>(t: Tree<T>, f: bool, d: bool)
    requires t.Node?
    ensures Fix(t, f, d).Node? && InOrder(Fix(t, f, d)) == InOrder(t)
  {
    if f != d && t.bal == 1 && t.right.Node? {
      if t.right.bal == -1 && t.right.left.Node? {
        RotRightInOrder(t.right);
        var t1 := t.(right := RotRight(t.right));
        assert InOrder(t1) == InOrder(t);
        RotLeftInOrder(t1);
        var t2 := RotLeft(t1);
        BalInOrder(t2, if t2.bal < 1 then 0 else -1, 0, if t2.bal > -1 then 0 else 1);
      } else {
        RotLeftInOrder(t);
      }
    }
    if f == d && t.bal == -1 && t.left.Node? {
      if t.left.bal == 1 && t.left.right.Node? {
        RotLeftInOrder(t.left);
        var t1 := t.(left := RotLeft(t.left));
        assert InOrder(t1) == InOrder(t);
        RotRightInOrder(t1);
        var t2 := RotRight(t1);
        BalInOrder(t2, if t2.bal < 1 then 0 else -1, 0, if t2.bal > -1 then 0 else 1);
      } else {
        RotRightInOrder(t);
      }
    }
  }

  // `t` is a node whose balance factor is from before its child `f` changed
  // height by one; h is the height it had then.
  predicate Stale<T>(t: Tree<T>, f: bool, d: bool, h: nat) {
    && t.Node? && Avl(t.left) && Avl(t.right) && -1 <= t.bal <= 1
    && var delta := if d then -1 else 1;
       var hl := Height(t.left) - if f then 0 else delta;
       var hr := Height(t.right) - if f then delta else 0;
       hl >= 0 && hr >= 0 && t.bal == hr - hl && h == 1 + if hl > hr then hl else hr
  }

  // The outcome of either double rotation.
  lemma DoubleAvl<T>(t: Tree<T>, b: int)
    requires t.Node? && t.left.Node? && t.right.Node? && t.bal == 0
    requires Avl(t.left.left) && Avl(t.left.right) && Avl(t.right.left) && Avl(t.right.right)
    requires b == Height(t.right.left) - Height(t.left.right) && -1 <= b <= 1
    requires t.left.bal == (if b < 1 then 0 else -1) && t.right.bal == if b > -1 then 0 else 1
    requires var k := Height(t.left.left);
             k == Height(t.right.right) && (k == Height(t.left.right) || k == Height(t.right.left))
             && Height(t.left.right) <= k && Height(t.right.left) <= k
    ensures Avl(t) && Height(t) == Height(t.left.left) + 2
  {
    assert Avl(t.left) && Height(t.left) == Height(t.left.left) + 1;
    assert Avl(t.right) && Height(t.right) == Height(t.left.left) + 1;
  }

  lemma DoubleRightHeavy<T>(t: Tree<T>, d: bool, h: nat)
    requires Stale(t, !d, d, h) && t.bal == 1 && t.right.Node? && t.right.bal == -1
    ensures var t' := Fix(t, !d, d);
            t'.Node? && Avl(t') && t'.bal == 0 && Height(t') == if d then h - 1 else h
  {
    var m := t.right.left;
    assert Avl(m) && m.Node?;
    DoubleAvl(Fix(t, !d, d), m.bal);
  }

  lemma DoubleLeftHeavy<T>(t: Tree<T>, d: bool, h: nat)
    requires Stale(t, d, d, h) && t.bal == -1 && t.left.Node? && t.left.bal == 1
    ensures var t' := Fix(t, d, d);
            t'.Node? && Avl(t') && t'.bal == 0 && Height(t') == if d then h - 1 else h
  {
    var m := t.left.right;
    assert Avl(m) && m.Node?;
    DoubleAvl(Fix(t, d, d), m.bal);
  }

  lemma SingleRightHeavy<T>(t: Tree<T>, d: bool, h: nat)
    requires Stale(t, !d, d, h) && !(t.bal == 1 && t.right.Node? && t.right.bal == -1)
    ensures var t' := Fix(t, !d, d);
            && t'.Node? && Avl(t')
            && Height(t') == if Stop(t', d) then h else if d then h - 1 else h + 1
  {
  }

  lemma SingleLeftHeavy<T>(t: Tree<T>, d: bool, h: nat)
    requires Stale(t, d, d, h) && !(t.bal == -1 && t.left.Node? && t.left.bal == 1)
    ensures var t' := Fix(t, d, d);
            && t'.Node? && Avl(t')
            && Height(t') == if Stop(t', d) then h else if d then h - 1 else h + 1
  {
  }

  lemma FixAvl<T>(t: Tree<T>, f: bool, d: bool, h: nat)
    requires Stale(t, f, d, h)
    ensures var t' := Fix(t, f, d);
            && t'.Node? && Avl(t')
            && Height(t') == if Stop(t', d) then h else if d then h - 1 else h + 1
  {
    hide Fix; hide Avl; hide Height;
    if f == d {
      if t.bal == -1 && t.left.Node? && t.left.bal == 1 {
        DoubleLeftHeavy(t, d, h);
      } else {
        SingleLeftHeavy(t, d, h);
      }
    } else {
      if t.bal == 1 && t.right.Node? && t.right.bal == -1 {
        DoubleRightHeavy(t, d, h);
      } else {
        SingleRightHeavy(t, d, h);
      }
    }
  }

  // Rebalancing starts from the parent of a hole whose content changed height.
  lemma ParentStale<T>(c: Ctx<T>, t: Tree<T>, d: bool, h: nat) returns (h': nat)
    requires !c.Top? && CtxAvl(c, h) && Avl(t) && Height(t) == if d then h - 1 else h + 1
    ensures Stale(Parent(c, t), c.InRight?, d, h') && CtxAvl(c.up, h')
  {
    h' := 1 + match c
              case InLeft(_, _, _, _, r) => if h > Height(r) then h else Height(r)
              case InRight(_, l, _, _, _) => if h > Height(l) then h else Height(l);
  }

  // Retracing restores exact balance factors and moves no entry.
  lemma {:induction false} RetraceAvl<T>(c: Ctx<T>, t: Tree<T>, d: bool, h: nat)
    requires CtxAvl(c, h) && Avl(t) && Height(t) == if d then h - 1 else h + 1
    ensures Avl(Retrace(c, t, d))
  {
    if !c.Top? {
      var p := Parent(c, t);
      var h' := ParentStale(c, t, d, h);
      FixAvl(p, c.InRight?, d, h');
      hide Fix; hide Stale; hide CtxAvl; hide Avl;
      var t' := Fix(p, c.InRight?, d);
      if Stop(t', d) {
        PlugAvl(c.up, t');
      } else {
        RetraceAvl(c.up, t', d, h');
      }
    }
  }

  lemma {:induction false} RetraceInOrder<T>(c: Ctx<T>, t: Tree<T>, d: bool)
    ensures InOrder(Retrace(c, t, d)) == Before(c) + InOrder(t) + After(c)
  {
    if !c.Top? {
      ParentInOrder(c, t);
      FixNode(Parent(c, t), c.InRight?, d);
      hide Fix; hide Before; hide After; hide InOrder;
      var t' := Fix(Parent(c, t), c.InRight?, d);
      if Stop(t', d) {
        PlugInOrder(c.up, t');
      } else {
        RetraceInOrder(c.up, t', d);
      }
    }
  }
}
