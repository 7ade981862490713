// Removing by pattern and listing the variables of csh.
module CshList {
  import opened CshName
  import opened CshTree
  import opened CshTable
  import opened CshHeap
  import opened CshBalance
  import opened CshSet

  ghost predicate NoneMatches(s: seq<Entry>, matches: Name -> bool) {
    forall i :: 0 <= i < |s| ==> !matches(s[i].name)
  }

  // Entry k is the first whose name matches, and its name is n.
  ghost predicate FirstMatch(s: seq<Entry>, k: nat, n: Name, matches: Name -> bool) {
    k < |s| && s[k].name == n && matches(n) && NoneMatches(s[..k], matches)
  }

  // madrof: the first record, in name order, whose name matches; it searches
  // the left subtree by recursion and the right one by looping.
  method Madrof(matches: Name -> bool, vp0: Varent?, ghost t: VTree, ghost par: Varent)
    returns (r: Varent?, ghost k: nat)
    requires Linked(t, par) && vp0 == Root(t)
    ensures r == null ==> NoneMatches(InOrder(t), matches)
    ensures r != null ==> r in Fp(t) && FirstMatch(InOrder(t), k, r.name, matches)
    decreases Height(t)
  {
    hide Linked; hide Fp; hide Sep; hide Height; hide NoneMatches; hide FirstMatch; hide InOrder;
    FpAllocated(t);
    NothingMatches(t, matches);
    var vp := vp0;
    ghost var u, done := t, [];
    ghost var up: Varent := par;
    k := 0;
    while vp != null
      invariant Linked(u, up) && vp == Root(u) && Fp(u) <= Fp(t) && Height(u) <= Height(t)
      invariant InOrder(t) == done + InOrder(u) && NoneMatches(done, matches)
      decreases Height(u)
    {
      NodeLinked(u, up);
      NodeInOrder(u);
      var r1: Varent? := null;
      if vp.left != null {
        ghost var k1;
        r1, k1 := Madrof(matches, vp.left, u.left, vp);
        if r1 != null {
          FirstInLeft(done, InOrder(u.left), u.entry, InOrder(u.right), k1, r1.name, matches);
          k := |done| + k1;
          return r1, k;
        }
      }
      NodeLinked(u, up);
      FirstAtRoot(done, InOrder(u.left), u.entry, InOrder(u.right), matches);
      if matches(vp.name) {
        k := |done| + |InOrder(u.left)|;
        return vp, k;
      }
      done := done + InOrder(u.left) + [u.entry];
      vp, up, u := vp.right, vp, u.right;
    }
    NothingMatches(u, matches);
    assert done + [] == done;
    r := null;
  }

  lemma NothingMatches(t: VTree, matches: Name -> bool)
    ensures NoneMatches([], matches) && InOrder(t) == [] + InOrder(t)
    ensures t.Nil? ==> InOrder(t) == []
  {
  }

  lemma NodeInOrder(u: VTree)
    requires u.Node?
    ensures InOrder(u) == InOrder(u.left) + [u.entry] + InOrder(u.right)
    ensures Height(u.left) < Height(u) && Height(u.right) < Height(u)
    ensures u.left.Nil? ==> InOrder(u.left) == [] && forall matches :: NoneMatches(InOrder(u.left), matches)
  {
  }

  lemma FirstInLeft(done: seq<Entry>, l: seq<Entry>, e: Entry, r: seq<Entry>, k: nat, n: Name, matches: Name -> bool)
    requires NoneMatches(done, matches) && FirstMatch(l, k, n, matches)
    ensures FirstMatch(done + (l + [e] + r), |done| + k, n, matches)
  {
    assert (done + (l + [e] + r))[..|done| + k] == done + l[..k];
  }

  lemma FirstAtRoot(done: seq<Entry>, l: seq<Entry>, e: Entry, r: seq<Entry>, matches: Name -> bool)
    requires NoneMatches(done, matches) && NoneMatches(l, matches)
    ensures done + (l + [e] + r) == (done + l + [e]) + r
    ensures if matches(e.name) then FirstMatch(done + (l + [e] + r), |done| + |l|, e.name, matches)
            else NoneMatches(done + l + [e], matches)
  {
    assert (done + (l + [e] + r))[..|done| + |l|] == done + l;
  }

  // ------------------------------------------------------------- unset1

  // Gmatch(., pat)
  function Against(pat: Name, matches: (Name, Name) -> bool): Name -> bool {
    (n: Name) => matches(n, pat)
  }

  // The variables of m whose names match none of the patterns.
  ghost predicate Kept(m: map<Name, Vec>, m': map<Name, Vec>, pats: seq<Name>, matches: (Name, Name) -> bool) {
    && (forall n :: n in m' ==> n in m && m'[n] == m[n])
    && (forall n :: n in m && n !in m' ==> exists i :: 0 <= i < |pats| && matches(n, pats[i]))
  }

  ghost predicate NoVarMatches(m: map<Name, Vec>, pat: Name, matches: (Name, Name) -> bool) {
    forall n :: n in m ==> !matches(n, pat)
  }

  lemma NoVar<T>(t: Tree<T>, pat: Name, matches: (Name, Name) -> bool)
    requires Table(t) && NoneMatches(InOrder(t), Against(pat, matches))
    ensures NoVarMatches(Vars(t), pat, matches)
  {
    forall n | n in Vars(t) ensures !matches(n, pat) {
      ContentsAt(InOrder(t), n);
    }
  }

  // The loop of unset1 for one pattern: all variables that match are removed.
  method UnsetPattern(pat: Name, matches: (Name, Name) -> bool, head: Varent, ghost t: VTree)
    returns (cnt: nat, ghost t': VTree)
    requires Valid(head, t)
    modifies head, Fp(t)
    ensures Valid(head, t') && Fp(t') <= Fp(t)
    ensures Kept(Vars(t), Vars(t'), [pat], matches) && NoVarMatches(Vars(t'), pat, matches)
    ensures |Vars(t')| + cnt == |Vars(t)|
  {
    hide At; hide Table; hide InOrder; hide Contents; hide Fp; hide Linked; hide FirstMatch; hide NoneMatches;
    hide Kept; hide NoVarMatches; hide Vars; hide Against; hide Sorted;
    cnt, t' := 0, t;
    KeptAll(Vars(t), [pat], matches);
    while true
      invariant Valid(head, t') && Fp(t') <= Fp(t)
      invariant Kept(Vars(t), Vars(t'), [pat], matches)
      invariant |Vars(t')| + cnt == |Vars(t)|
      decreases |InOrder(t')|
    {
      TableParts(head, t');
      var vp, k := Madrof(Against(pat, matches), head.left, t', head);
      if vp == null {
        NoVar(t', pat, matches);
        return;
      }
      FirstIsVar(t', k, vp.name, Against(pat, matches));
      KeptLess(Vars(t), Vars(t'), pat, vp.name, matches);
      var freed;
      ghost var a, e, b;
      freed, t', a, e, b := UnsetV1(vp, head, t');
      cnt := cnt + 1;
    }
  }

  lemma KeptAll(m: map<Name, Vec>, pats: seq<Name>, matches: (Name, Name) -> bool)
    ensures Kept(m, m, pats, matches)
  {
  }

  lemma KeptLess(m: map<Name, Vec>, m': map<Name, Vec>, pat: Name, n: Name, matches: (Name, Name) -> bool)
    requires Kept(m, m', [pat], matches) && n in m' && Against(pat, matches)(n)
    ensures Kept(m, m' - {n}, [pat], matches) && |m' - {n}| == |m'| - 1
  {
    assert [pat][0] == pat;
    assert (m' - {n}).Keys == m'.Keys - {n};
  }

  lemma TableParts(head: Varent, t: VTree)
    requires Valid(head, t)
    ensures Linked(t, head) && head.left == Root(t) && Table(t) && Sorted(InOrder(t))
    ensures head !in Fp(t)
    ensures forall o :: o in Fp(t) ==> allocated(o)
  {
    AllFp(head, t);
    assert HoleIs(Top(head), Root(t));
  }

  lemma FirstIsVar(t: VTree, k: nat, n: Name, matches: Name -> bool)
    requires Table(t) && FirstMatch(InOrder(t), k, n, matches)
    ensures n in Vars(t) && matches(n)
  {
    ContentsAt(InOrder(t), n);
  }

  lemma KeptMore(m: map<Name, Vec>, m1: map<Name, Vec>, m2: map<Name, Vec>, pats: seq<Name>, pat: Name,
                 matches: (Name, Name) -> bool)
    requires Kept(m, m1, pats, matches) && Kept(m1, m2, [pat], matches)
    ensures Kept(m, m2, pats + [pat], matches)
  {
    forall n | n in m && n !in m2 ensures exists i :: 0 <= i < |pats + [pat]| && matches(n, (pats + [pat])[i]) {
      if n in m1 {
        assert (pats + [pat])[|pats|] == pat;
      } else {
        var i :| 0 <= i < |pats| && matches(n, pats[i]);
        assert (pats + [pat])[i] == pats[i];
      }
    }
  }

  lemma NoneLater(m: map<Name, Vec>, m': map<Name, Vec>, p: Name, pat: Name, matches: (Name, Name) -> bool)
    requires Kept(m, m', [pat], matches) && NoVarMatches(m, p, matches)
    ensures NoVarMatches(m', p, matches)
  {
  }

  // unset1: remove every variable that matches one of the patterns, and only
  // those; `cnts` tells for each pattern how many it removed.
  method Unset1(pats: seq<Name>, matches: (Name, Name) -> bool, head: Varent, ghost t: VTree)
    returns (cnts: seq<nat>, ghost t': VTree)
    requires Valid(head, t)
    modifies head, Fp(t)
    ensures Valid(head, t') && |cnts| == |pats|
    ensures Kept(Vars(t), Vars(t'), pats, matches)
    ensures forall i :: 0 <= i < |pats| ==> NoVarMatches(Vars(t'), pats[i], matches)
  {
    hide At; hide Table; hide Contents; hide Fp; hide Kept; hide NoVarMatches; hide Vars;
    cnts, t' := [], t;
    var i := 0;
    KeptAll(Vars(t), [], matches);
    while i < |pats|
      invariant 0 <= i <= |pats| && |cnts| == i && Valid(head, t') && Fp(t') <= Fp(t)
      invariant Kept(Vars(t), Vars(t'), pats[..i], matches)
      invariant forall j :: 0 <= j < i ==> NoVarMatches(Vars(t'), pats[j], matches)
    {
      ghost var m := Vars(t');
      var cnt;
      cnt, t' := UnsetPattern(pats[i], matches, head, t');
      KeptMore(Vars(t), m, Vars(t'), pats[..i], pats[i], matches);
      forall j | 0 <= j < i ensures NoVarMatches(Vars(t'), pats[j], matches) {
        NoneLater(m, Vars(t'), pats[j], pats[i], matches);
      }
      assert pats[..i + 1] == pats[..i] + [pats[i]];
      cnts, i := cnts + [cnt], i + 1;
    }
    assert pats[..i] == pats;
  }

  // -------------------------------------------------------------- plist

  // p is the record above the hole of `c`, `u` is its left subtree.
  ghost predicate ListingAt(head: Varent, t: VTree, p: Varent, c: VCtx, u: VTree)
    reads FpC(c), Fp(u)
  {
    && At(c, u) && p == c.id && !c.InRight? && Header(c) == head
    && InOrder(t) == Before(c) + InOrder(u) + After(c)
  }

  // p holds entry n of the table, or is the header behind the last.
  ghost predicate Listed(t: VTree, n: nat, p: Varent)
    reads p
  {
    if p.parent == null then n == |InOrder(t)| else n < |InOrder(t)| && InOrder(t)[n] == Entry(p.name, p.vec)
  }

  lemma ListingNext(head: Varent, t: VTree, p: Varent, c: VCtx, u: VTree)
    requires ListingAt(head, t, p, c, u)
    ensures Listed(t, |Before(c) + InOrder(u)|, p)
  {
    hide Linked; hide LinkedCtx; hide Sep; hide SepC; hide FpC; hide Fp; hide InOrder; hide Before; hide After; hide At;
    ParentIsNull(c, u);
    if c.Top? {
      TopInOrder(c, u);
    } else {
      Up(c, u);
      RecordFields(c.up, Parent(c, u));
      VisitInOrder(c, u);
    }
  }

  // while (p->v_left) p = p->v_left;
  method Leftmost(head: Varent, ghost t: VTree, p0: Varent, ghost c0: VCtx, ghost u0: VTree)
    returns (p: Varent, ghost c: VCtx)
    requires ListingAt(head, t, p0, c0, u0)
    ensures ListingAt(head, t, p, c, Nil) && Before(c) == Before(c0)
    ensures p.left == null && Listed(t, |Before(c0)|, p)
  {
    hide Linked; hide LinkedCtx; hide Sep; hide SepC; hide FpC; hide Fp; hide InOrder;
    p, c := p0, c0;
    ghost var u := u0;
    LeftLink(c, u);
    while p.left != null
      invariant ListingAt(head, t, p, c, u) && p.left == Root(u) && Before(c) == Before(c0)
      decreases u
    {
      DownLeft(c, u);
      NodeLinked(u, c.id);
      LeftInOrder(c, u);
      p, c, u := p.left, InLeft(c, u.id, u.entry, u.bal, u.right), u.left;
      LeftLink(c, u);
    }
    NilInOrder(c);
    ListingNext(head, t, p, c, Nil);
  }

  lemma LeftLink(c: VCtx, u: VTree)
    requires At(c, u) && !c.InRight?
    ensures c.id.left == Root(u)
  {
  }

  lemma LeftInOrder(c: VCtx, u: VTree)
    requires u.Node?
    ensures var c' := InLeft(c, u.id, u.entry, u.bal, u.right);
            Before(c) + InOrder(u) + After(c) == Before(c') + InOrder(u.left) + After(c')
  {
    ParentInOrder(InLeft(c, u.id, u.entry, u.bal, u.right), u.left);
  }

  // do { c = p; p = p->v_parent; } while (p->v_right == c), from a node whose
  // subtree `u0` has been listed.
  method Climb(head: Varent, ghost t: VTree, p0: Varent, ghost c0: VCtx, ghost u0: VTree)
    returns (p: Varent, ghost c: VCtx, ghost u: VTree)
    requires At(c0, u0) && u0.Node? && p0 == u0.id && Header(c0) == head
    requires InOrder(t) == Before(c0) + InOrder(u0) + After(c0)
    ensures ListingAt(head, t, p, c, u) && Before(c) + InOrder(u) == Before(c0) + InOrder(u0)
    ensures Listed(t, |Before(c0) + InOrder(u0)|, p)
  {
    hide Linked; hide LinkedCtx; hide Sep; hide SepC; hide FpC; hide Fp; hide InOrder; hide Before; hide After;
    c, u := c0, u0;
    var ch := p0;
    HoleSide(c, u);
    p := ch.parent;
    while p.right == ch
      invariant At(c, u) && u.Node? && ch == u.id && p == c.id && Header(c) == head
      invariant p.right == ch <==> c.InRight?
      invariant InOrder(t) == Before(c) + InOrder(u) + After(c)
      invariant Before(c) + InOrder(u) == Before(c0) + InOrder(u0)
      decreases c
    {
      ClimbInOrder(c, u);
      Up(c, u);
      c, u := c.up, Parent(c, u);
      HoleSide(c, u);
      ch := p;
      p := ch.parent;
    }
    ListingNext(head, t, p, c, u);
  }

  lemma ClimbInOrder(c: VCtx, u: VTree)
    requires c.InRight?
    ensures Before(c) + InOrder(u) == Before(c.up) + InOrder(Parent(c, u)) && After(c) == After(c.up)
  {
    assert Before(c) + InOrder(u) == Before(c.up) + (InOrder(c.left) + [c.entry] + InOrder(u));
  }

  // What is between a record and the one listed before it.
  lemma VisitInOrder(c: VCtx, u: VTree)
    requires c.InLeft?
    ensures var c' := InRight(c.up, u, c.id, c.entry, c.bal);
            && Parent(c, u) == Parent(c', c.right)
            && Before(c') == Before(c) + InOrder(u) + [c.entry] && After(c') == After(c.up)
            && Before(c) + InOrder(u) + After(c) == Before(c') + InOrder(c.right) + After(c')
            && Before(c) + InOrder(u) + After(c) == Before(c.up) + InOrder(Parent(c, u)) + After(c.up)
            && (c.right.Nil? ==> Before(c.up) + InOrder(Parent(c, u)) == Before(c'))
  {
    var c' := InRight(c.up, u, c.id, c.entry, c.bal);
    ParentInOrder(c, u);
    ParentInOrder(c', c.right);
    if c.right.Nil? {
      assert InOrder(Parent(c, u)) == InOrder(u) + [c.entry] + [];
      assert Before(c.up) + (InOrder(u) + [c.entry]) == Before(c');
    }
  }

  // From a record to the first of its right side.
  lemma StepRight(head: Varent, t: VTree, p: Varent, c: VCtx, u: VTree) returns (c2: VCtx, u2: VTree)
    requires ListingAt(head, t, p, c, u) && c.InLeft? && p.right != null
    ensures ListingAt(head, t, p.right, c2, u2)
    ensures Before(c2) == Before(c) + InOrder(u) + [Entry(p.name, p.vec)]
  {
    hide Linked; hide LinkedCtx; hide Sep; hide SepC; hide FpC; hide Fp; hide InOrder; hide Before; hide After;
    hide Table; hide At;
    Up(c, u);
    RecordFields(c.up, Parent(c, u));
    VisitInOrder(c, u);
    var c', r := InRight(c.up, u, c.id, c.entry, c.bal), c.right;
    DownRight(c.up, Parent(c, u));
    assert Header(c') == Header(c.up);
    DownLeft(c', r);
    LeftInOrder(c', r);
    RecordFields(c', r);
    InLeftBefore(c', r);
    c2, u2 := InLeft(c', r.id, r.entry, r.bal, r.right), r.left;
  }

  // plist: list a table in name order, finding the way by parent links only.
  method Plist(head: Varent, ghost t: VTree) returns (out: seq<Entry>)
    requires Valid(head, t)
    ensures out == InOrder(t) && Ordered(out)
  {
    hide Linked; hide LinkedCtx; hide Sep; hide SepC; hide FpC; hide Fp; hide InOrder; hide Before; hide After;
    hide Table; hide At; hide Ordered;
    TableOrdered(head, t);
    PlistStart(head, t);
    out := [];
    var p: Varent, pending := head, true;
    ghost var c: VCtx, u := Top(head), t;
    while true
      invariant ListingAt(head, t, p, c, u) && |out| <= |InOrder(t)|
      invariant out == if pending then Before(c) else Before(c) + InOrder(u)
      decreases |InOrder(t)| - |out|
    {
      if pending {
        p, c := Leftmost(head, t, p, c, u);
        u := Nil;
        NilInOrder(c);
      }
      ParentIsNull(c, u);
      if p.parent == null {
        TopInOrder(c, u);
        return;
      }
      Up(c, u);
      RecordFields(c.up, Parent(c, u));
      VisitInOrder(c, u);
      out := out + [Entry(p.name, p.vec)];
      if p.right != null {
        c, u := StepRight(head, t, p, c, u);
        p, pending := p.right, true;
      } else {
        p, c, u := Climb(head, t, p, c.up, Parent(c, u));
        pending := false;
      }
    }
  }

  lemma RecordFields(c: VCtx, u: VTree)
    requires At(c, u) && u.Node?
    ensures u.id.name == u.entry.name && u.id.vec == u.entry.vec && u.id.right == Root(u.right)
  {
  }

  lemma InLeftBefore(c: VCtx, u: VTree)
    requires u.Node?
    ensures Before(InLeft(c, u.id, u.entry, u.bal, u.right)) == Before(c)
  {
  }

  lemma PlistStart(head: Varent, t: VTree)
    requires Valid(head, t)
    ensures ListingAt(head, t, head, Top(head), t) && Before(Top(head)) == []
  {
  }

  lemma NilInOrder(c: VCtx)
    ensures Before(c) + InOrder<Varent>(Tree.Nil) == Before(c)
  {
  }

  lemma TopInOrder(c: VCtx, u: VTree)
    requires c.Top?
    ensures Before(c) + InOrder(u) + After(c) == Before(c) + InOrder(u)
  {
  }
}
