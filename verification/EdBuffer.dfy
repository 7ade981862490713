// The editor buffer of ed: the cached cursor, the editing primitives and the
// undo stack.
module EdBuffer {
  import opened EdRing

  datatype UndoNode = UndoNode(kind: Kind, h: Line, t: Line)

  // ------------------------------------------------------------ histories

  // The rings the buffer went through since the undo stack was last cleared,
  // one more than there are edits between them.
  ghost predicate Step(r: seq<Line>, e: Edit, r': seq<Line>) {
    if e.kind.UADD? then Splice(r, e, r') else Splice(r', e, r)
  }

  ghost function Small(hist: seq<seq<Line>>, eds: seq<Edit>, k: nat): seq<Line>
    requires |hist| == |eds| + 1 && k < |eds|
  {
    if eds[k].kind.UADD? then hist[k] else hist[k + 1]
  }

  // Is the block of edit `k` out of the ring when the buffer stands at hist[j]?
  ghost predicate Out(e: Edit, k: int, j: int) {
    if e.kind.UADD? then j <= k else k < j
  }

  ghost predicate Apart(hist: seq<seq<Line>>, eds: seq<Edit>) {
    forall k, j :: 0 <= k < |eds| && 0 <= j < |hist| && Out(eds[k], k, j) ==> Disjoint(eds[k].nodes, hist[j])
  }

  ghost predicate History(line0: Line, hist: seq<seq<Line>>, eds: seq<Edit>) {
    && |hist| == |eds| + 1
    && (forall j :: 0 <= j < |hist| ==> hist[j] != [] && hist[j][0] == line0 && NoDup(hist[j]))
    && (forall k :: 0 <= k < |eds| ==> Step(hist[k], eds[k], hist[k + 1]))
    && Apart(hist, eds)
  }

  ghost predicate Within(r: seq<Line>, s: set<Line>) {
    forall i :: 0 <= i < |r| ==> r[i] in s
  }

  // The undo stack records the edits of the history.
  ghost predicate Recorded(line0: Line, hist: seq<seq<Line>>, eds: seq<Edit>, ustack: seq<UndoNode>, s: set<Line>) {
    && History(line0, hist, eds)
    && (forall j :: 0 <= j < |hist| ==> Within(hist[j], s))
    && |ustack| == |eds|
    && (forall k :: 0 <= k < |eds| ==>
          eds[k].nodes != [] &&
          ustack[k] == UndoNode(eds[k].kind, eds[k].nodes[0], eds[k].nodes[|eds[k].nodes| - 1]))
  }

  lemma SpliceWithin(small: seq<Line>, e: Edit, big: seq<Line>, s: set<Line>)
    requires Splice(small, e, big) && Within(big, s)
    ensures Within(e.nodes, s) && Within(small, s)
  {
    SpliceAt(small, e, big);
    forall i | 0 <= i < |small| ensures small[i] in s {
      assert small[i] == if i < e.pos then big[i] else big[i + |e.nodes|];
    }
    forall i | 0 <= i < |e.nodes| ensures e.nodes[i] in s {
      assert e.nodes[i] == big[e.pos..e.pos + |e.nodes|][i] == big[e.pos + i];
    }
  }

  // Every block other than that of edit `but` that is out of the ring at
  // hist[c] lies within `s` and can be put back.
  ghost predicate Ready(hist: seq<seq<Line>>, eds: seq<Edit>, c: int, but: int, s: set<Line>)
    requires |hist| == |eds| + 1
    reads s
  {
    forall k :: 0 <= k < |eds| && k != but && Out(eds[k], k, c) ==>
      && Within(eds[k].nodes, s)
      && Step(hist[k], eds[k], hist[k + 1])
      && Detached(eds[k], Small(hist, eds, k))
  }

  // Every known node was in the buffer at some time.
  ghost predicate Seen(hist: seq<seq<Line>>, x: Line) {
    exists j :: 0 <= j < |hist| && x in hist[j]
  }

  ghost predicate Covered(hist: seq<seq<Line>>, s: set<Line>) {
    forall x :: x in s ==> Seen(hist, x)
  }

  // Extending the history, or replacing its last ring by a larger one, loses
  // no node.
  lemma CoveredNext(hist: seq<seq<Line>>, s: set<Line>, k: nat, r: seq<Line>, s': set<Line>)
    requires Covered(hist, s) && k <= |hist| <= k + 1
    requires k < |hist| ==> forall x :: x in hist[k] ==> x in r
    requires forall x :: x in s' && x !in s ==> x in r
    ensures Covered(hist[..k] + [r], s')
  {
    var hist' := hist[..k] + [r];
    forall x | x in s' ensures Seen(hist', x) {
      if x in s {
        assert Seen(hist, x);
        var j :| 0 <= j < |hist| && x in hist[j];
        assert j < k ==> hist'[j] == hist[j];
        assert j == k ==> x in hist'[k];
      } else {
        assert x in hist'[k];
      }
    }
  }

  // When edit `e` can be recorded after the others, leading to ring r'.
  ghost predicate Pushable(line0: Line, hist: seq<seq<Line>>, eds: seq<Edit>, e: Edit, r': seq<Line>)
    requires |hist| == |eds| + 1
  {
    && Step(hist[|eds|], e, r')
    && r' != [] && r'[0] == line0 && NoDup(r')
    && (if e.kind.UADD? then forall j :: 0 <= j < |hist| ==> Disjoint(e.nodes, hist[j]) else Disjoint(e.nodes, r'))
    && (forall k :: 0 <= k < |eds| && eds[k].kind.UDEL? ==> Disjoint(eds[k].nodes, r'))
  }

  lemma HistoryPush(line0: Line, hist: seq<seq<Line>>, eds: seq<Edit>, e: Edit, r': seq<Line>)
    requires History(line0, hist, eds) && Pushable(line0, hist, eds, e, r')
    ensures History(line0, hist + [r'], eds + [e])
  {
    var hist', eds', m := hist + [r'], eds + [e], |eds|;
    forall k | 0 <= k < |eds'| ensures Step(hist'[k], eds'[k], hist'[k + 1]) {
      if k < m {
        assert hist'[k] == hist[k] && hist'[k + 1] == hist[k + 1] && eds'[k] == eds[k];
      }
    }
    forall k, j | 0 <= k < |eds'| && 0 <= j < |hist'| && Out(eds'[k], k, j)
      ensures Disjoint(eds'[k].nodes, hist'[j])
    {
      if k < m && j <= m {
        assert Out(eds[k], k, j);
      }
    }
  }

  lemma HistoryPop(line0: Line, hist: seq<seq<Line>>, eds: seq<Edit>)
    requires History(line0, hist, eds) && eds != []
    ensures History(line0, hist[..|eds|], eds[..|eds| - 1])
  {
    var hist', eds', m := hist[..|eds|], eds[..|eds| - 1], |eds| - 1;
    forall k | 0 <= k < m ensures Step(hist'[k], eds'[k], hist'[k + 1]) {
      assert hist'[k] == hist[k] && hist'[k + 1] == hist[k + 1] && eds'[k] == eds[k];
    }
    forall k, j | 0 <= k < m && 0 <= j < |hist'| && Out(eds'[k], k, j)
      ensures Disjoint(eds'[k].nodes, hist'[j])
    {
      assert Out(eds[k], k, j);
    }
  }

  // Recording an edit adds at most its own block to those to be put back.
  lemma ReadyPush(hist: seq<seq<Line>>, eds: seq<Edit>, e: Edit, r': seq<Line>, s: set<Line>)
    requires |hist| == |eds| + 1
    requires Ready(hist, eds, |eds|, -1, s)
    ensures Ready(hist + [r'], eds + [e], |eds| + 1, |eds|, s)
  {
    var hist', eds', m := hist + [r'], eds + [e], |eds|;
    forall k | 0 <= k < |eds'| && k != m && Out(eds'[k], k, m + 1)
      ensures Within(eds'[k].nodes, s)
      ensures Step(hist'[k], eds'[k], hist'[k + 1])
      ensures Detached(eds'[k], Small(hist', eds', k))
    {
      assert Out(eds[k], k, m) && hist'[k] == hist[k] && hist'[k + 1] == hist[k + 1] && eds'[k] == eds[k];
    }
  }

  lemma ReadyPop(hist: seq<seq<Line>>, eds: seq<Edit>, s: set<Line>)
    requires |hist| == |eds| + 1 && eds != []
    requires Ready(hist, eds, |eds|, -1, s)
    ensures Ready(hist[..|eds|], eds[..|eds| - 1], |eds| - 1, -1, s)
  {
    var hist', eds', m := hist[..|eds|], eds[..|eds| - 1], |eds| - 1;
    forall k | 0 <= k < m && Out(eds'[k], k, m)
      ensures Within(eds'[k].nodes, s)
      ensures Step(hist'[k], eds'[k], hist'[k + 1])
      ensures Detached(eds'[k], Small(hist', eds', k))
    {
      assert Out(eds[k], k, m + 1) && hist'[k] == hist[k] && hist'[k + 1] == hist[k + 1] && eds'[k] == eds[k];
    }
  }

  lemma RecordedPush(line0: Line, hist: seq<seq<Line>>, eds: seq<Edit>, ustack: seq<UndoNode>, s: set<Line>,
                     e: Edit, r': seq<Line>, u: UndoNode, s': set<Line>)
    requires Recorded(line0, hist, eds, ustack, s) && Pushable(line0, hist, eds, e, r')
    requires s <= s' && Within(r', s') && e.nodes != []
    requires u == UndoNode(e.kind, e.nodes[0], e.nodes[|e.nodes| - 1])
    ensures Recorded(line0, hist + [r'], eds + [e], ustack + [u], s')
  {
    HistoryPush(line0, hist, eds, e, r');
    forall j | 0 <= j < |hist| + 1 ensures Within((hist + [r'])[j], s') {
      assert j < |hist| ==> Within(hist[j], s);
    }
  }

  lemma RecordedPop(line0: Line, hist: seq<seq<Line>>, eds: seq<Edit>, ustack: seq<UndoNode>, s: set<Line>)
    requires Recorded(line0, hist, eds, ustack, s) && eds != []
    ensures Recorded(line0, hist[..|eds|], eds[..|eds| - 1], ustack[..|eds| - 1], s)
  {
    HistoryPop(line0, hist, eds);
  }

  // All links of the nodes in s lead to nodes in s.
  ghost predicate Closed(s: set<Line>)
    reads s
  {
    && (forall x {:trigger x.next} :: x in s ==> x.next in s)
    && (forall x {:trigger x.prev} :: x in s ==> x.prev in s)
  }

  lemma RingClosed(r: seq<Line>)
    requires Ring(r)
    ensures Closed(Nodes(r))
  {
    forall x | x in Nodes(r) ensures x.next in Nodes(r) && x.prev in Nodes(r) {
      var i :| 0 <= i < |r| && r[i] == x;
      assert i + 1 < |r| ==> r[i].next == r[i + 1];
      assert i > 0 ==> r[i - 1].next == r[i] && r[i].prev == r[i - 1];
    }
  }

  ghost predicate StackIn(ustack: seq<UndoNode>, s: set<Line>) {
    forall i :: 0 <= i < |ustack| ==> ustack[i].h in s && ustack[i].t in s
  }

  // Every recorded block lies among the known nodes.
  lemma BlocksWithin(line0: Line, hist: seq<seq<Line>>, eds: seq<Edit>, ustack: seq<UndoNode>, s: set<Line>, k: int)
    requires Recorded(line0, hist, eds, ustack, s) && 0 <= k < |eds|
    ensures Within(eds[k].nodes, s)
  {
    assert Step(hist[k], eds[k], hist[k + 1]);
    assert Within(hist[k], s) && Within(hist[k + 1], s);
    if eds[k].kind.UADD? {
      SpliceWithin(hist[k], eds[k], hist[k + 1], s);
    } else {
      SpliceWithin(hist[k + 1], eds[k], hist[k], s);
    }
  }

  // So do the ends of the blocks.
  lemma RecordsIn(line0: Line, hist: seq<seq<Line>>, eds: seq<Edit>, ustack: seq<UndoNode>, s: set<Line>)
    requires Recorded(line0, hist, eds, ustack, s)
    ensures StackIn(ustack, s)
  {
    hide History;
    forall i | 0 <= i < |ustack| ensures ustack[i].h in s && ustack[i].t in s {
      BlocksWithin(line0, hist, eds, ustack, s, i);
    }
  }

  // c and c' are the two ends of edit `k`.
  ghost predicate Around(k: int, c: int, c': int) {
    if c < c' then c == k && c' == k + 1 else c == k + 1 && c' == k
  }

  // ------------------------------------------------------------ the buffer

  class Editor {
    const line0: Line
    var curln: int
    var lastln: int
    // the statics of getptr: `lp` is the node of line `on`
    var lp: Line
    var on: int
    // the undo stack (ustack[0..u_p]), its direction and its saved line number
    var ustack: seq<UndoNode>
    var usw: bool
    var ucurln: int
    // not a variable of ed: an edit was recorded while usw was set
    var stale: bool

    ghost var ring: seq<Line>
    ghost var hist: seq<seq<Line>>
    ghost var eds: seq<Edit>
    ghost var repr: set<Line>

    ghost predicate RingOK()
      reads this, repr
    {
      && Within(ring, repr)
      && Closed(repr)
      && Ring(ring)
      && ring[0] == line0
      && lastln == |ring| - 1
      && 0 <= on <= lastln
      && lp == ring[on]
    }

    ghost predicate HistOK()
      reads this
    {
      Recorded(line0, hist, eds, ustack, repr) && Covered(hist, repr)
    }

    ghost predicate Coherent(c: int)
      reads this, repr
    {
      RingOK() && HistOK() && 0 <= c < |hist| && ring == hist[c] && Ready(hist, eds, c, -1, repr)
    }

    // The ring is in order, and the stack replays it unless it is stale.
    ghost predicate Valid()
      reads this, repr
    {
      RingOK() && StackIn(ustack, repr) && hist != [] && (!stale ==> Coherent(if usw then 0 else |eds|))
    }

    // All that is sure in any state: links and records lead to known nodes.
    ghost predicate Held()
      reads this, repr
    {
      line0 in repr && lp in repr && Closed(repr) && StackIn(ustack, repr)
    }

    lemma ValidHeld()
      requires Valid()
      ensures Held()
    {
    }

    // undo and ureset take the block of such a record for one that is out.
    predicate TakenForOut(u: UndoNode)
      reads this`usw
    {
      (u.kind == UDEL) != usw
    }

    // On a stack that is not stale they are right to do so.
    lemma TakenRight(k: int)
      requires Valid() && !stale && 0 <= k < |ustack|
      ensures TakenForOut(ustack[k]) ==> ustack[k].h !in ring
    {
      EditFacts(k);
      var c := if usw then 0 else |eds|;
      if Out(eds[k], k, c) {
        assert Disjoint(eds[k].nodes, hist[c]);
      }
    }

    constructor ()
      ensures Valid() && fresh(repr) && ring == [line0] && eds == [] && curln == 0 && !usw && !stale
    {
      var l := new Line("");
      Requeue(l, l);
      line0, lp, on := l, l, 0;
      curln, lastln := 0, 0;
      ustack, usw, ucurln, stale := [], false, 0, false;
      ring, hist, eds, repr := [l], [[l]], [], {l};
      new;
      assert line0 in hist[0] && Seen(hist, line0);
    }

    // ---------------------------------------------------------- the cursor

    static ghost function Clamp(n: int, hi: int): int {
      if n < 0 then 0 else if n > hi then hi else n
    }

    lemma RingLinks(i: int)
      requires RingOK() && 0 <= i <= lastln
      ensures ring[i].next == if i < lastln then ring[i + 1] else line0
      ensures 0 < i <= lastln ==> ring[i].prev == ring[i - 1]
      ensures line0.prev == ring[lastln]
    {
      if i < lastln {
        assert ring[i].next == ring[i + 1];
      }
      if 0 < i {
        assert ring[i - 1].next == ring[i];
      }
    }

    // getptr: the node of line `n`; `steps` counts the links it follows.
    method GetPtr(n: int) returns (r: Line, ghost steps: nat)
      requires RingOK()
      modifies this`lp, this`on
      ensures RingOK() && on == Clamp(n, lastln) && r == lp == ring[on]
      ensures 2 * steps <= lastln + 2
    {
      hide Ring; hide Within;
      steps := 0;
      if n > on {
        if n <= (on + lastln) / 2 {
          while on < n
            invariant RingOK() && on <= n && steps + n - on == n - old(on)
          {
            RingLinks(on);
            lp, on, steps := lp.next, on + 1, steps + 1;
          }
        } else {
          RingLinks(0);
          lp, on, steps := line0.prev, lastln, 1;
          while on > n
            invariant RingOK() && steps == 1 + lastln - on
            invariant on >= n || on == lastln
          {
            RingLinks(on);
            lp, on, steps := lp.prev, on - 1, steps + 1;
          }
        }
      } else if n >= on / 2 {
        while on > n
          invariant RingOK() && on >= n && steps == old(on) - on
        {
          RingLinks(on);
          lp, on, steps := lp.prev, on - 1, steps + 1;
        }
      } else {
        lp, on := line0, 0;
        while on < n
          invariant RingOK() && (on <= n || on == 0) && steps == on
        {
          RingLinks(on);
          lp, on, steps := lp.next, on + 1, steps + 1;
        }
      }
      r := lp;
    }

    // -------------------------------------------------------------- undo

    // The nodes that a replay of edit `k` may write: those of the two rings
    // around it.
    ghost function Touched(k: int): set<Line>
      requires 0 <= k < |hist| - 1
      reads this
    {
      set x | x in repr && (x in hist[k] || x in hist[k + 1])
    }

    ghost function Big(k: int): seq<Line>
      requires 0 <= k < |eds| && |hist| == |eds| + 1
      reads this
    {
      if eds[k].kind.UADD? then hist[k + 1] else hist[k]
    }

    // What the history says about edit `k`.
    lemma EditFacts(k: int)
      requires HistOK() && 0 <= k < |eds|
      ensures |hist| == |eds| + 1 && k < |ustack|
      ensures Splice(Small(hist, eds, k), eds[k], Big(k)) && Disjoint(eds[k].nodes, Small(hist, eds, k))
      ensures Small(hist, eds, k)[0] == Big(k)[0] == line0
      ensures ustack[k].h == eds[k].nodes[0] && ustack[k].t == eds[k].nodes[|eds[k].nodes| - 1]
      ensures ustack[k].kind == eds[k].kind
      ensures Touched(k) <= repr
      ensures Within(hist[k], Touched(k)) && Within(hist[k + 1], Touched(k)) && Within(eds[k].nodes, Touched(k))
    {
      var e, small := eds[k], Small(hist, eds, k);
      assert Step(hist[k], e, hist[k + 1]);
      assert Within(hist[k], repr) && Within(hist[k + 1], repr);
      assert NoDup(hist[k]) && NoDup(hist[k + 1]);
      SpliceWithin(small, e, Big(k), Touched(k));
      SpliceNoDup(small, e, Big(k));
    }

    // The blocks that stay out while edit `k` is replayed lie elsewhere.
    lemma OthersReady(k: int, c: int, c': int)
      requires HistOK() && 0 <= k < |eds| && |hist| == |eds| + 1 && Around(k, c, c')
      requires Ready(hist, eds, c, -1, repr)
      ensures Ready(hist, eds, c', k, repr - Touched(k))
    {
      hide Step; hide Detached; hide HistOK; hide Touched; hide Within; hide Small;
      forall k' | 0 <= k' < |eds| && k' != k && Out(eds[k'], k', c')
        ensures Out(eds[k'], k', c) && Within(eds[k'].nodes, repr - Touched(k))
      {
        assert Within(eds[k'].nodes, repr);
        Elsewhere(k, k');
      }
    }

    lemma Elsewhere(k: int, k': int)
      requires HistOK() && 0 <= k < |eds| && 0 <= k' < |eds| && |hist| == |eds| + 1 && Within(eds[k'].nodes, repr)
      requires Out(eds[k'], k', k) && Out(eds[k'], k', k + 1)
      ensures Within(eds[k'].nodes, repr - Touched(k))
    {
      hide Step; hide Covered;
      assert Disjoint(eds[k'].nodes, hist[k]) && Disjoint(eds[k'].nodes, hist[k + 1]);
    }

    lemma BlockReady(k: int, c: int)
      requires HistOK() && 0 <= k < |eds| && |hist| == |eds| + 1 && Out(eds[k], k, c)
      requires Ready(hist, eds, c, -1, repr)
      ensures Splice(Small(hist, eds, k), eds[k], Big(k)) && Within(Big(k), repr)
      ensures Detached(eds[k], Small(hist, eds, k))
    {
      assert Within(hist[k], repr) && Within(hist[k + 1], repr);
    }

    lemma AllReady(k: int, c: int, rest: set<Line>)
      requires 0 <= k < |eds| && |hist| == |eds| + 1
      requires rest <= repr && Ready(hist, eds, c, k, rest)
      requires Out(eds[k], k, c) ==>
        && Within(eds[k].nodes, repr)
        && Splice(Small(hist, eds, k), eds[k], Big(k))
        && Detached(eds[k], Small(hist, eds, k))
      ensures Ready(hist, eds, c, -1, repr)
    {
    }

    // getrange: the number of nodes from h to t.
    static method GetRange(h: Line, t: Line, ghost s: seq<Line>) returns (n: int)
      requires s != [] && NoDup(s) && Chain(s) && h == s[0] && t == s[|s| - 1]
      ensures n == |s|
    {
      n := 1;
      var p := h;
      while p != t
        invariant 1 <= n <= |s| && p == s[n - 1]
        decreases |s| - n
      {
        assert s[n - 1].next == s[n];
        n, p := n + 1, p.next;
      }
    }

    // What a block and the ring without it have in common with the ring.
    lemma Parting(e: Edit, small: seq<Line>, s: set<Line>)
      requires RingOK() && on < e.pos && Splice(small, e, ring) && Within(ring, s)
      ensures Within(e.nodes, repr) && Within(small, repr) && small != []
      ensures NoDup(small) && Disjoint(e.nodes, small)
      ensures var before, after := small[e.pos - 1], At(small, e.pos);
        before in s && after in s && before in repr && after in repr
      ensures small[0] == line0 && lp == small[on] && |small| == |ring| - |e.nodes|
    {
      SpliceWithin(small, e, ring, repr);
      SpliceWithin(small, e, ring, s);
      SpliceNoDup(small, e, ring);
      SpliceEnds(small, e, ring);
      assert ring[on] == small[on];
    }

    lemma BlockEnds(e: Edit, small: seq<Line>)
      requires RingOK() && Splice(small, e, ring)
      ensures e.nodes[0].prev == small[e.pos - 1] && e.nodes[|e.nodes| - 1].next == At(small, e.pos)
    {
      SpliceDetached(small, e, ring);
    }

    // The block of `e` leaves the ring (h and t are its ends) ...
    method Cut(h: Line, t: Line, ghost e: Edit, ghost small: seq<Line>, ghost s: set<Line>)
      requires RingOK() && on == 0 && Splice(small, e, ring)
      requires h == e.nodes[0] && t == e.nodes[|e.nodes| - 1]
      requires Within(ring, s)
      modifies this`lastln, this`ring, s`next, s`prev
      ensures RingOK() && ring == small && Within(e.nodes, repr)
      ensures Detached(e, small)
    {
      hide Ring; hide Within; hide NoDup; hide Disjoint; hide Chain;
      Parting(e, small, s);
      BlockEnds(e, small);
      Unlink(h.prev, t.next, small, e, ring);
      var n := GetRange(h, t, e.nodes);
      lastln := lastln - n;
      ring := small;
    }

    // ... or comes back into it.
    method Paste(h: Line, t: Line, ghost e: Edit, ghost big: seq<Line>, ghost s: set<Line>)
      requires RingOK() && on == 0 && Splice(ring, e, big)
      requires Disjoint(e.nodes, ring) && Detached(e, ring) && Within(big, repr)
      requires h == e.nodes[0] && t == e.nodes[|e.nodes| - 1]
      requires Within(ring, s) && Within(e.nodes, s)
      modifies this`lastln, this`ring, s`next, s`prev
      ensures RingOK() && ring == big
    {
      SpliceWithin(ring, e, big, repr);
      assert h in repr && t in repr;
      Relink(h, t, ring, e, big);
      var n := GetRange(h, t, e.nodes);
      lastln := lastln + n;
      ring := big;
    }

    // The two cases of undo's switch, on record `k`, while the buffer goes from
    // hist[c] to hist[c'].
    method TakeOut(k: int, ghost c: int, ghost c': int)
      requires 0 <= k < |eds| && Around(k, c, c') && Coherent(c)
      requires Out(eds[k], k, c') && !Out(eds[k], k, c)
      modifies this`lp, this`on, this`lastln, this`ring, repr`next, repr`prev
      ensures Coherent(c')
    {
      hide Recorded; hide Ready; hide Covered; hide Touched; hide Ring; hide Closed; hide Splice; hide Disjoint; hide Detached; hide Within;
      EditFacts(k);
      OthersReady(k, c, c');
      ghost var s := Touched(k);
      var p, n := GetPtr(0);
      Cut(ustack[k].h, ustack[k].t, eds[k], Small(hist, eds, k), s);
      AllReady(k, c', repr - s);
    }

    method PutIn(k: int, ghost c: int, ghost c': int)
      requires 0 <= k < |eds| && Around(k, c, c') && Coherent(c)
      requires Out(eds[k], k, c) && !Out(eds[k], k, c')
      modifies this`lp, this`on, this`lastln, this`ring, repr`next, repr`prev
      ensures Coherent(c')
    {
      hide Recorded; hide Ready; hide Covered; hide Touched; hide Ring; hide Closed; hide Splice; hide Disjoint; hide Detached; hide Within;
      EditFacts(k);
      OthersReady(k, c, c');
      BlockReady(k, c);
      ghost var s := Touched(k);
      var p, n := GetPtr(0);
      Paste(ustack[k].h, ustack[k].t, eds[k], Big(k), s);
      AllReady(k, c', repr - s);
    }

    lemma StackSize()
      requires HistOK()
      ensures |ustack| == |eds| == |hist| - 1
    {
    }

    // undo's switch: the type of record `k`, turned round when `usw` is set.
    method Replay(k: int, ghost c: int, ghost c': int)
      requires 0 <= k < |eds| && k < |ustack| && Coherent(c)
      requires if usw then c == k && c' == k + 1 else c == k + 1 && c' == k
      modifies this`lp, this`on, this`lastln, this`ring, repr`next, repr`prev
      ensures Coherent(c')
    {
      hide Recorded; hide Ready; hide Covered;
      EditFacts(k);
      if (ustack[k].kind == UADD) != usw {
        TakeOut(k, c, c');
      } else {
        PutIn(k, c, c');
      }
    }

    // undo's loop: replays the whole stack, backwards or forwards.
    method ReplayAll()
      requires Valid() && !stale
      modifies this`lastln, this`lp, this`on, this`ring, repr`next, repr`prev
      ensures Coherent(if usw then |eds| else 0)
    {
      hide Recorded; hide Ready; hide Covered; hide Ring;
      var n := if usw then 0 else |ustack| - 1;
      var i := if usw then 1 else -1;
      var j := |ustack|;
      StackSize();
      while j > 0
        invariant 0 <= j <= |eds|
        invariant n == if usw then |eds| - j else j - 1
        invariant Coherent(if usw then |eds| - j else j)
      {
        Replay(n, if usw then n else n + 1, if usw then n + 1 else n);
        j, n := j - 1, n + i;
      }
    }

    // undo: undo the last change, or undo that undo.
    method Undo() returns (ok: bool)
      requires Valid() && !stale
      modifies this`curln, this`lastln, this`lp, this`on, this`usw, this`ucurln, this`ring
      modifies repr`next, repr`prev
      ensures Valid()
      ensures ok == (ustack != [])
      ensures !ok ==> ring == old(ring) && curln == old(curln) && ucurln == old(ucurln) && usw == old(usw)
      ensures ok ==> usw == !old(usw) && curln == old(ucurln) && ucurln == old(curln)
    {
      hide Recorded; hide Ready; hide Covered;
      StackSize();
      var ocurln := curln;
      if |ustack| == 0 {
        return false;
      }
      ReplayAll();
      curln := ucurln;
      ucurln := ocurln;
      usw := !usw;
      return true;
    }

    // ----------------------------------------------------------- edits

    // getuptr: a new record for the block from line `from` to line `to`.
    method GetUptr(kind: Kind, from: int, to: int)
      requires RingOK() && 0 <= from <= lastln && 0 <= to <= lastln
      modifies this`lp, this`on, this`ustack
      ensures RingOK() && ustack == old(ustack) + [UndoNode(kind, ring[from], ring[to])]
    {
      var t, n := GetPtr(to);
      var h, m := GetPtr(from);
      ustack := ustack + [UndoNode(kind, h, t)];
    }

    static function Nextln(l: int, k: int): int {
      if l + 1 > k then 0 else l + 1
    }

    static function Prevln(l: int, k: int): int {
      if l - 1 < 0 then k else l - 1
    }

    ghost function Base(): (seq<Line>, int, Line)
      requires hist != []
      reads this
    {
      (hist[0], ucurln, line0)
    }

    // The heap part of del.
    method Drop(before: Line, after: Line, n: int, ghost e: Edit, ghost small: seq<Line>, ghost s: set<Line>)
      requires RingOK() && on < e.pos && Splice(small, e, ring) && n == |e.nodes|
      requires before == small[e.pos - 1] && after == At(small, e.pos)
      requires Within(ring, s)
      modifies this`lastln, this`ring, s`next, s`prev
      ensures RingOK() && ring == small && Within(e.nodes, repr)
      ensures Detached(e, small) && Disjoint(e.nodes, small) && NoDup(small)
    {
      hide Ring; hide Within; hide NoDup; hide Disjoint; hide Chain; hide Detached;
      Parting(e, small, s);
      Unlink(before, after, small, e, ring);
      lastln := lastln - n;
      ring := small;
    }

    // What an edit needs of the buffer: outside the ring only blocks that can
    // be put back matter.
    lemma BeforeEdit()
      requires Valid()
      ensures RingOK() && StackIn(ustack, repr) && hist != []
      ensures Nodes(ring) <= repr && Within(ring, Nodes(ring))
      ensures !usw && !stale ==>
        && |hist| == |eds| + 1 && |ustack| == |eds| && ring == hist[|eds|]
        && Recorded(line0, hist, eds, ustack, repr) && Covered(hist, repr)
        && Ready(hist, eds, |eds|, -1, repr - Nodes(ring))
    {
      if usw || stale {
        return;
      }
      forall k | 0 <= k < |eds| && Out(eds[k], k, |eds|)
        ensures Within(eds[k].nodes, repr - Nodes(ring))
      {
        assert Disjoint(eds[k].nodes, hist[|eds|]);
      }
    }

    // What an edit leaves of it that was recorded while usw was set.
    lemma AfterStale()
      requires RingOK() && StackIn(ustack, repr) && hist != [] && stale
      ensures Valid()
    {
    }

    lemma RecordIn(ustack0: seq<UndoNode>, u: UndoNode, s: set<Line>)
      requires StackIn(ustack0, s) && s <= repr && u.h in repr && u.t in repr
      ensures StackIn(ustack0 + [u], repr)
      ensures ustack0 != [] ==> StackIn(ustack0[|ustack0| - 1 := ustack0[|ustack0| - 1].(t := u.t)], repr)
    {
    }

    lemma CutPushable(hist0: seq<seq<Line>>, eds0: seq<Edit>, ustack0: seq<UndoNode>, e: Edit, big: seq<Line>)
      requires Recorded(line0, hist0, eds0, ustack0, repr) && |hist0| == |eds0| + 1 && big == hist0[|eds0|]
      requires e.kind == UDEL && Splice(ring, e, big) && Disjoint(e.nodes, ring) && RingOK()
      ensures Pushable(line0, hist0, eds0, e, ring)
    {
      var small, ring := ring, big;
      SpliceAt(small, e, ring);
      forall k | 0 <= k < |eds0| && eds0[k].kind.UDEL? ensures Disjoint(eds0[k].nodes, small) {
        assert Out(eds0[k], k, |eds0|) && Disjoint(eds0[k].nodes, ring);
        forall i, j | 0 <= i < |eds0[k].nodes| && 0 <= j < |small| ensures eds0[k].nodes[i] != small[j] {
          assert small[j] == if j < e.pos then ring[j] else ring[j + |e.nodes|];
        }
      }
    }

    // The buffer and its records once edit `e` has led to ring `ring`.
    lemma Log(hist0: seq<seq<Line>>, eds0: seq<Edit>, ustack0: seq<UndoNode>, e: Edit, s0: set<Line>, rest: set<Line>)
      requires RingOK() && Recorded(line0, hist0, eds0, ustack0, s0) && Pushable(line0, hist0, eds0, e, ring)
      requires hist == hist0 + [ring] && eds == eds0 + [e] && s0 <= repr && rest <= repr && !usw && !stale
      requires ustack == ustack0 + [UndoNode(e.kind, e.nodes[0], e.nodes[|e.nodes| - 1])]
      requires Ready(hist0, eds0, |eds0|, -1, rest) && Covered(hist, repr)
      requires e.kind.UDEL? ==> Within(e.nodes, repr) && Splice(ring, e, hist0[|eds0|]) && Detached(e, ring)
      ensures Valid()
    {
      assert Within(ring, repr);
      RecordedPush(line0, hist0, eds0, ustack0, s0, e, ring, ustack[|ustack0|], repr);
      RecordsIn(line0, hist, eds, ustack, repr);
      ReadyPush(hist0, eds0, e, ring, rest);
      assert |hist| == |eds| + 1;
      AllReady(|eds0|, |eds|, rest);
    }

    // The ring without lines from..to, with their block on the stack.
    method DelLines(from: int, to: int, ghost e: Edit, ghost s: set<Line>)
      requires RingOK() && 1 <= from <= to <= lastln && Within(ring, s)
      requires e == Edit(UDEL, from, ring[from..to + 1])
      modifies this`curln, this`lastln, this`lp, this`on, this`ustack, this`ring, s`next, s`prev
      ensures RingOK() && ring == old(ring)[..from] + old(ring)[to + 1..] && curln == from - 1
      ensures ustack == old(ustack) + [UndoNode(UDEL, e.nodes[0], e.nodes[|e.nodes| - 1])]
      ensures Splice(ring, e, old(ring)) && Disjoint(e.nodes, ring)
      ensures Within(e.nodes, repr) && Detached(e, ring)
    {
      hide Ring;
      ghost var small := ring[..from] + ring[to + 1..];
      GetUptr(UDEL, from, to);
      var after, n := GetPtr(Nextln(to, lastln));
      var before, m := GetPtr(Prevln(from, lastln));
      assert ring == small[..from] + e.nodes + small[from..];
      Drop(before, after, to - from + 1, e, small, s);
      curln := Prevln(from, lastln);
    }

    method Del(from: int, to: int)
      requires Valid() && 1 <= from <= to <= lastln
      modifies this, repr`next, repr`prev
      ensures ring == old(ring)[..from] + old(ring)[to + 1..]
      ensures curln == from - 1
      ensures ustack == old(ustack) + [UndoNode(UDEL, old(ring)[from], old(ring)[to])]
      ensures TakenForOut(ustack[|ustack| - 1]) <==> !usw
      ensures ring != [] && from <= |ring| && Detached(Edit(UDEL, from, old(ring)[from..to + 1]), ring)
      ensures Valid() && Recording(old(usw), old(stale)) && repr == old(repr) && Base() == old(Base())
    {
      hide Valid; hide Ring; hide Closed; hide Recorded; hide Ready; hide Covered; hide Pushable; hide Detached; hide Splice; hide Disjoint; hide Nodes; hide StackIn; hide Within;
      BeforeEdit();
      ghost var e := Edit(UDEL, from, ring[from..to + 1]);
      ghost var s, big, ustack0 := Nodes(ring), ring, ustack;
      DelLines(from, to, e, s);
      stale := stale || usw;
      if stale {
        BlockIn(e);
        RecordIn(ustack0, ustack[|ustack| - 1], repr);
        AfterStale();
      } else {
        ghost var hist0, eds0 := hist, eds;
        hist, eds := hist + [ring], eds + [e];
        LogCut(hist0, eds0, ustack0, e, big, repr - s);
      }
    }

    // An edit is recorded whatever usw is: while it is set, on the wrong side.
    predicate Recording(usw0: bool, stale0: bool)
      reads this`usw, this`stale
    {
      usw == usw0 && stale == (stale0 || usw0)
    }

    lemma BlockIn(e: Edit)
      requires Within(e.nodes, repr) && e.nodes != []
      ensures e.nodes[0] in repr && e.nodes[|e.nodes| - 1] in repr
    {
    }

    // lpqueue: add a line node after the current line.
    method LpQueue(nd: Line, ghost s: set<Line>)
      requires RingOK() && 0 <= curln <= lastln && nd !in repr
      requires s <= repr && Within(ring, s)
      modifies this`curln, this`lastln, this`lp, this`on, this`ring, this`repr
      modifies nd`next, nd`prev, s`next, s`prev
      ensures RingOK() && repr == old(repr) + {nd}
      ensures 0 < curln == old(curln) + 1 && lastln == old(lastln) + 1 && on == old(curln)
      ensures ring == old(ring)[..curln] + [nd] + old(ring)[curln..]
    {
      hide Ring; hide Within;
      ghost var r, p := ring, curln + 1;
      var cp, n := GetPtr(curln);
      RingLinks(curln);
      Inserted(r, p, nd, s, repr);
      Insqueue(nd, cp, r, p);
      ring, repr := r[..p] + [nd] + r[p..], repr + {nd};
      lastln := lastln + 1;
      curln := curln + 1;
    }

    lemma Inserted(r: seq<Line>, p: nat, nd: Line, s: set<Line>, rp: set<Line>)
      requires 1 <= p <= |r| && Within(r, s) && s <= rp && nd !in rp
      ensures nd !in r && r[p - 1] in s && At(r, p) in s
      ensures var r' := r[..p] + [nd] + r[p..];
        nd in r' && r'[0] == r[0] && Within(r', rp + {nd}) && forall x :: x in r ==> x in r'
    {
      var r' := r[..p] + [nd] + r[p..];
      assert r'[p] == nd;
      forall i | 0 <= i < |r| ensures r[i] in r' {
        assert r[i] == r'[if i < p then i else i + 1];
      }
    }

    // The last record, when it has just grown up to the current line.
    ghost predicate Growing()
      reads this
    {
      && ustack != []
      && (!stale ==> eds != [] && var e := eds[|eds| - 1]; e.kind.UADD? && e.pos + |e.nodes| == curln + 1)
    }

    lemma SpliceOne(r: seq<Line>, p: nat, nd: Line, r': seq<Line>)
      requires 1 <= p <= |r| && r' == r[..p] + [nd] + r[p..]
      ensures Splice(r, Edit(UADD, p, [nd]), r')
    {
    }

    lemma SpliceMore(small: seq<Line>, e: Edit, r: seq<Line>, nd: Line, r': seq<Line>)
      requires Splice(small, e, r)
      requires var p := e.pos + |e.nodes|; r' == r[..p] + [nd] + r[p..]
      ensures Splice(small, Edit(UADD, e.pos, e.nodes + [nd]), r')
    {
      SpliceAt(small, e, r);
      var p := e.pos + |e.nodes|;
      assert r[..p] == small[..e.pos] + e.nodes;
      assert r[p..] == small[e.pos..];
    }

    // Recording a block that ends in the new node `nd`.
    lemma AddPushable(hist0: seq<seq<Line>>, eds0: seq<Edit>, ustack0: seq<UndoNode>, s0: set<Line>,
                      e: Edit, r: seq<Line>, nd: Line)
      requires RingOK() && Recorded(line0, hist0, eds0, ustack0, s0) && nd !in s0
      requires e.kind.UADD? && |hist0| == |eds0| + 1 && Splice(hist0[|eds0|], e, ring)
      requires forall i :: 0 <= i < |ring| ==> ring[i] in r || ring[i] == nd
      requires forall i :: 0 <= i < |e.nodes| - 1 ==> forall j :: 0 <= j < |hist0| ==> e.nodes[i] !in hist0[j]
      requires e.nodes[|e.nodes| - 1] == nd
      requires forall k :: 0 <= k < |eds0| && eds0[k].kind.UDEL? ==> Disjoint(eds0[k].nodes, r)
      ensures Pushable(line0, hist0, eds0, e, ring)
    {
      assert e.pos >= 1 && ring[0] == line0;
      forall j | 0 <= j < |hist0| ensures Disjoint(e.nodes, hist0[j]) {
        assert Within(hist0[j], s0);
      }
      forall k | 0 <= k < |eds0| && eds0[k].kind.UDEL? ensures Disjoint(eds0[k].nodes, ring) {
        BlocksWithin(line0, hist0, eds0, ustack0, s0, k);
      }
    }

    lemma AddNew(hist0: seq<seq<Line>>, eds0: seq<Edit>, ustack0: seq<UndoNode>, s0: set<Line>, r: seq<Line>, p: nat, nd: Line)
      requires RingOK() && Recorded(line0, hist0, eds0, ustack0, s0) && nd !in s0
      requires r == hist0[|eds0|] && 1 <= p <= |r| && ring == r[..p] + [nd] + r[p..]
      ensures Pushable(line0, hist0, eds0, Edit(UADD, p, [nd]), ring)
    {
      SpliceOne(r, p, nd, ring);
      forall k | 0 <= k < |eds0| && eds0[k].kind.UDEL? ensures Disjoint(eds0[k].nodes, r) {
        assert Out(eds0[k], k, |eds0|);
      }
      AddPushable(hist0, eds0, ustack0, s0, Edit(UADD, p, [nd]), r, nd);
    }

    lemma AddMore(hist1: seq<seq<Line>>, eds1: seq<Edit>, ustack1: seq<UndoNode>, s0: set<Line>, r: seq<Line>, nd: Line)
      requires RingOK() && Recorded(line0, hist1, eds1, ustack1, s0) && nd !in s0
      requires eds1 != [] && eds1[|eds1| - 1].kind.UADD? && r == hist1[|eds1|]
      requires var e := eds1[|eds1| - 1]; var p := e.pos + |e.nodes|;
               p <= |r| && ring == r[..p] + [nd] + r[p..]
      ensures var e := eds1[|eds1| - 1];
              Pushable(line0, hist1[..|eds1|], eds1[..|eds1| - 1], Edit(UADD, e.pos, e.nodes + [nd]), ring)
    {
      var m := |eds1| - 1;
      var e := eds1[m];
      var e', hist0, eds0 := Edit(UADD, e.pos, e.nodes + [nd]), hist1[..m + 1], eds1[..m];
      assert Step(hist1[m], e, hist1[m + 1]);
      SpliceMore(hist1[m], e, r, nd, ring);
      RecordedPop(line0, hist1, eds1, ustack1, s0);
      forall k | 0 <= k < m && eds0[k].kind.UDEL? ensures Disjoint(eds0[k].nodes, r) {
        assert Out(eds1[k], k, m + 1);
      }
      forall i, j | 0 <= i < |e.nodes| && 0 <= j < |hist0| ensures e'.nodes[i] !in hist0[j] {
        assert Out(eds1[m], m, j);
      }
      AddPushable(hist0, eds0, ustack1[..m], s0, e', r, nd);
    }

    // The buffer and its records once the last record has grown by `nd`.
    lemma LogMore(hist1: seq<seq<Line>>, eds1: seq<Edit>, ustack1: seq<UndoNode>, s0: set<Line>, r: seq<Line>,
                  nd: Line, rest: set<Line>)
      requires RingOK() && Recorded(line0, hist1, eds1, ustack1, s0) && Covered(hist1, s0) && nd !in s0
      requires eds1 != [] && eds1[|eds1| - 1].kind.UADD? && r == hist1[|eds1|]
      requires Ready(hist1, eds1, |eds1|, -1, rest)
      requires var e := eds1[|eds1| - 1]; var p := e.pos + |e.nodes|;
               p <= |r| && ring == r[..p] + [nd] + r[p..]
      requires repr == s0 + {nd} && rest <= repr && !usw && !stale
      requires var m := |eds1| - 1; var e := eds1[m];
        && hist == hist1[..m + 1] + [ring] && eds == eds1[..m] + [Edit(UADD, e.pos, e.nodes + [nd])]
        && ustack == ustack1[m := ustack1[m].(t := nd)]
      ensures Valid()
    {
      hide Ready; hide Covered; hide Ring; hide Pushable; hide Splice; hide Disjoint;
      var m := |eds1| - 1;
      var e, hist0, ustack0 := Edit(UADD, eds1[m].pos, eds1[m].nodes + [nd]), hist1[..m + 1], ustack1[..m];
      AddMore(hist1, eds1, ustack1, s0, r, nd);
      RecordedPop(line0, hist1, eds1, ustack1, s0);
      ReadyPop(hist1, eds1, rest);
      assert ustack == ustack0 + [UndoNode(UADD, e.nodes[0], nd)];
      GrownRing(r, eds1[m].pos + |eds1[m].nodes|, nd);
      CoveredNext(hist1, s0, m + 1, ring, repr);
      Log(hist0, eds1[..m], ustack0, e, s0, rest);
    }

    lemma GrownRing(r: seq<Line>, p: nat, nd: Line)
      requires p <= |r| && ring == r[..p] + [nd] + r[p..]
      ensures nd in ring && forall x :: x in r ==> x in ring
    {
      assert ring[p] == nd;
      forall i | 0 <= i < |r| ensures r[i] in ring {
        assert r[i] == ring[if i < p then i else i + 1];
      }
    }

    // The same once a record has been made for `nd`.
    lemma LogFirst(hist0: seq<seq<Line>>, eds0: seq<Edit>, ustack0: seq<UndoNode>, s0: set<Line>, r: seq<Line>, p: nat,
                   nd: Line, rest: set<Line>)
      requires RingOK() && Recorded(line0, hist0, eds0, ustack0, s0) && Covered(hist0, s0) && nd !in s0
      requires r == hist0[|eds0|] && 1 <= p <= |r| && ring == r[..p] + [nd] + r[p..]
      requires Ready(hist0, eds0, |eds0|, -1, rest)
      requires repr == s0 + {nd} && rest <= repr && !usw && !stale
      requires hist == hist0 + [ring] && eds == eds0 + [Edit(UADD, p, [nd])]
      requires ustack == ustack0 + [UndoNode(UADD, nd, nd)]
      ensures Valid()
    {
      hide Ready; hide Covered; hide Ring; hide Pushable; hide Splice; hide Disjoint; hide History;
      AddNew(hist0, eds0, ustack0, s0, r, p, nd);
      GrownRing(r, p, nd);
      CoveredNext(hist0, s0, |hist0|, ring, repr);
      assert hist0[..|hist0|] == hist0;
      Log(hist0, eds0, ustack0, Edit(UADD, p, [nd]), s0, rest);
    }

    // And once the block of `e` has left the ring `big`.
    lemma LogCut(hist0: seq<seq<Line>>, eds0: seq<Edit>, ustack0: seq<UndoNode>, e: Edit, big: seq<Line>, rest: set<Line>)
      requires RingOK() && Recorded(line0, hist0, eds0, ustack0, repr) && Covered(hist0, repr)
      requires |hist0| == |eds0| + 1 && big == hist0[|eds0|]
      requires e.kind == UDEL && Splice(ring, e, big) && Disjoint(e.nodes, ring)
      requires Within(e.nodes, repr) && Detached(e, ring)
      requires Ready(hist0, eds0, |eds0|, -1, rest) && rest <= repr && !usw && !stale
      requires hist == hist0 + [ring] && eds == eds0 + [e]
      requires ustack == ustack0 + [UndoNode(UDEL, e.nodes[0], e.nodes[|e.nodes| - 1])]
      ensures Valid()
    {
      hide Ready; hide Covered; hide Ring; hide Pushable; hide Splice; hide Disjoint; hide History;
      CutPushable(hist0, eds0, ustack0, e, big);
      CoveredNext(hist0, repr, |hist0|, ring, repr);
      assert hist0[..|hist0|] == hist0;
      Log(hist0, eds0, ustack0, e, repr, rest);
    }

    // The buffer with the new node `nd` in ring r, before it is recorded: the
    // nodes known before are s0, those of r are s.
    ghost predicate Queued(nd: Line, r: seq<Line>, s0: set<Line>, s: set<Line>)
      reads this, repr, s0 - s
    {
      && RingOK() && hist != [] && StackIn(ustack, s0) && s <= s0 && nd !in s0 && repr == s0 + {nd}
      && 1 <= curln <= |r| && ring == r[..curln] + [nd] + r[curln..]
      && (!usw && !stale ==>
            && |hist| == |eds| + 1 && |ustack| == |eds| && r == hist[|eds|]
            && Recorded(line0, hist, eds, ustack, s0) && Covered(hist, s0)
            && Ready(hist, eds, |eds|, -1, s0 - s))
    }

    // The new node is recorded by itself ...
    method StartRecord(nd: Line, ghost r: seq<Line>, ghost s0: set<Line>, ghost s: set<Line>)
      requires Queued(nd, r, s0, s)
      modifies this`lp, this`on, this`ustack, this`stale, this`hist, this`eds
      ensures ustack == old(ustack) + [UndoNode(UADD, nd, nd)]
      ensures stale == (old(stale) || usw)
      ensures Growing() && Valid() && Base() == old(Base())
    {
      hide Valid; hide Ring; hide Closed; hide Recorded; hide Ready; hide Covered; hide StackIn; hide Within;
      ghost var ustack0, hist0, eds0 := ustack, hist, eds;
      GetUptr(UADD, curln, curln);
      stale := stale || usw;
      if stale {
        RecordIn(ustack0, ustack[|ustack| - 1], s0);
        AfterStale();
      } else {
        hist, eds := hist + [ring], eds + [Edit(UADD, curln, [nd])];
        LogFirst(hist0, eds0, ustack0, s0, r, curln, nd, s0 - s);
      }
    }

    // ... or the record made last grows up to it.
    method GrowRecord(nd: Line, ghost r: seq<Line>, ghost s0: set<Line>, ghost s: set<Line>)
      requires Queued(nd, r, s0, s) && ustack != []
      requires !stale ==> eds != [] && var e := eds[|eds| - 1]; e.kind.UADD? && e.pos + |e.nodes| == curln
      modifies this`ustack, this`stale, this`hist, this`eds
      ensures stale == (old(stale) || usw)
      ensures Growing() && Valid() && Base() == old(Base())
    {
      hide Valid; hide Ring; hide Closed; hide Recorded; hide Ready; hide Covered; hide StackIn; hide Within;
      ghost var ustack1, hist1, eds1, m := ustack, hist, eds, |eds| - 1;
      ustack := ustack[|ustack| - 1 := ustack[|ustack| - 1].(t := nd)];
      stale := stale || usw;
      if stale {
        RecordIn(ustack1, UndoNode(UADD, nd, nd), s0);
        AfterStale();
      } else {
        hist, eds := hist[..m + 1] + [ring], eds[..m] + [Edit(UADD, eds[m].pos, eds[m].nodes + [nd])];
        LogMore(hist1, eds1, ustack1, s0, r, nd, s0 - s);
      }
    }

    // The editing idiom of append, join, transfer, subst and doread: queue a new
    // line node after the current line, and either start a record for it ...
    method AddFirst(nd: Line)
      requires Valid() && 0 <= curln <= lastln && nd !in repr
      modifies this, repr`next, repr`prev, nd`next, nd`prev
      ensures 0 < curln == old(curln) + 1 && lastln == old(lastln) + 1
      ensures ring == old(ring)[..curln] + [nd] + old(ring)[curln..]
      ensures Recording(old(usw), old(stale)) && repr == old(repr) + {nd}
      ensures Growing() && Valid() && Base() == old(Base())
      ensures ustack == old(ustack) + [UndoNode(UADD, nd, nd)]
      ensures TakenForOut(ustack[|ustack| - 1]) <==> usw
    {
      hide Valid; hide Ring; hide Closed; hide Recorded; hide Ready; hide Covered; hide Nodes; hide StackIn; hide Within;
      ghost var s, s0, r := Nodes(ring), repr, ring;
      BeforeEdit();
      LpQueue(nd, s);
      StartRecord(nd, r, s0, s);
    }

    // ... or let the record made last grow up to it (up->t = lp).
    method AddNext(nd: Line)
      requires Valid() && 0 <= curln <= lastln && nd !in repr && Growing()
      modifies this, repr`next, repr`prev, nd`next, nd`prev
      ensures 0 < curln == old(curln) + 1 && lastln == old(lastln) + 1
      ensures ring == old(ring)[..curln] + [nd] + old(ring)[curln..]
      ensures Recording(old(usw), old(stale)) && repr == old(repr) + {nd}
      ensures Growing() && Valid() && Base() == old(Base())
    {
      hide Valid; hide Ring; hide Closed; hide Recorded; hide Ready; hide Covered; hide Nodes; hide StackIn; hide Within;
      ghost var s, s0, r := Nodes(ring), repr, ring;
      BeforeEdit();
      LpQueue(nd, s);
      GrowRecord(nd, r, s0, s);
    }

    method AddLine(nd: Line, up: bool)
      requires Valid() && 0 <= curln <= lastln && nd !in repr
      requires up ==> Growing()
      modifies this, repr`next, repr`prev, nd`next, nd`prev
      ensures 0 < curln == old(curln) + 1 && lastln == old(lastln) + 1
      ensures ring == old(ring)[..curln] + [nd] + old(ring)[curln..]
      ensures Recording(old(usw), old(stale)) && repr == old(repr) + {nd}
      ensures Growing() && Valid() && Base() == old(Base())
    {
      if up {
        AddNext(nd);
      } else {
        AddFirst(nd);
      }
    }
  }
}
