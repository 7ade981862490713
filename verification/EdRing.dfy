// The circular, doubly linked line list of ed and the "dancing links" steps
// that its undo stack replays.
module EdRing {

  // A line node.  The text is what the node's scratch-file address denotes;
  // it never changes after the node is made.  `actv` is the high bit of the
  // length field, used by the global command.
  class Line {
    var next: Line
    var prev: Line
    var actv: bool
    const text: string

    constructor (text: string)
      ensures this.text == text && !actv
    {
      next, prev := this, this;
      actv := false;
      this.text := text;
    }
  }

  ghost predicate NoDup(r: seq<Line>) {
    forall i, j :: 0 <= i < j < |r| ==> r[i] != r[j]
  }

  ghost function Nodes(r: seq<Line>): set<Line> {
    set x | x in r
  }

  ghost predicate Disjoint(s: seq<Line>, r: seq<Line>) {
    forall i, j :: 0 <= i < |s| && 0 <= j < |r| ==> s[i] != r[j]
  }

  // The nodes of `s` are chained to one another, in order, in both directions.
  ghost predicate Chain(s: seq<Line>)
    reads s
  {
    forall i, j :: 0 <= i && j == i + 1 < |s| ==> s[i].next == s[j] && s[j].prev == s[i]
  }

  // `r` is a closed ring: a chain whose ends are linked to each other.
  ghost predicate Ring(r: seq<Line>)
    reads r
  {
    r != [] && NoDup(r) && Chain(r) && r[|r| - 1].next == r[0] && r[0].prev == r[|r| - 1]
  }

  // The node that follows position `p` of a ring, cyclically.
  ghost function At(r: seq<Line>, p: nat): Line
    requires r != [] && p <= |r|
  {
    if p < |r| then r[p] else r[0]
  }

  // A block of lines that one ring has, at position `pos`, and another lacks.
  datatype Kind = UADD | UDEL
  datatype Edit = Edit(kind: Kind, pos: nat, nodes: seq<Line>)

  ghost predicate Splice(small: seq<Line>, e: Edit, big: seq<Line>) {
    && 1 <= e.pos <= |small|
    && e.nodes != []
    && big == small[..e.pos] + e.nodes + small[e.pos..]
  }

  // The removed block keeps its inner chain and still points at the two nodes
  // between which it has to be put back.
  ghost predicate Detached(e: Edit, small: seq<Line>)
    requires small != [] && e.nodes != [] && 1 <= e.pos <= |small|
    reads e.nodes
  {
    && NoDup(e.nodes)
    && Chain(e.nodes)
    && e.nodes[0].prev == small[e.pos - 1]
    && e.nodes[|e.nodes| - 1].next == At(small, e.pos)
  }

  // requeue
  method Requeue(pred: Line, succ: Line)
    modifies pred`next, succ`prev
    ensures pred.next == succ && succ.prev == pred
  {
    pred.next := succ;
    succ.prev := pred;
  }

  // Where the pieces of a spliced ring come from.
  lemma SpliceAt(small: seq<Line>, e: Edit, big: seq<Line>)
    requires Splice(small, e, big)
    ensures |big| == |small| + |e.nodes|
    ensures big[..e.pos] == small[..e.pos]
    ensures big[e.pos..e.pos + |e.nodes|] == e.nodes
    ensures big[e.pos + |e.nodes|..] == small[e.pos..]
  {
  }

  lemma SpliceNoDup(small: seq<Line>, e: Edit, big: seq<Line>)
    requires Splice(small, e, big) && NoDup(big)
    ensures NoDup(small) && NoDup(e.nodes) && Disjoint(e.nodes, small)
  {
    SpliceAt(small, e, big);
    var p, n := e.pos, |e.nodes|;
    forall i, j | 0 <= i < j < |small| ensures small[i] != small[j] {
      assert small[i] == if i < p then big[i] else big[i + n];
      assert small[j] == if j < p then big[j] else big[j + n];
    }
    forall i, j | 0 <= i < j < n ensures e.nodes[i] != e.nodes[j] {
      assert e.nodes[i] == big[p + i] && e.nodes[j] == big[p + j];
    }
    forall i, j | 0 <= i < n && 0 <= j < |small| ensures e.nodes[i] != small[j] {
      assert e.nodes[i] == big[p + i];
      assert small[j] == if j < p then big[j] else big[j + n];
    }
  }

  lemma SpliceEnds(small: seq<Line>, e: Edit, big: seq<Line>)
    requires Splice(small, e, big)
    ensures 1 <= e.pos <= |small| && e.nodes != [] && |big| == |small| + |e.nodes|
    ensures big[e.pos - 1] == small[e.pos - 1] && big[0] == small[0]
    ensures forall i :: 0 <= i < |e.nodes| ==> e.nodes[i] == big[e.pos + i]
    ensures At(small, e.pos) == At(big, e.pos + |e.nodes|)
  {
    SpliceAt(small, e, big);
  }

  lemma SpliceDetached(small: seq<Line>, e: Edit, big: seq<Line>)
    requires Splice(small, e, big) && Ring(big)
    ensures Detached(e, small)
  {
    hide Splice;
    SpliceNoDup(small, e, big);
    SpliceEnds(small, e, big);
    var p, n := e.pos, |e.nodes|;
    assert big[p - 1].next == big[p];
    if p < |small| {
      assert big[p + n - 1].next == big[p + n];
    }
  }

  lemma SpliceChains(small: seq<Line>, e: Edit, big: seq<Line>)
    requires Splice(small, e, big) && Ring(big)
    ensures Chain(small[..e.pos]) && Chain(small[e.pos..])
    ensures e.pos < |small| ==>
      small[|small| - 1].next == small[0] && small[0].prev == small[|small| - 1]
  {
    SpliceAt(small, e, big);
    var p, n := e.pos, |e.nodes|;
    forall i, j | 0 <= i && j == i + 1 < p
      ensures small[i].next == small[j] && small[j].prev == small[i]
    {
      assert small[i] == big[i] && small[j] == big[j];
    }
    forall i, j | 0 <= i && j == i + 1 < |small| - p
      ensures small[p..][i].next == small[p..][j] && small[p..][j].prev == small[p..][i]
    {
      assert small[p..][i] == big[p + n..][i] == big[p + n + i];
      assert small[p..][j] == big[p + n..][j] == big[p + n + j];
    }
    assert small[0] == big[0];
    if p < |small| {
      assert small[|small| - 1] == big[p + n..][|small| - p - 1] == big[|big| - 1];
    }
  }

  // Two chains with their ends joined both ways are a ring.
  lemma JoinChains(small: seq<Line>, p: nat)
    requires 1 <= p <= |small| && NoDup(small)
    requires Chain(small[..p]) && Chain(small[p..])
    requires small[p - 1].next == At(small, p) && At(small, p).prev == small[p - 1]
    requires p < |small| ==> small[|small| - 1].next == small[0] && small[0].prev == small[|small| - 1]
    ensures Ring(small)
  {
    forall i, j | 0 <= i && j == i + 1 < |small|
      ensures small[i].next == small[j] && small[j].prev == small[i]
    {
      if j < p {
        assert small[i] == small[..p][i] && small[j] == small[..p][j];
      } else if i >= p {
        assert small[i] == small[p..][i - p] && small[j] == small[p..][j - p];
      }
    }
  }

  // Taking the block of `e` out of its ring: `pred` and `succ` are its neighbours.
  method Unlink(pred: Line, succ: Line, ghost small: seq<Line>, ghost e: Edit, ghost big: seq<Line>)
    requires Ring(big) && Splice(small, e, big)
    requires pred == small[e.pos - 1] && succ == At(small, e.pos)
    modifies pred`next, succ`prev
    ensures Ring(small) && Detached(e, small)
    ensures pred.next == succ && succ.prev == pred
  {
    SpliceDetached(small, e, big);
    SpliceChains(small, e, big);
    SpliceNoDup(small, e, big);
    assert small[..e.pos][e.pos - 1] == pred;
    Requeue(pred, succ);
    JoinChains(small, e.pos);
  }

  lemma SpliceDistinct(small: seq<Line>, e: Edit, big: seq<Line>)
    requires Splice(small, e, big) && NoDup(small) && NoDup(e.nodes) && Disjoint(e.nodes, small)
    ensures NoDup(big)
  {
    forall i, j | 0 <= i < j < |big| ensures big[i] != big[j] {
    }
  }

  // A block whose ends are joined to the two neighbours in a broken ring.
  lemma BlockJoined(small: seq<Line>, e: Edit, big: seq<Line>)
    requires Splice(small, e, big) && NoDup(big) && Chain(e.nodes)
    requires forall i, j :: 0 <= i && j == i + 1 < |small| && j != e.pos ==> small[i].next == small[j] && small[j].prev == small[i]
    requires e.pos < |small| ==> small[|small| - 1].next == small[0] && small[0].prev == small[|small| - 1]
    requires var h, t := e.nodes[0], e.nodes[|e.nodes| - 1];
      && small[e.pos - 1].next == h && h.prev == small[e.pos - 1]
      && t.next == At(small, e.pos) && At(small, e.pos).prev == t
    ensures Ring(big)
  {
    hide NoDup;
    var p, n := e.pos, |e.nodes|;
    forall i, j | 0 <= i && j == i + 1 < |big| ensures big[i].next == big[j] && big[j].prev == big[i] {
      if j < p {
        assert big[i] == small[i] && big[j] == small[j];
      } else if p <= i && j < p + n {
        assert big[i] == e.nodes[i - p] && big[j] == e.nodes[j - p];
      } else if p + n <= i {
        assert big[i] == small[i - n] && big[j] == small[j - n];
      }
    }
  }

  // Putting the block h..t back between the two nodes it still points at.
  method Relink(h: Line, t: Line, ghost small: seq<Line>, ghost e: Edit, ghost big: seq<Line>)
    requires Ring(small) && Splice(small, e, big) && Detached(e, small)
    requires Disjoint(e.nodes, small)
    requires h == e.nodes[0] && t == e.nodes[|e.nodes| - 1]
    modifies h.prev`next, h`prev, t`next, t.next`prev
    ensures Ring(big)
    ensures h.prev == old(h.prev) && old(h.prev).next == h && t.next == old(t.next) && old(t.next).prev == t
  {
    SpliceDistinct(small, e, big);
    hide Splice;
    Requeue(h.prev, h);
    Requeue(t, t.next);
    BlockJoined(small, e, big);
  }

  // insqueue: insert elem in a ring after its node `pred`, the one before
  // position `p`.
  method Insqueue(elem: Line, pred: Line, ghost r: seq<Line>, ghost p: nat)
    requires Ring(r) && elem !in r && 1 <= p <= |r| && pred == r[p - 1]
    modifies elem`next, elem`prev, pred`next, pred.next`prev
    ensures Ring(r[..p] + [elem] + r[p..])
    ensures old(pred.next) == At(r, p)
    ensures elem.prev == pred && elem.next == old(pred.next) && pred.next == elem && old(pred.next).prev == elem
  {
    assert p < |r| ==> r[p - 1].next == r[p];
    Requeue(elem, pred.next);
    Requeue(pred, elem);
  }
}
