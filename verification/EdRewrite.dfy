// The commands of ed that replace lines by other text: join and substitute.
module EdRewrite {
  import opened EdRing
  import opened EdBuffer
  import opened EdText
  import opened EdCommands

  // ---------------------------------------------------------------- join

  lemma {:induction false} CatPrefix(ts: seq<string>, k: nat)
    requires k <= |ts|
    ensures |Cat(ts[..k])| <= |Cat(ts)|
    decreases |ts|
  {
    if k == |ts| {
      assert ts[..k] == ts;
    } else {
      CatPrefix(ts[..|ts| - 1], k);
      assert ts[..|ts| - 1][..k] == ts[..k];
    }
  }

  lemma WalkStep(ed: Editor, k: int, to: int)
    requires ed.Valid() && 0 <= k <= to + 1 <= ed.lastln + 1
    requires At(ed.ring, k) != At(ed.ring, to + 1)
    ensures |ed.ring| == ed.lastln + 1 == |Texts(ed.ring)| && k <= to
    ensures At(ed.ring, k) == ed.ring[k] && ed.ring[k].next == At(ed.ring, k + 1)
    ensures ed.ring[k].text == Texts(ed.ring)[k]
  {
    ed.RingLinks(k);
  }

  lemma CatNext(t: seq<string>, from: nat, k: nat, to: nat)
    requires from <= k <= to < |t|
    ensures Cat(t[from..k + 1]) == Cat(t[from..k]) + t[k]
    ensures |Cat(t[from..k + 1])| <= |Cat(t[from..to + 1])|
  {
    assert t[from..k + 1][..k - from] == t[from..k];
    CatPrefix(t[from..to + 1], k + 1 - from);
    assert t[from..to + 1][..k + 1 - from] == t[from..k + 1];
  }

  // The text of lines from..to, read node by node; fails when it grows too long.
  method Gather(ed: Editor, from: int, to: int) returns (ok: bool, buf: string)
    requires ed.Valid() && 1 <= from <= to <= ed.lastln
    modifies ed`lp, ed`on
    ensures ed.Valid()
    ensures ok <==> |Cat(Texts(ed.ring)[from..to + 1])| < MAXLINE - 1
    ensures ok ==> buf == Cat(Texts(ed.ring)[from..to + 1])
  {
    hide Recorded; hide Ready; hide Covered; hide Ring; hide Closed; hide StackIn; hide Cat; hide Texts; hide At;
    ghost var t := Texts(ed.ring);
    var ep := GetLine(ed, Editor.Nextln(to, ed.lastln));
    var bp := GetLine(ed, from);
    WalkStart(ed, from, to);
    buf := "";
    ghost var k := from;
    while bp != ep
      invariant from <= k <= to + 1 <= |ed.ring| && bp == At(ed.ring, k) && ep == At(ed.ring, to + 1)
      invariant buf == Cat(t[from..k]) && |buf| < MAXLINE - 1
      invariant ed.Valid() && t == Texts(ed.ring)
      decreases 1 + to - k
    {
      WalkStep(ed, k, to);
      CatNext(t, from, k, to);
      if |buf| + |bp.text| >= MAXLINE - 1 {
        return false, buf;
      }
      buf, bp, k := buf + bp.text, bp.next, k + 1;
    }
    WalkEnd(ed, k, to);
    ok := true;
  }

  lemma WalkStart(ed: Editor, from: int, to: int)
    requires ed.Valid() && 1 <= from <= to <= ed.lastln
    ensures |ed.ring| == ed.lastln + 1 == |Texts(ed.ring)|
    ensures ed.ring[from] == At(ed.ring, from)
    ensures At(ed.ring, to + 1) == ed.ring[Editor.Clamp(Editor.Nextln(to, ed.lastln), ed.lastln)]
    ensures Cat(Texts(ed.ring)[from..from]) == ""
  {
  }

  lemma WalkEnd(ed: Editor, k: int, to: int)
    requires ed.Valid() && 1 <= k <= to + 1 <= ed.lastln + 1
    requires |ed.ring| == ed.lastln + 1 && At(ed.ring, k) == At(ed.ring, to + 1)
    ensures k == to + 1
  {
  }

  // What a join makes of the lines.
  lemma JoinText(t: seq<Cell>, from: int, to: int, cur: int)
    requires 1 <= from < to < |t| && |Cat(Strings(t)[from..to + 1])| < MAXLINE - 1
    ensures Strings(Joined(t, from, to, cur).t) ==
      Strings(t)[..from] + [Cat(Strings(t)[from..to + 1])] + Strings(t)[to + 1..]
  {
    hide Cat;
  }

  // join: all lines of the range make one
  method Join(ed: Editor, from: int, to: int) returns (ok: bool)
    requires ed.Valid() && 1 <= from <= to <= ed.lastln
    modifies ed, ed.repr`next, ed.repr`prev
    ensures Keeps(ed)
    ensures ok <==> from == to || |Cat(Texts(old(ed.ring))[from..to + 1])| < MAXLINE - 1
    ensures !ok || from == to ==> ed.ring == old(ed.ring) && ed.curln == old(ed.curln)
    ensures ok && from < to ==>
      && ed.curln == from
      && Texts(ed.ring) ==
           Texts(old(ed.ring))[..from] + [Cat(Texts(old(ed.ring))[from..to + 1])] + Texts(old(ed.ring))[to + 1..]
    ensures |old(ed.ring)| == old(ed.lastln) + 1
    ensures var e := Joined(old(Cells(ed.ring)), from, to, old(ed.curln));
      ok == e.ok && Cells(ed.ring) == e.t && ed.curln == e.cur && Edited(ed, e.did)
  {
    hide Recorded; hide Ready; hide Covered; hide Ring; hide Closed; hide StackIn; hide Texts; hide Cat; hide Cells;
    hide Cut; hide Put;
    RingLength(ed);
    CellsText(ed.ring);
    if from == to {
      return true;
    }
    var buf;
    ok, buf := Gather(ed, from, to);
    if !ok {
      return;
    }
    JoinText(Cells(ed.ring), from, to, ed.curln);
    OneLine(ed, from, to, buf);
    CellsText(ed.ring);
  }

  // Lines from..to give way to one.
  method OneLine(ed: Editor, from: int, to: int, buf: string)
    requires ed.Valid() && 1 <= from <= to <= ed.lastln
    modifies ed, ed.repr`next, ed.repr`prev
    ensures Keeps(ed) && Edited(ed, true) && ed.curln == from && |old(ed.ring)| == old(ed.lastln) + 1
    ensures Cells(ed.ring) == Put(Cut(old(Cells(ed.ring)), from, to), from - 1, [buf])
  {
    hide Recorded; hide Ready; hide Covered; hide Ring; hide Closed; hide StackIn; hide Texts; hide Cells; hide Cut; hide Put;
    Delete(ed, from, to);
    ghost var news := Append(ed, from - 1, [buf]);
  }

  // ---------------------------------------------------------- substitute

  lemma FlatNext(f: string -> Rewrite, t: seq<Cell>, line1: nat, k: nat)
    requires line1 + k < |t|
    ensures var c := t[line1 + k];
            Flat(f, t[line1..line1 + k + 1]) == Flat(f, t[line1..line1 + k]) + Lines(f(c.text), c)
  {
    hide Lines;
    var s := t[line1..line1 + k + 1];
    assert s[..k] == t[line1..line1 + k] && s[k] == t[line1 + k];
  }

  lemma SpliceText(a: seq<Cell>, m: seq<Cell>, b: seq<Cell>, l: seq<Cell>)
    requires b != []
    ensures var u, p := a + m + b, |a| + |m|;
            u[p] == b[0] && a + (m + l) + b[1..] == u[..p] + l + u[p + 1..]
  {
    var u, p := a + m + b, |a| + |m|;
    assert u[..p] == a + m && u[p..] == b;
  }

  lemma RewriteNext(f: string -> Rewrite, t: seq<Cell>, line1: nat, k: nat)
    requires line1 + k < |t|
    ensures var p, u, c := Pos(f, t, line1, k), Rewritten(f, t, line1, k), t[line1 + k];
            && line1 <= p < |u| && u[p] == c
            && Rewritten(f, t, line1, k + 1) == u[..p] + Lines(f(c.text), c) + u[p + 1..]
            && Pos(f, t, line1, k + 1) == p + |Lines(f(c.text), c)|
  {
    hide Flat;
    FlatNext(f, t, line1, k);
    var c, b := t[line1 + k], t[line1 + k..];
    assert b[1..] == t[line1 + k + 1..];
    SpliceText(t[..line1], Flat(f, t[line1..line1 + k]), b, Lines(f(c.text), c));
  }

  lemma RewriteNone(f: string -> Rewrite, t: seq<Cell>, line1: nat)
    requires line1 <= |t|
    ensures Rewritten(f, t, line1, 0) == t && Pos(f, t, line1, 0) == line1
  {
  }

  // Replacing line `n` by the lines `ls`.
  method Replace(ed: Editor, n: int, ls: seq<string>)
    requires ed.Valid() && 1 <= n <= ed.lastln
    modifies ed, ed.repr`next, ed.repr`prev
    ensures Keeps(ed) && ed.curln == n - 1 + |ls| && ed.lastln == old(ed.lastln) - 1 + |ls|
    ensures Edited(ed, true) && |old(ed.ring)| == old(ed.lastln) + 1
    ensures Cells(ed.ring) == old(Cells(ed.ring))[..n] + Plain(ls) + old(Cells(ed.ring))[n + 1..]
  {
    hide Recorded; hide Ready; hide Covered; hide Ring; hide Closed; hide StackIn; hide Texts; hide Cells;
    Delete(ed, n, n);
    ghost var news := Append(ed, ed.curln, ls);
  }

  lemma KeepLine(t: seq<Cell>, n: nat)
    requires n < |t|
    ensures t == t[..n] + [t[n]] + t[n + 1..]
  {
  }

  // The text of the next line, which becomes the current one.
  method NextText(ed: Editor) returns (s: string)
    requires ed.Valid() && 0 <= ed.curln < ed.lastln
    modifies ed`curln, ed`lp, ed`on
    ensures ed.Valid() && |ed.ring| == ed.lastln + 1 && ed.curln == old(ed.curln) + 1
    ensures s == Cells(ed.ring)[ed.curln].text
  {
    hide Recorded; hide Ready; hide Covered; hide Ring; hide Closed; hide StackIn; hide Cells; hide Editor.Coherent;
    RingLength(ed);
    GoTo(ed, Editor.Nextln(ed.curln, ed.lastln));
    var nd := GetLine(ed, ed.curln);
    s := nd.text;
  }

  // One round of subst: the next line, and whether it was rewritten.
  method SubstLine(ed: Editor, f: string -> Rewrite) returns (ok: bool, changed: bool)
    requires ed.Valid() && 0 <= ed.curln < ed.lastln
    modifies ed, ed.repr`next, ed.repr`prev
    ensures Keeps(ed) && Edited(ed, changed) && |old(ed.ring)| == old(ed.lastln) + 1
    ensures var n, t := old(ed.curln) + 1, old(Cells(ed.ring));
            && ok == !f(t[n].text).Fail? && changed == f(t[n].text).New?
            && (ok ==> ed.curln == n - 1 + |Lines(f(t[n].text), t[n])|)
            && (ok ==> Cells(ed.ring) == t[..n] + Lines(f(t[n].text), t[n]) + t[n + 1..])
            && (!ok ==> ed.curln == n)
    ensures !ok || !changed ==> ed.ring == old(ed.ring)
  {
    hide Recorded; hide Ready; hide Covered; hide Ring; hide Closed; hide StackIn; hide Texts; hide Within; hide Cells;
    hide Editor.Coherent; hide Plain;
    var s := NextText(ed);
    match f(s) {
      case Fail =>
        ok, changed := false, false;
      case Same =>
        KeepLine(Cells(ed.ring), ed.curln);
        ok, changed := true, false;
      case New(first, rest) =>
        Replace(ed, ed.curln, [first] + rest);
        ok, changed := true, true;
    }
  }

  // The lines before the first one that does not fit are counted.
  lemma {:induction false} FittingIs(f: string -> Rewrite, t: seq<Cell>, k: nat)
    requires k <= |t| && forall i :: 0 <= i < k ==> !f(t[i].text).Fail?
    requires k < |t| ==> f(t[k].text).Fail?
    ensures Fitting(f, t) == k
    decreases k
  {
    if k > 0 {
      FittingIs(f, t[1..], k - 1);
    }
  }

  // What is known when k lines from line1 on have been dealt with.
  ghost predicate Passed(f: string -> Rewrite, t: seq<Cell>, line1: nat, k: nat, changed: bool)
    requires line1 + k <= |t|
  {
    && (forall i :: line1 <= i < line1 + k ==> !f(t[i].text).Fail?)
    && changed == Changes(f, t[line1..line1 + k])
  }

  lemma PassedNone(f: string -> Rewrite, t: seq<Cell>, line1: nat)
    requires line1 <= |t|
    ensures Passed(f, t, line1, 0, false)
  {
  }

  lemma PassedNext(f: string -> Rewrite, t: seq<Cell>, line1: nat, k: nat, changed: bool, changed': bool)
    requires line1 + k < |t| && Passed(f, t, line1, k, changed) && !f(t[line1 + k].text).Fail?
    requires changed' == (changed || f(t[line1 + k].text).New?)
    ensures Passed(f, t, line1, k + 1, changed')
  {
    var s, s' := t[line1..line1 + k], t[line1..line1 + k + 1];
    assert s' == s + [t[line1 + k]];
    if changed {
      var i :| 0 <= i < |s| && f(s[i].text).New?;
      assert f(s'[i].text).New?;
    }
    assert s'[k] == t[line1 + k];
  }

  lemma PassedAll(f: string -> Rewrite, t: seq<Cell>, line1: nat, line2: nat, k: nat, changed: bool)
    requires 1 <= line1 <= line2 < |t| && line1 + k <= line2 + 1 && Passed(f, t, line1, k, changed)
    requires line1 + k <= line2 ==> f(t[line1 + k].text).Fail?
    ensures Substituted(f, t, line1, line2) == Effect(line1 + k == line2 + 1, Rewritten(f, t, line1, k),
      Pos(f, t, line1, k) - (if line1 + k == line2 + 1 then 1 else 0), changed)
  {
    hide Rewritten; hide Pos;
    var s := t[line1..line2 + 1];
    forall i | 0 <= i < k ensures !f(s[i].text).Fail? {
      assert s[i] == t[line1 + i];
    }
    FittingIs(f, s, k);
  }

  // The buffer when k lines from line1 on have been dealt with.
  ghost predicate Reached(f: string -> Rewrite, t: seq<Cell>, line1: nat, k: nat, u: seq<Cell>, cur: int, changed: bool) {
    && line1 + k <= |t| && u == Rewritten(f, t, line1, k) && cur == Pos(f, t, line1, k) - 1
    && Passed(f, t, line1, k, changed)
  }

  lemma ReachedNone(f: string -> Rewrite, t: seq<Cell>, line1: nat)
    requires line1 <= |t|
    ensures Reached(f, t, line1, 0, t, line1 - 1, false)
  {
    RewriteNone(f, t, line1);
    PassedNone(f, t, line1);
  }

  method SubstNext(ed: Editor, f: string -> Rewrite, ghost t: seq<Cell>, ghost line1: nat, ghost k: nat, ghost changed0: bool)
    returns (ok: bool, changed: bool)
    requires ed.Valid() && 1 <= line1 && line1 + k < |t|
    requires Reached(f, t, line1, k, Cells(ed.ring), ed.curln, changed0)
    modifies ed, ed.repr`next, ed.repr`prev
    ensures Keeps(ed) && Edited(ed, changed)
    ensures ok ==> Reached(f, t, line1, k + 1, Cells(ed.ring), ed.curln, changed0 || changed)
    ensures !ok ==> f(t[line1 + k].text).Fail? && Reached(f, t, line1, k, Cells(ed.ring), ed.curln - 1, changed0)
    ensures !ok || !changed ==> ed.ring == old(ed.ring)
    ensures !ok ==> !changed
  {
    hide Recorded; hide Ready; hide Covered; hide Ring; hide Closed; hide StackIn; hide Texts; hide Rewritten; hide Pos; hide Flat; hide Lines; hide Cells;
    hide Passed; hide Editor.Coherent; hide Keeps;
    RewriteNext(f, t, line1, k);
    RingLength(ed);
    ok, changed := SubstLine(ed, f);
    if ok {
      PassedNext(f, t, line1, k, changed0, changed0 || changed);
    }
  }

  // subst: rewrite all lines of a range; `done` lines were dealt with before
  // an error, `nsubs` of them changed.
  method Subst(ed: Editor, line1: int, line2: int, f: string -> Rewrite) returns (done: nat, nsubs: nat)
    requires ed.Valid() && 1 <= line1 <= line2 <= ed.lastln
    modifies ed, ed.repr`next, ed.repr`prev
    ensures Keeps(ed) && done <= line2 - line1 + 1 && |old(ed.ring)| == old(ed.lastln) + 1
    ensures Cells(ed.ring) == Rewritten(f, old(Cells(ed.ring)), line1, done)
    ensures done <= line2 - line1 ==> f(old(Cells(ed.ring))[line1 + done].text).Fail?
    ensures done == line2 - line1 + 1 ==> ed.curln == Pos(f, old(Cells(ed.ring)), line1, done) - 1
    ensures nsubs == 0 ==> ed.ring == old(ed.ring)
    ensures var e := Substituted(f, old(Cells(ed.ring)), line1, line2);
      (done == line2 - line1 + 1 <==> e.ok) && Cells(ed.ring) == e.t && ed.curln == e.cur && Edited(ed, e.did)
  {
    hide Recorded; hide Ready; hide Covered; hide Ring; hide Closed; hide StackIn; hide Texts; hide Rewritten; hide Pos; hide Flat; hide Cells;
    hide Passed; hide Substituted; hide Editor.Coherent; hide Keeps;
    done, nsubs := SubstLines(ed, line1, line2, f);
    PassedAll(f, old(Cells(ed.ring)), line1, line2, done, nsubs > 0);
  }

  method SubstLines(ed: Editor, line1: int, line2: int, f: string -> Rewrite) returns (done: nat, nsubs: nat)
    requires ed.Valid() && 1 <= line1 <= line2 <= ed.lastln
    modifies ed, ed.repr`next, ed.repr`prev
    ensures Keeps(ed) && done <= line2 - line1 + 1 && |old(ed.ring)| == old(ed.lastln) + 1
    ensures Reached(f, old(Cells(ed.ring)), line1, done, Cells(ed.ring),
      if done == line2 - line1 + 1 then ed.curln else ed.curln - 1, nsubs > 0)
    ensures done <= line2 - line1 ==> f(old(Cells(ed.ring))[line1 + done].text).Fail?
    ensures nsubs == 0 ==> ed.ring == old(ed.ring)
    ensures Edited(ed, nsubs > 0)
  {
    hide Recorded; hide Ready; hide Covered; hide Ring; hide Closed; hide StackIn; hide Texts; hide Cells; hide Reached;
    hide Editor.Coherent;
    ghost var t := Cells(ed.ring);
    RingLength(ed);
    ReachedNone(f, t, line1);
    done, nsubs := 0, 0;
    GoTo(ed, Editor.Prevln(line1, ed.lastln));
    while done <= line2 - line1
      invariant 0 <= done <= line2 - line1 + 1 && line2 < |t| && Keeps(ed) && Edited(ed, nsubs > 0)
      invariant Reached(f, t, line1, done, Cells(ed.ring), ed.curln, nsubs > 0)
      invariant nsubs == 0 ==> ed.ring == old(ed.ring)
    {
      var ok, changed := SubstNext(ed, f, t, line1, done, nsubs > 0);
      if !ok {
        return;
      }
      done, nsubs := done + 1, nsubs + if changed then 1 else 0;
    }
  }
}
