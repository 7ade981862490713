// The commands of ed that change the buffer, each built from line insertions
// and del, and what they do to the text.
module EdCommands {
  import opened EdRing
  import opened EdBuffer
  import opened EdText

  // How a command ends: it succeeds, it fails, or it follows links round and
  // round that never come to the node it is looking for.
  datatype Outcome = Done | Failed | Endless

  // ---------------------------------------------------------------- text

  // The lines of a ring, with that of the head node at index 0.
  ghost function Texts(r: seq<Line>): (t: seq<string>)
    ensures |t| == |r| && forall i :: 0 <= i < |r| ==> t[i] == r[i].text
  {
    seq(|r|, i requires 0 <= i < |r| => r[i].text)
  }

  lemma TextsAppend(a: seq<Line>, b: seq<Line>)
    ensures Texts(a + b) == Texts(a) + Texts(b)
  {
  }

  // The text of a ring whose node block was inserted or removed.
  lemma TextsInsert(r: seq<Line>, p: nat, s: seq<Line>)
    requires p <= |r|
    ensures Texts(r[..p] + s + r[p..]) == Texts(r)[..p] + Texts(s) + Texts(r)[p..]
  {
  }

  lemma TextsRemove(r: seq<Line>, i: nat, j: nat)
    requires i <= j <= |r|
    ensures Texts(r[..i] + r[j..]) == Texts(r)[..i] + Texts(r)[j..]
  {
  }

  // The text of a ring, with the marks.
  ghost function Cells(r: seq<Line>): (t: seq<Cell>)
    reads r`actv
    ensures |t| == |r| && forall i :: 0 <= i < |r| ==> t[i] == Cell(r[i].text, r[i].actv)
  {
    if r == [] then [] else Cells(r[..|r| - 1]) + [Cell(r[|r| - 1].text, r[|r| - 1].actv)]
  }

  lemma CellsText(r: seq<Line>)
    ensures Strings(Cells(r)) == Texts(r)
  {
  }

  // New nodes put behind line n, and lines taken out.
  lemma CellsInsert(r: seq<Line>, n: nat, news: seq<Line>, r': seq<Line>, txts: seq<string>, s0: set<Line>, s: set<Line>)
    requires n < |r| && r' == r[..n + 1] + news + r[n + 1..] && Texts(news) == txts
    requires Born(news, s0, s) && forall x :: x in s && x !in s0 ==> !x.actv
    ensures Cells(r') == Put(Cells(r), n, txts)
  {
    hide Cells; hide Plain; hide Texts;
    var t := Put(Cells(r), n, txts);
    forall k | 0 <= k < |r'| ensures Cells(r')[k] == t[k] {
      if n < k <= n + |news| {
        assert r'[k] == news[k - n - 1] && Texts(news)[k - n - 1] == news[k - n - 1].text;
      } else {
        assert r'[k] == r[if k <= n then k else k - |news|];
      }
    }
  }

  lemma CellsRemove(r: seq<Line>, from: nat, to: nat, r': seq<Line>)
    requires from <= to < |r| && r' == r[..from] + r[to + 1..]
    ensures Cells(r') == Cut(Cells(r), from, to)
  {
    hide Cells;
    forall k | 0 <= k < |r'| ensures Cells(r')[k] == Cut(Cells(r), from, to)[k] {
      assert r'[k] == r[if k < from then k else k + to + 1 - from];
    }
  }

  lemma RingLength(ed: Editor)
    requires ed.Valid()
    ensures |ed.ring| == ed.lastln + 1
  {
  }

  // ------------------------------------------------------ copying lines

  // One more node of a block that is being inserted from position `p` on.
  lemma InsertNext(r0: seq<Line>, p: nat, news: seq<Line>, r: seq<Line>, nd: Line, r': seq<Line>)
    requires p <= |r0| && r == r0[..p] + news + r0[p..]
    requires var q := p + |news|; r' == r[..q] + [nd] + r[q..]
    ensures r' == r0[..p] + (news + [nd]) + r0[p..]
  {
    var q := p + |news|;
    assert r[..q] == r0[..p] + news;
    assert r[q..] == r0[p..];
  }

  // An edit run keeps what the undo stack has to restore, and the stack that
  // can restore it if usw is clear.
  twostate predicate Keeps(ed: Editor)
    reads ed, ed.repr
  {
    && old(ed.Valid()) && ed.Valid() && ed.usw == old(ed.usw)
    && (old(ed.stale) ==> ed.stale) && (ed.stale ==> old(ed.stale || ed.usw))
    && ed.Base() == old(ed.Base())
    && old(ed.repr) <= ed.repr && fresh(ed.repr - old(ed.repr))
    && (forall x :: x in ed.repr && x !in old(ed.repr) ==> !x.actv)
  }

  // Whether an edit was recorded, and on which side of the stack.
  twostate predicate Edited(ed: Editor, did: bool)
    reads ed
  {
    && ed.usw == old(ed.usw)
    && ed.stale == (old(ed.stale) || (old(ed.usw) && did))
    && (ed.ustack == [] <==> old(ed.ustack) == [] && !did)
    && (!did ==> ed.hist == old(ed.hist))
  }

  // The nodes of `news` were made since the nodes were `s0`.
  ghost predicate Born(news: seq<Line>, s0: set<Line>, s: set<Line>) {
    forall i :: 0 <= i < |news| ==> news[i] in s && news[i] !in s0
  }

  // Reading a line leaves everything but the cursor alone.
  method GetLine(ed: Editor, n: int) returns (nd: Line)
    requires ed.Valid()
    modifies ed`lp, ed`on
    ensures ed.Valid() && nd == ed.ring[Editor.Clamp(n, ed.lastln)]
  {
    hide Recorded; hide Ready; hide Covered; hide Ring; hide Closed; hide StackIn;
    var p, steps := ed.GetPtr(n);
    nd := p;
  }

  // Another current line.
  method GoTo(ed: Editor, n: int)
    requires ed.Valid()
    modifies ed`curln
    ensures ed.Valid() && ed.curln == n
  {
    hide Recorded; hide Ready; hide Covered; hide Ring; hide Closed; hide StackIn;
    ed.curln := n;
  }

  // append: insert lines after line `n` (the input lines are given)
  method Append(ed: Editor, n: int, txts: seq<string>) returns (ghost news: seq<Line>)
    requires ed.Valid() && 0 <= n <= ed.lastln
    modifies ed, ed.repr`next, ed.repr`prev
    ensures Keeps(ed) && Born(news, old(ed.repr), ed.repr)
    ensures Texts(news) == txts && ed.ring == old(ed.ring)[..n + 1] + news + old(ed.ring)[n + 1..]
    ensures ed.curln == n + |txts| && ed.lastln == old(ed.lastln) + |txts|
    ensures n < |old(ed.ring)| && Cells(ed.ring) == Put(old(Cells(ed.ring)), n, txts) && Edited(ed, txts != [])
  {
    hide Recorded; hide Ready; hide Covered; hide Ring; hide Closed; hide StackIn; hide Texts; hide Born; hide Within;
    hide Editor.Coherent; hide Cells; hide Put;
    RingLength(ed);
    news := AppendLines(ed, n, txts);
    CellsInsert(old(ed.ring), n, news, ed.ring, txts, old(ed.repr), ed.repr);
  }

  method AppendLines(ed: Editor, n: int, txts: seq<string>) returns (ghost news: seq<Line>)
    requires ed.Valid() && 0 <= n <= ed.lastln
    modifies ed, ed.repr`next, ed.repr`prev
    ensures Keeps(ed) && Born(news, old(ed.repr), ed.repr) && Edited(ed, txts != [])
    ensures Texts(news) == txts && ed.ring == old(ed.ring)[..n + 1] + news + old(ed.ring)[n + 1..]
    ensures ed.curln == n + |txts| && ed.lastln == old(ed.lastln) + |txts|
  {
    hide Recorded; hide Ready; hide Covered; hide Ring; hide Closed; hide StackIn; hide Texts; hide Born; hide Within;
    hide Editor.Coherent;
    news := [];
    BornNone(old(ed.repr), ed.repr);
    TextsAppend([], []);
    GoTo(ed, n);
    var k := 0;
    while k < |txts|
      invariant 0 <= k <= |txts| && |news| == k
      invariant Keeps(ed) && (k > 0 ==> ed.Growing())
      invariant ed.curln == n + k && ed.lastln == old(ed.lastln) + k
      invariant ed.ring == old(ed.ring)[..n + 1] + news + old(ed.ring)[n + 1..]
      invariant Texts(news) == txts[..k]
      invariant Born(news, old(ed.repr), ed.repr) && Edited(ed, k > 0)
    {
      var nd := new Line(txts[k]);
      ghost var r, s := ed.ring, ed.repr;
      ed.AddLine(nd, k > 0);
      InsertNext(old(ed.ring), n + 1, news, r, nd, ed.ring);
      TextsNext(news, nd, txts, k);
      BornNext(news, nd, old(ed.repr), s, ed.repr);
      news, k := news + [nd], k + 1;
    }
  }

  lemma BornNone(s0: set<Line>, s: set<Line>)
    ensures Born([], s0, s)
  {
  }

  lemma BornNext(news: seq<Line>, nd: Line, s0: set<Line>, s: set<Line>, s': set<Line>)
    requires Born(news, s0, s) && s <= s' && nd in s' && nd !in s0
    ensures Born(news + [nd], s0, s')
  {
  }

  lemma TextsNext(news: seq<Line>, nd: Line, txts: seq<string>, k: nat)
    requires k < |txts| && Texts(news) == txts[..k] && nd.text == txts[k]
    ensures Texts(news + [nd]) == txts[..k + 1]
  {
    TextsAppend(news, [nd]);
  }

  // The first |news| lines from line1 on have been copied to after line num.
  ghost predicate Copied(r0: seq<Line>, r: seq<Line>, line1: int, num: int, news: seq<Line>) {
    && 0 <= num < |r0| && 1 <= line1 && line1 + |news| <= |r0|
    && r == r0[..num + 1] + news + r0[num + 1..]
    && Texts(news) == Texts(r0)[line1..line1 + |news|]
  }

  // Where the next line to be copied is now.
  ghost function NextSource(line1: int, num: int, n: int): int {
    line1 + n + if num < line1 + n then n else 0
  }

  lemma CopiedNone(r0: seq<Line>, line1: int, num: int, s: set<Line>)
    requires 0 <= num < |r0| && 1 <= line1 <= |r0|
    ensures Copied(r0, r0, line1, num, []) && Born([], s, s)
  {
  }

  lemma CopiedSource(r0: seq<Line>, r: seq<Line>, line1: int, num: int, news: seq<Line>)
    requires Copied(r0, r, line1, num, news) && line1 + |news| < |r0|
    ensures var nl := NextSource(line1, num, |news|);
            0 <= nl < |r| && r[nl] == r0[line1 + |news|]
    ensures 0 <= num + |news| < |r|
  {
  }

  lemma CopiedNext(r0: seq<Line>, r: seq<Line>, line1: int, num: int, news: seq<Line>, nd: Line, r': seq<Line>)
    requires Copied(r0, r, line1, num, news) && line1 + |news| < |r0|
    requires var q := num + 1 + |news|; q <= |r| && r' == r[..q] + [nd] + r[q..]
    requires nd.text == r0[line1 + |news|].text
    ensures Copied(r0, r', line1, num, news + [nd])
  {
    InsertNext(r0, num + 1, news, r, nd, r');
    TextsAppend(news, [nd]);
    var t := Texts(r0);
    assert t[line1..line1 + |news| + 1] == t[line1..line1 + |news|] + [t[line1 + |news|]];
  }

  // One round of transfer: duplicate the line `nl` and queue the copy.
  method CopyLine(ed: Editor, nl: int, up: bool, ghost r0: seq<Line>, ghost line1: int, ghost num: int,
                  ghost news: seq<Line>, ghost s0: set<Line>) returns (ghost news': seq<Line>)
    requires ed.Valid() && ed.curln == num + |news| && (up ==> ed.Growing())
    requires Copied(r0, ed.ring, line1, num, news) && line1 + |news| < |r0|
    requires nl == NextSource(line1, num, |news|)
    requires s0 <= ed.repr && Born(news, s0, ed.repr)
    modifies ed, ed.repr`next, ed.repr`prev
    ensures Keeps(ed) && Copied(r0, ed.ring, line1, num, news') && ed.Growing()
    ensures |news'| == |news| + 1 && Born(news', s0, ed.repr)
    ensures ed.curln == old(ed.curln) + 1 && ed.lastln == old(ed.lastln) + 1
    ensures Edited(ed, true)
  {
    hide Recorded; hide Ready; hide Covered; hide Ring; hide Closed; hide StackIn; hide Copied; hide Texts;
    CopiedSource(r0, ed.ring, line1, num, news);
    var src := GetLine(ed, nl);
    var nd := new Line(src.text);
    ghost var r := ed.ring;
    ed.AddLine(nd, up);
    CopiedNext(r0, r, line1, num, news, nd, ed.ring);
    news' := news + [nd];
  }

  lemma CellsCopied(r0: seq<Line>, r: seq<Line>, line1: int, line2: int, num: int, news: seq<Line>, s0: set<Line>, s: set<Line>)
    requires Copied(r0, r, line1, num, news) && |news| == line2 - line1 + 1 > 0
    requires Born(news, s0, s) && forall x :: x in s && x !in s0 ==> !x.actv
    ensures line2 < |r0| && Cells(r) == Duplicated(Cells(r0), line1, line2, num)
  {
    hide Cells; hide Texts; hide Put; hide Born;
    CellsText(r0);
    var txts := Strings(Cells(r0)[line1..line2 + 1]);
    assert txts == Texts(r0)[line1..line2 + 1];
    CellsInsert(r0, num, news, r, txts, s0, s);
  }

  // transfer: copy lines line1..line2 to after line `num`.
  method Transfer(ed: Editor, line1: int, line2: int, num: int) returns (ghost news: seq<Line>)
    requires ed.Valid() && 1 <= line1 <= line2 <= ed.lastln && 0 <= num <= ed.lastln
    modifies ed, ed.repr`next, ed.repr`prev
    ensures Keeps(ed) && Born(news, old(ed.repr), ed.repr)
    ensures |news| == line2 - line1 + 1 && Copied(old(ed.ring), ed.ring, line1, num, news)
    ensures ed.curln == num + |news| && ed.lastln == old(ed.lastln) + |news|
    ensures Edited(ed, true) && |old(ed.ring)| == old(ed.lastln) + 1
    ensures Cells(ed.ring) == Duplicated(old(Cells(ed.ring)), line1, line2, num)
  {
    hide Recorded; hide Ready; hide Covered; hide Ring; hide Closed; hide StackIn; hide Copied; hide Born; hide Texts;
    hide Cells; hide Duplicated;
    RingLength(ed);
    news := TransferLines(ed, line1, line2, num);
    CellsCopied(old(ed.ring), ed.ring, line1, line2, num, news, old(ed.repr), ed.repr);
  }

  // When `num` is inside the range, a first loop copies the lines up to `num`,
  // and a second one those that the insertions keep pushing down.
  method TransferLines(ed: Editor, line1: int, line2: int, num: int) returns (ghost news: seq<Line>)
    requires ed.Valid() && 1 <= line1 <= line2 <= ed.lastln && 0 <= num <= ed.lastln
    modifies ed, ed.repr`next, ed.repr`prev
    ensures Keeps(ed) && Born(news, old(ed.repr), ed.repr)
    ensures |news| == line2 - line1 + 1 && Copied(old(ed.ring), ed.ring, line1, num, news)
    ensures ed.curln == num + |news| && ed.lastln == old(ed.lastln) + |news|
    ensures Edited(ed, true)
  {
    hide Recorded; hide Ready; hide Covered; hide Ring; hide Closed; hide StackIn; hide Copied; hide Born; hide Texts;
    CopiedNone(ed.ring, line1, num, ed.repr);
    var mid := if num < line2 then num else line2;
    news := [];
    ed.curln := num;
    var nt, nl, up := 0, line1, false;
    while nl <= mid
      invariant 0 <= nt == |news| && nl == line1 + nt && (nl <= mid + 1 || nt == 0)
      invariant Keeps(ed) && Copied(old(ed.ring), ed.ring, line1, num, news)
      invariant ed.curln == num + nt && ed.lastln == old(ed.lastln) + nt && (up ==> ed.Growing())
      invariant Born(news, old(ed.repr), ed.repr) && Edited(ed, |news| > 0)
    {
      news := CopyLine(ed, nl, up, old(ed.ring), line1, num, news, old(ed.repr));
      nl, nt, up := nl + 1, nt + 1, true;
    }
    nl := nl + nt;
    var lc := line2 + nt;
    while nl <= lc
      invariant nt <= |news| && nl == line1 + 2 * |news| && lc == line2 + |news|
      invariant nl <= lc + 1 && (nl <= lc ==> num < line1 + |news|)
      invariant Keeps(ed) && Copied(old(ed.ring), ed.ring, line1, num, news)
      invariant ed.curln == num + |news| && ed.lastln == old(ed.lastln) + |news| && (up ==> ed.Growing())
      invariant Born(news, old(ed.repr), ed.repr) && Edited(ed, |news| > 0)
    {
      news := CopyLine(ed, nl, up, old(ed.ring), line1, num, news, old(ed.repr));
      nl, lc, up := nl + 2, lc + 1, true;
    }
  }

  // ------------------------------------------------------------- delete

  method Delete(ed: Editor, from: int, to: int)
    requires ed.Valid() && 1 <= from <= to <= ed.lastln
    modifies ed, ed.repr`next, ed.repr`prev
    ensures Keeps(ed) && ed.repr == old(ed.repr)
    ensures Texts(ed.ring) == Texts(old(ed.ring))[..from] + Texts(old(ed.ring))[to + 1..]
    ensures ed.ring == old(ed.ring)[..from] + old(ed.ring)[to + 1..]
    ensures ed.curln == from - 1 && ed.lastln == old(ed.lastln) - (to - from + 1)
    ensures Edited(ed, true) && |old(ed.ring)| == old(ed.lastln) + 1
    ensures Cells(ed.ring) == Cut(old(Cells(ed.ring)), from, to)
  {
    hide Recorded; hide Ready; hide Covered; hide Ring; hide Closed; hide StackIn; hide Texts; hide Cells; hide Cut;
    RingLength(ed);
    TextsRemove(ed.ring, from, to + 1);
    ed.Del(from, to);
    CellsRemove(old(ed.ring), from, to, ed.ring);
  }

  // --------------------------------------------------------------- move

  // The lines of `t` with lines line1..line2 moved to after line `num`.
  ghost function Moved(t: seq<string>, line1: int, line2: int, num: int): seq<string>
    requires 1 <= line1 <= line2 < |t| && 0 <= num < |t| && (num < line1 || line2 <= num)
  {
    if num < line1 then
      t[..num + 1] + t[line1..line2 + 1] + t[num + 1..line1] + t[line2 + 1..]
    else
      t[..line1] + t[line2 + 1..num + 1] + t[line1..line2 + 1] + t[num + 1..]
  }

  // Copying a block and deleting the lines that `m` deletes moves the block.
  lemma CopyThenDelete(t: seq<string>, line1: int, line2: int, num: int)
    requires 1 <= line1 <= line2 < |t| && 0 <= num < |t| && (num < line1 || line2 <= num)
    ensures var t' := t[..num + 1] + t[line1..line2 + 1] + t[num + 1..];
            var c := if num > line1 then 0 else line2 - line1 + 1;
            t'[..line1 + c] + t'[line2 + c + 1..] == Moved(t, line1, line2, num)
  {
    if num < line1 {
      MovedBackward(t, line1, line2, num);
    } else if num > line1 {
      MovedForward(t, line1, line2, num);
    } else {
      MovedNowhere(t, num);
    }
  }

  lemma MovedBackward(t: seq<string>, line1: int, line2: int, num: int)
    requires 0 <= num < line1 <= line2 < |t|
    ensures var t' := t[..num + 1] + t[line1..line2 + 1] + t[num + 1..];
            var c := line2 - line1 + 1;
            t'[..line1 + c] + t'[line2 + c + 1..] == t[..num + 1] + t[line1..line2 + 1] + t[num + 1..line1] + t[line2 + 1..]
  {
    var b := t[line1..line2 + 1];
    assert t[num + 1..] == t[num + 1..line1] + b + t[line2 + 1..];
    CutBehind(t[..num + 1], b, t[num + 1..line1], t[line2 + 1..]);
  }

  lemma MovedForward(t: seq<string>, line1: int, line2: int, num: int)
    requires 1 <= line1 <= line2 <= num < |t|
    ensures var t' := t[..num + 1] + t[line1..line2 + 1] + t[num + 1..];
            t'[..line1] + t'[line2 + 1..] == t[..line1] + t[line2 + 1..num + 1] + t[line1..line2 + 1] + t[num + 1..]
  {
    var b := t[line1..line2 + 1];
    assert t[..num + 1] == t[..line1] + b + t[line2 + 1..num + 1];
    CutBefore(t[..line1], b, t[line2 + 1..num + 1], t[num + 1..]);
  }

  // A line behind itself: the two copies are alike.
  lemma MovedNowhere(t: seq<string>, num: int)
    requires 1 <= num < |t|
    ensures var t' := t[..num + 1] + t[num..num + 1] + t[num + 1..];
            t'[..num + 1] + t'[num + 2..] == t[..num] + t[num + 1..num + 1] + t[num..num + 1] + t[num + 1..]
  {
    var t' := t[..num + 1] + t[num..num + 1] + t[num + 1..];
    assert t'[..num + 1] == t[..num + 1] == t[..num] + t[num + 1..num + 1] + t[num..num + 1];
    assert t'[num + 2..] == t[num + 1..];
  }

  // A copy of b, and then the first b or the second one taken out.
  lemma CutBehind(a: seq<string>, b: seq<string>, m: seq<string>, d: seq<string>)
    ensures var t := a + b + (m + b + d); var i := |a + b + m|; t[..i] + t[i + |b|..] == a + b + m + d
  {
    var t := a + b + (m + b + d);
    assert t == (a + b + m) + (b + d);
    assert (b + d)[|b|..] == d;
  }

  lemma CutBefore(a: seq<string>, b: seq<string>, m: seq<string>, d: seq<string>)
    ensures var t := (a + b + m) + b + d; t[..|a|] + t[|a| + |b|..] == a + m + b + d
  {
    var t := (a + b + m) + b + d;
    assert t == a + (b + (m + b + d));
    assert t[|a| + |b|..] == m + b + d;
    assert a + (m + b + d) == a + m + b + d;
  }

  lemma StringsCut(t: seq<Cell>, from: nat, to: nat)
    requires from <= to < |t|
    ensures Strings(Cut(t, from, to)) == Strings(t)[..from] + Strings(t)[to + 1..]
  {
  }

  lemma StringsPut(t: seq<Cell>, n: nat, ls: seq<string>)
    requires n < |t|
    ensures Strings(Put(t, n, ls)) == Strings(t)[..n + 1] + ls + Strings(t)[n + 1..]
  {
  }

  lemma StringsPart(t: seq<Cell>, i: nat, j: nat)
    requires i <= j <= |t|
    ensures Strings(t[i..j]) == Strings(t)[i..j]
  {
  }

  // What m does to the cells, it does to the lines.
  lemma MoveText(t: seq<Cell>, line1: int, line2: int, num: int)
    requires 1 <= line1 <= line2 < |t| && 0 <= num < |t| && (num < line1 || line2 <= num)
    ensures Strings(MovedTo(t, line1, line2, num).t) == Moved(Strings(t), line1, line2, num)
  {
    hide Moved; hide Strings; hide Cut; hide Put;
    var c := Shift(line1, line2, num);
    StringsPart(t, line1, line2 + 1);
    StringsPut(t, num, Strings(t[line1..line2 + 1]));
    StringsCut(Duplicated(t, line1, line2, num), line1 + c, line2 + c);
    CopyThenDelete(Strings(t), line1, line2, num);
  }

  method CopyAndDelete(ed: Editor, line1: int, line2: int, num: int)
    requires ed.Valid() && 1 <= line1 <= line2 <= ed.lastln && 0 <= num <= ed.lastln
    requires num < line1 || line2 <= num
    modifies ed, ed.repr`next, ed.repr`prev
    ensures Keeps(ed) && Edited(ed, true) && ed.lastln == old(ed.lastln) && |old(ed.ring)| == old(ed.lastln) + 1
    ensures ed.curln == num + Shift(line1, line2, num)
    ensures Cells(ed.ring) == MovedTo(old(Cells(ed.ring)), line1, line2, num).t
  {
    hide Recorded; hide Ready; hide Covered; hide Ring; hide Closed; hide StackIn; hide Copied; hide Texts; hide Born;
    hide Cells; hide Duplicated; hide Cut;
    ghost var news := Transfer(ed, line1, line2, num);
    var c := if num > line1 then 0 else line2 - line1 + 1;
    Delete(ed, line1 + c, line2 + c);
    ed.curln := num + c;
  }

  // The `m` command.  The lines end up moved in every case, but the line
  // number set at the end is that of the last moved line exactly when the
  // command does not move a line to after itself; moving the last line to
  // after itself even leaves the number of a line that does not exist.
  method Move(ed: Editor, line1: int, line2: int, num: int) returns (ok: bool)
    requires ed.Valid() && 1 <= line1 <= line2 <= ed.lastln && 0 <= num <= ed.lastln
    modifies ed, ed.repr`next, ed.repr`prev
    ensures Keeps(ed) && ok == (num < line1 || line2 <= num) && ed.lastln == old(ed.lastln)
    ensures !ok ==> ed.ring == old(ed.ring) && ed.curln == old(ed.curln)
    ensures ok ==> Texts(ed.ring) == Moved(Texts(old(ed.ring)), line1, line2, num)
    ensures ok ==>
      (ed.curln == (if num < line1 then num + (line2 - line1 + 1) else num) <==> !(line1 == num == line2))
    ensures ok ==> (ed.curln <= ed.lastln <==> !(line1 == num == line2 == ed.lastln))
    ensures Edited(ed, ok) && |old(ed.ring)| == old(ed.lastln) + 1
    ensures ok ==> var e := MovedTo(old(Cells(ed.ring)), line1, line2, num); Cells(ed.ring) == e.t && ed.curln == e.cur
  {
    hide Recorded; hide Ready; hide Covered; hide Ring; hide Closed; hide StackIn; hide Copied; hide Moved; hide Texts; hide Born;
    hide Cells; hide Duplicated; hide Cut; hide Editor.Coherent;
    RingLength(ed);
    if line1 <= num < line2 {
      return false;
    }
    CellsText(ed.ring);
    MoveText(Cells(ed.ring), line1, line2, num);
    CopyAndDelete(ed, line1, line2, num);
    CellsText(ed.ring);
    return true;
  }

  // -------------------------------------------------------------- ureset

  lemma BlockInBig(small: seq<Line>, e: Edit, big: seq<Line>, s: seq<Line>)
    requires Splice(small, e, big) && Disjoint(s, big)
    ensures Disjoint(s, e.nodes)
  {
    SpliceEnds(small, e, big);
    forall i, j | 0 <= i < |s| && 0 <= j < |e.nodes| ensures s[i] != e.nodes[j] {
      assert e.nodes[j] == big[e.pos + j];
    }
  }

  // The blocks that are out of the buffer share no node.
  lemma OutBlocksApart(ed: Editor, c: int, k: int, j: int)
    requires ed.HistOK() && (c == 0 || c == |ed.eds|)
    requires 0 <= k < j < |ed.eds| && Out(ed.eds[k], k, c) && Out(ed.eds[j], j, c)
    ensures Disjoint(ed.eds[k].nodes, ed.eds[j].nodes)
  {
    hide Splice; hide Disjoint; hide Within; hide NoDup;
    if c == 0 {
      assert Out(ed.eds[j], j, k + 1) && Step(ed.hist[k], ed.eds[k], ed.hist[k + 1]);
      BlockInBig(ed.hist[k], ed.eds[k], ed.hist[k + 1], ed.eds[j].nodes);
      DisjointSym(ed.eds[j].nodes, ed.eds[k].nodes);
    } else {
      assert Out(ed.eds[k], k, j) && Step(ed.hist[j], ed.eds[j], ed.hist[j + 1]);
      BlockInBig(ed.hist[j + 1], ed.eds[j], ed.hist[j], ed.eds[k].nodes);
    }
  }

  lemma DisjointSym(s: seq<Line>, r: seq<Line>)
    requires Disjoint(s, r)
    ensures Disjoint(r, s)
  {
  }

  ghost predicate InOutBlock(eds: seq<Edit>, c: int, u: int, x: Line) {
    exists k :: u <= k < |eds| && 0 <= k && Out(eds[k], k, c) && x in eds[k].nodes
  }

  // A node that was in the buffer at hist[j] but is not at hist[c] lies in a
  // block that is out.
  lemma {:induction false} LostNode(ed: Editor, c: int, j: int, x: Line)
    requires ed.HistOK() && (c == 0 || c == |ed.eds|) && 0 <= j < |ed.hist| && |ed.hist| == |ed.eds| + 1
    requires x in ed.hist[j] && x !in ed.hist[c]
    ensures InOutBlock(ed.eds, c, 0, x)
    decreases if c == 0 then j else |ed.eds| - j
  {
    var k, j' := if c == 0 then j - 1 else j, if c == 0 then j - 1 else j + 1;
    assert Step(ed.hist[k], ed.eds[k], ed.hist[k + 1]);
    if x in ed.hist[j'] {
      LostNode(ed, c, j', x);
    } else {
      SpliceMembers(ed, k, x);
    }
  }

  lemma SpliceMembers(ed: Editor, k: int, x: Line)
    requires ed.HistOK() && 0 <= k < |ed.eds| && |ed.hist| == |ed.eds| + 1
    requires (x in ed.hist[k]) != (x in ed.hist[k + 1])
    ensures x in ed.eds[k].nodes
    ensures ed.eds[k].kind.UADD? <==> x in ed.hist[k + 1]
  {
    assert Step(ed.hist[k], ed.eds[k], ed.hist[k + 1]);
    SplicePart(Small(ed.hist, ed.eds, k), ed.eds[k], ed.Big(k), x);
  }

  lemma SplicePart(small: seq<Line>, e: Edit, big: seq<Line>, x: Line)
    requires Splice(small, e, big)
    ensures x in big <==> x in small || x in e.nodes
  {
    assert small == small[..e.pos] + small[e.pos..];
    assert x in small <==> x in small[..e.pos] || x in small[e.pos..];
    assert x in big <==> x in small[..e.pos] || x in e.nodes || x in small[e.pos..];
  }

  // What ureset has freed when it has worked down to record `u`.
  ghost predicate Freed(eds: seq<Edit>, s: set<Line>, c: int, u: int, freed: seq<Line>) {
    && Within(freed, s) && NoDup(freed)
    && (forall x :: x in s ==> (x in freed <==> InOutBlock(eds, c, u, x)))
  }

  lemma FreedSame(eds: seq<Edit>, s: set<Line>, c: int, u: int, freed: seq<Line>)
    requires Freed(eds, s, c, u + 1, freed) && 0 <= u < |eds| && !Out(eds[u], u, c)
    ensures Freed(eds, s, c, u, freed)
  {
    forall x | x in s ensures x in freed <==> InOutBlock(eds, c, u, x) {
      assert InOutBlock(eds, c, u, x) <==> InOutBlock(eds, c, u + 1, x);
    }
  }

  lemma FreedApart(ed: Editor, c: int, u: int, freed: seq<Line>)
    requires ed.HistOK() && (c == 0 || c == |ed.eds|) && 0 <= u < |ed.eds|
    requires Freed(ed.eds, ed.repr, c, u + 1, freed) && Out(ed.eds[u], u, c)
    ensures Disjoint(ed.eds[u].nodes, freed)
  {
    var eds := ed.eds;
    forall i, j | 0 <= i < |eds[u].nodes| && 0 <= j < |freed| ensures eds[u].nodes[i] != freed[j] {
      assert freed[j] in ed.repr && InOutBlock(eds, c, u + 1, freed[j]);
      var k :| u + 1 <= k < |eds| && Out(eds[k], k, c) && freed[j] in eds[k].nodes;
      OutBlocksApart(ed, c, u, k);
    }
  }

  lemma FreedMore(eds: seq<Edit>, s: set<Line>, c: int, u: int, freed: seq<Line>)
    requires 0 <= u < |eds| && Out(eds[u], u, c) && Within(eds[u].nodes, s) && NoDup(eds[u].nodes)
    requires Freed(eds, s, c, u + 1, freed) && Disjoint(eds[u].nodes, freed)
    ensures Freed(eds, s, c, u, freed + eds[u].nodes)
  {
    var freed' := freed + eds[u].nodes;
    forall x | x in s ensures x in freed' <==> InOutBlock(eds, c, u, x) {
      assert InOutBlock(eds, c, u, x) <==> InOutBlock(eds, c, u + 1, x) || x in eds[u].nodes;
    }
  }

  // In the end exactly the nodes that are not in the buffer have been freed.
  lemma FreedAll(ed: Editor, freed: seq<Line>)
    requires ed.Valid() && !ed.stale
    requires var c := if ed.usw then 0 else |ed.eds|; Freed(ed.eds, ed.repr, c, 0, freed)
    ensures Nodes(freed) == ed.repr - Nodes(ed.ring)
    ensures NoDup(freed)
  {
    var eds, c := ed.eds, if ed.usw then 0 else |ed.eds|;
    forall x | x in ed.repr ensures x in freed <==> x !in ed.ring {
      if x in freed {
        assert InOutBlock(eds, c, 0, x);
        var k :| 0 <= k < |eds| && Out(eds[k], k, c) && x in eds[k].nodes;
        assert Disjoint(eds[k].nodes, ed.hist[c]);
      } else if x !in ed.ring {
        assert Seen(ed.hist, x);
        var j :| 0 <= j < |ed.hist| && x in ed.hist[j];
        LostNode(ed, c, j, x);
      }
    }
  }

  // ureset: clear the undo stack, freeing the lines that only it refers to.
  // No line is freed twice, none that is still in the buffer is freed, and no
  // line is lost without being freed.
  method UReset(ed: Editor) returns (freed: seq<Line>)
    requires ed.Valid() && !ed.stale
    modifies ed
    ensures ed.Valid() && !ed.usw && !ed.stale && ed.ustack == [] && ed.eds == []
    ensures ed.ring == old(ed.ring) && ed.repr == Nodes(ed.ring)
    ensures ed.curln == old(ed.curln) == ed.ucurln && ed.lastln == old(ed.lastln)
    ensures NoDup(freed) && Nodes(freed) == old(ed.repr) - Nodes(ed.ring)
  {
    hide Recorded; hide Ready; hide Covered; hide Ring; hide Closed; hide StackIn;
    freed := FreeOut(ed);
    ed.ustack, ed.usw := [], false;
    ed.ucurln := ed.curln;
    ed.hist, ed.eds, ed.repr := [ed.ring], [], Nodes(ed.ring);
    FreshHistory(ed);
  }

  // The outer loop, from the last record to the first.
  method FreeOut(ed: Editor) returns (freed: seq<Line>)
    requires ed.Valid() && !ed.stale
    ensures NoDup(freed) && Nodes(freed) == ed.repr - Nodes(ed.ring)
  {
    hide Recorded; hide Ready; hide Covered; hide Ring; hide Closed; hide StackIn; hide Freed; hide Within;
    ghost var c := if ed.usw then 0 else |ed.eds|;
    freed := [];
    var u := |ed.ustack|;
    ed.StackSize();
    FreedNone(ed.eds, ed.repr, c);
    while u > 0
      invariant 0 <= u <= |ed.ustack| == |ed.eds| && Freed(ed.eds, ed.repr, c, u, freed)
    {
      u := u - 1;
      ed.EditFacts(u);
      if (ed.ustack[u].kind == UDEL) != ed.usw {
        FreedApart(ed, c, u, freed);
        ed.BlockReady(u, c);
        BlockInRepr(ed, u);
        FreedMore(ed.eds, ed.repr, c, u, freed);
        freed := FreeBlock(ed.ustack[u].h, ed.ustack[u].t, freed, ed.eds[u], Small(ed.hist, ed.eds, u));
      } else {
        FreedSame(ed.eds, ed.repr, c, u, freed);
      }
    }
    FreedAll(ed, freed);
  }

  lemma BlockInRepr(ed: Editor, u: int)
    requires ed.HistOK() && 0 <= u < |ed.eds|
    ensures Within(ed.eds[u].nodes, ed.repr)
  {
    BlocksWithin(ed.line0, ed.hist, ed.eds, ed.ustack, ed.repr, u);
  }

  lemma FreedNone(eds: seq<Edit>, s: set<Line>, c: int)
    ensures Freed(eds, s, c, |eds|, [])
  {
  }

  lemma FreshHistory(ed: Editor)
    requires Ring(ed.ring) && ed.ring[0] == ed.line0 && ed.lastln == |ed.ring| - 1
    requires 0 <= ed.on <= ed.lastln && ed.lp == ed.ring[ed.on]
    requires !ed.usw && !ed.stale
    requires ed.ustack == [] && ed.eds == [] && ed.hist == [ed.ring] && ed.repr == Nodes(ed.ring)
    ensures ed.Valid()
  {
    RingClosed(ed.ring);
    forall x | x in ed.repr ensures Seen(ed.hist, x) {
      assert x in ed.hist[0];
    }
  }

  // The inner loop: frees the nodes from h to t, reading each one's successor
  // before it goes.
  method FreeBlock(h: Line, t: Line, freed0: seq<Line>, ghost e: Edit, ghost small: seq<Line>)
    returns (freed: seq<Line>)
    requires e.nodes != [] && 1 <= e.pos <= |small| && Detached(e, small) && Disjoint(e.nodes, small)
    requires h == e.nodes[0] && t == e.nodes[|e.nodes| - 1]
    ensures freed == freed0 + e.nodes
  {
    ghost var i := 0;
    var lp, ep := h, t.next;
    freed := freed0;
    while lp != ep
      invariant 0 <= i <= |e.nodes| && freed == freed0 + e.nodes[..i]
      invariant lp == if i < |e.nodes| then e.nodes[i] else ep
      decreases |e.nodes| - i
    {
      assert i + 1 < |e.nodes| ==> e.nodes[i].next == e.nodes[i + 1];
      var tl := lp.next;
      freed := freed + [lp];
      lp := tl;
      i := i + 1;
    }
    assert i == |e.nodes|;
    assert e.nodes[..i] == e.nodes;
  }
}

