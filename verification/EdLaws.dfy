// What the steps on the text of ed come to: where each command puts its lines,
// what u brings back, and what whole global commands leave.
module EdLaws {
  import opened EdText
  import opened EdCommands

  // The lines ls stand in u behind line n of t, and nothing else has changed.
  ghost predicate Inserted(t: seq<Cell>, u: seq<Cell>, n: nat, ls: seq<string>) {
    && n < |t| && |u| == |t| + |ls|
    && (forall i :: 0 <= i <= n ==> u[i] == t[i])
    && (forall i :: 0 <= i < |ls| ==> u[n + 1 + i] == Cell(ls[i], false))
    && (forall i :: n < i < |t| ==> u[i + |ls|] == t[i])
  }

  // The lines ls stand in u for lines from..to of t.
  ghost predicate Replaced(t: seq<Cell>, u: seq<Cell>, from: nat, to: nat, ls: seq<string>) {
    && 1 <= from <= to < |t| && |u| == |t| - (to - from + 1) + |ls|
    && (forall i :: 0 <= i < from ==> u[i] == t[i])
    && (forall i :: 0 <= i < |ls| ==> u[from + i] == Cell(ls[i], false))
    && (forall i :: to < i < |t| ==> u[i - (to - from + 1) + |ls|] == t[i])
  }

  lemma PutInserts(t: seq<Cell>, n: nat, ls: seq<string>)
    requires n < |t|
    ensures Inserted(t, Put(t, n, ls), n, ls)
  {
  }

  lemma CutReplaces(t: seq<Cell>, from: nat, to: nat, ls: seq<string>)
    requires 1 <= from <= to < |t|
    ensures Replaced(t, Cut(t, from, to), from, to, [])
    ensures Replaced(t, Put(Cut(t, from, to), from - 1, ls), from, to, ls)
  {
    hide Put; hide Cut; hide Plain;
    var u := Cut(t, from, to);
    CutAt(t, from, to);
    PutInserts(u, from - 1, ls);
    var v := Put(u, from - 1, ls);
    forall i | to < i < |t| ensures v[i - (to - from + 1) + |ls|] == t[i] {
      assert v[(i - (to - from + 1)) + |ls|] == u[i - (to - from + 1)];
    }
    forall i | 0 <= i < |ls| ensures v[from + i] == Cell(ls[i], false) {
      assert v[(from - 1) + 1 + i] == Cell(ls[i], false);
    }
  }

  lemma CutAt(t: seq<Cell>, from: nat, to: nat)
    requires 1 <= from <= to < |t|
    ensures var u := Cut(t, from, to);
      && |u| == |t| - (to - from + 1)
      && (forall i :: 0 <= i < from ==> u[i] == t[i])
      && (forall i :: to < i < |t| ==> u[i - (to - from + 1)] == t[i])
  {
  }

  // a: behind the line it names, which may be 0
  lemma AppendPlaces(cmd: Cmd, t: seq<Cell>, cur: int)
    requires t != [] && cmd.AppendCmd?
    ensures var e, n := EffectOf(cmd, t, cur), cmd.at(Strings(t), cur, |t| - 1);
      if 0 <= n < |t| then e.ok && Inserted(t, e.t, n, cmd.lines) && e.cur == n + |cmd.lines|
      else e == Effect(false, t, cur, false)
  {
    hide Put; hide Inserted;
    var n := cmd.at(Strings(t), cur, |t| - 1);
    if 0 <= n < |t| {
      PutInserts(t, n, cmd.lines);
    }
  }

  // i: the line it names stands directly behind the new lines; in front of
  // line 0 is behind the last line
  lemma InsertPlaces(cmd: Cmd, t: seq<Cell>, cur: int)
    requires t != [] && cmd.InsertCmd?
    ensures var e, n := EffectOf(cmd, t, cur), cmd.at(Strings(t), cur, |t| - 1);
      if 0 <= n < |t| then
        && e.ok && e.cur < |e.t|
        && (if n == 0 then Inserted(t, e.t, |t| - 1, cmd.lines) && e.cur == |e.t| - 1
            else Inserted(t, e.t, n - 1, cmd.lines) && e.cur == n + |cmd.lines| - 1 && e.t[e.cur + 1] == t[n])
      else e == Effect(false, t, cur, false)
  {
    hide Put;
    var n := cmd.at(Strings(t), cur, |t| - 1);
    if 0 <= n < |t| {
      PutInserts(t, InFront(n, |t| - 1), cmd.lines);
    }
  }

  // c: in place of the lines it names
  lemma ChangePlaces(cmd: Cmd, t: seq<Cell>, cur: int)
    requires t != [] && cmd.ChangeCmd?
    ensures var s, l := Strings(t), |t| - 1;
      var e, a, b := EffectOf(cmd, t, cur), cmd.from(s, cur, l), cmd.upto(s, cur, l);
      if 1 <= a <= b <= l then e.ok && Replaced(t, e.t, a, b, cmd.lines) && e.cur == a - 1 + |cmd.lines|
      else e == Effect(false, t, cur, false)
  {
    hide Put; hide Cut; hide Replaced;
    var s, l := Strings(t), |t| - 1;
    var a, b := cmd.from(s, cur, l), cmd.upto(s, cur, l);
    if 1 <= a <= b <= l {
      CutReplaces(t, a, b, cmd.lines);
    }
  }

  // d: the line behind is current then, or the last one if there is none
  lemma DeletePlaces(cmd: Cmd, t: seq<Cell>, cur: int)
    requires t != [] && cmd.DeleteCmd?
    ensures var s, l := Strings(t), |t| - 1;
      var e, a, b := EffectOf(cmd, t, cur), cmd.from(s, cur, l), cmd.upto(s, cur, l);
      if 1 <= a <= b <= l then
        && e.ok && Replaced(t, e.t, a, b, []) && 0 <= e.cur < |e.t|
        && (if b < l then e.t[e.cur] == t[b + 1] && e.cur == a else e.cur == |e.t| - 1)
      else e == Effect(false, t, cur, false)
  {
    hide Cut;
    var s, l := Strings(t), |t| - 1;
    var a, b := cmd.from(s, cur, l), cmd.upto(s, cur, l);
    if 1 <= a <= b <= l {
      CutReplaces(t, a, b, []);
    }
  }

  // t: a copy of the lines, the last of which is current
  lemma CopyPlaces(cmd: Cmd, t: seq<Cell>, cur: int)
    requires t != [] && cmd.CopyCmd?
    ensures var s, l := Strings(t), |t| - 1;
      var e, a, b, n := EffectOf(cmd, t, cur), cmd.from(s, cur, l), cmd.upto(s, cur, l), cmd.at(s, cur, l);
      if 1 <= a <= b <= l && 0 <= n <= l then
        e.ok && Inserted(t, e.t, n, s[a..b + 1]) && e.cur == n + |s[a..b + 1]|
      else e == Effect(false, t, cur, false)
  {
    hide Put; hide Inserted;
    var s, l := Strings(t), |t| - 1;
    var a, b, n := cmd.from(s, cur, l), cmd.upto(s, cur, l), cmd.at(s, cur, l);
    if 1 <= a <= b <= l && 0 <= n <= l {
      StringsPart(t, a, b + 1);
      PutInserts(t, n, s[a..b + 1]);
    }
  }

  // m: the lines stand elsewhere, all others in their order; the current line
  // is the last one moved, but for a line that is moved to behind itself
  lemma MovePlaces(cmd: Cmd, t: seq<Cell>, cur: int)
    requires t != [] && cmd.MoveCmd?
    ensures var s, l := Strings(t), |t| - 1;
      var e, a, b, n := EffectOf(cmd, t, cur), cmd.from(s, cur, l), cmd.upto(s, cur, l), cmd.at(s, cur, l);
      if 1 <= a <= b <= l && (0 <= n < a || b <= n <= l) then
        && e.ok && Strings(e.t) == Moved(s, a, b, n) && multiset(Strings(e.t)) == multiset(s)
        && (e.cur == (if n < a then n + (b - a + 1) else n) <==> !(a == n == b))
      else e == Effect(false, t, cur, false)
  {
    hide MovedTo; hide Moved;
    var s, l := Strings(t), |t| - 1;
    var a, b, n := cmd.from(s, cur, l), cmd.upto(s, cur, l), cmd.at(s, cur, l);
    if 1 <= a <= b <= l && (0 <= n < a || b <= n <= l) {
      MoveText(t, a, b, n);
      MovedSame(s, a, b, n);
      MovedLine(t, a, b, n);
    }
  }

  lemma MovedLine(t: seq<Cell>, a: nat, b: nat, n: nat)
    requires 1 <= a <= b < |t| && n < |t| && (n < a || b <= n)
    ensures var e := MovedTo(t, a, b, n);
      e.ok && (e.cur == (if n < a then n + (b - a + 1) else n) <==> !(a == n == b))
  {
  }

  lemma Exchanged(a: seq<string>, b: seq<string>, c: seq<string>, d: seq<string>)
    ensures multiset(a + b + c + d) == multiset(a + c + b + d)
  {
  }

  // A move exchanges two parts of the text that are next to each other.
  lemma MovedParts(s: seq<string>, a: nat, b: nat, n: nat)
    returns (p: seq<string>, q: seq<string>, r: seq<string>, z: seq<string>)
    requires 1 <= a <= b < |s| && n < |s| && (n < a || b <= n)
    ensures s == p + q + r + z && Moved(s, a, b, n) == p + r + q + z
  {
    if n < a {
      p, q, r, z := s[..n + 1], s[n + 1..a], s[a..b + 1], s[b + 1..];
    } else {
      p, q, r, z := s[..a], s[a..b + 1], s[b + 1..n + 1], s[n + 1..];
    }
  }

  // Moving lines loses none.
  lemma MovedSame(s: seq<string>, a: nat, b: nat, n: nat)
    requires 1 <= a <= b < |s| && n < |s| && (n < a || b <= n)
    ensures multiset(Moved(s, a, b, n)) == multiset(s)
  {
    hide Moved;
    var p, q, r, z := MovedParts(s, a, b, n);
    Exchanged(p, q, r, z);
  }

  // j: one line with the texts of all
  lemma JoinPlaces(cmd: Cmd, t: seq<Cell>, cur: int)
    requires t != [] && cmd.JoinCmd?
    ensures var s, l := Strings(t), |t| - 1;
      var e, a, b := EffectOf(cmd, t, cur), cmd.from(s, cur, l), cmd.upto(s, cur, l);
      if 1 <= a < b <= l && |Cat(s[a..b + 1])| < MAXLINE - 1 then
        e.ok && Replaced(t, e.t, a, b, [Cat(s[a..b + 1])]) && e.cur == a
      else e == Effect(1 <= a == b <= l, t, cur, false)
  {
    hide Put; hide Cut; hide Replaced; hide Cat;
    var s, l := Strings(t), |t| - 1;
    var a, b := cmd.from(s, cur, l), cmd.upto(s, cur, l);
    if 1 <= a < b <= l {
      CutReplaces(t, a, b, [Cat(s[a..b + 1])]);
    }
  }

  // The texts come one behind the other: that of the i-th line begins where
  // those in front of it end.
  lemma {:induction false} CatParts(ts: seq<string>, i: nat)
    requires i < |ts|
    ensures |Cat(ts[..i])| + |ts[i]| <= |Cat(ts)|
    ensures Cat(ts)[|Cat(ts[..i])|..|Cat(ts[..i])| + |ts[i]|] == ts[i]
    decreases |ts|
  {
    var init := ts[..|ts| - 1];
    if i == |ts| - 1 {
    } else {
      CatParts(init, i);
      assert init[..i] == ts[..i];
      var k := |Cat(ts[..i])|;
      assert Cat(ts)[k..k + |ts[i]|] == Cat(init)[k..k + |ts[i]|];
    }
  }

  // s: behind what stands for the lines before it stands what the
  // substitution made of the line number line1 + i: itself, marked as it was,
  // or its new lines; and the rest of the text is untouched.
  ghost predicate Written(u: seq<Cell>, p: nat, w: Rewrite, c: Cell) {
    match w
    case Same => p < |u| && u[p] == c
    case New(first, rest) => p + 1 + |rest| <= |u| && u[p..p + 1 + |rest|] == Plain([first] + rest)
    case Fail => false
  }

  lemma {:induction false} FlatParts(f: string -> Rewrite, t: seq<Cell>, i: nat)
    requires i < |t|
    requires !f(t[i].text).Fail?
    ensures Written(Flat(f, t), |Flat(f, t[..i])|, f(t[i].text), t[i])
    decreases |t|
  {
    var init, c := t[..|t| - 1], t[|t| - 1];
    if i < |t| - 1 {
      FlatParts(f, init, i);
      assert init[..i] == t[..i];
      Behind(Flat(f, init), Lines(f(c.text), c), |Flat(f, t[..i])|, f(t[i].text), t[i]);
    } else {
      assert Flat(f, t) == Flat(f, init) + Lines(f(c.text), c);
    }
  }

  lemma Behind(u: seq<Cell>, v: seq<Cell>, p: nat, w: Rewrite, c: Cell)
    requires Written(u, p, w, c)
    ensures Written(u + v, p, w, c)
  {
    if w.New? {
      assert (u + v)[p..p + 1 + |w.rest|] == u[p..p + 1 + |w.rest|];
    }
  }

  lemma InFrontOf(u: seq<Cell>, v: seq<Cell>, p: nat, w: Rewrite, c: Cell)
    requires Written(v, p, w, c)
    ensures Written(u + v, |u| + p, w, c)
  {
    if w.New? {
      assert (u + v)[|u| + p..|u| + p + 1 + |w.rest|] == v[p..p + 1 + |w.rest|];
    }
  }

  lemma {:induction false} FittingFit(f: string -> Rewrite, t: seq<Cell>)
    ensures var k := Fitting(f, t);
      (forall i :: 0 <= i < k ==> !f(t[i].text).Fail?) && (k < |t| ==> f(t[k].text).Fail?)
    decreases |t|
  {
    if t != [] && !f(t[0].text).Fail? {
      FittingFit(f, t[1..]);
      forall i | 0 <= i < Fitting(f, t) ensures !f(t[i].text).Fail? {
        assert i > 0 ==> t[i] == t[1..][i - 1];
      }
    }
  }

  // What s has come to in lines a..b: it fails at the first line whose new text
  // does not fit, those before it have been dealt with, and the others are as
  // they were.
  ghost predicate Rewrites(f: string -> Rewrite, t: seq<Cell>, a: nat, b: nat, e: Effect)
    requires 1 <= a <= b < |t|
  {
    exists k: nat :: k <= b - a + 1 && Dealt(f, t, a, b, k, e)
  }

  ghost predicate Dealt(f: string -> Rewrite, t: seq<Cell>, a: nat, b: nat, k: nat, e: Effect)
    requires 1 <= a <= b < |t| && k <= b - a + 1
  {
    && (forall i :: a <= i < a + k ==> !f(t[i].text).Fail?)
    && (if a + k <= b then !e.ok && f(t[a + k].text).Fail? else e.ok)
    && (forall i :: a <= i < a + k ==> Written(e.t, Pos(f, t, a, i - a), f(t[i].text), t[i]))
    && Pos(f, t, a, k) <= |e.t| && a <= |e.t|
    && e.t[..a] == t[..a] && e.t[Pos(f, t, a, k)..] == t[a + k..]
    && e.cur == Pos(f, t, a, k) - (if e.ok then 1 else 0)
  }

  lemma SubstPlaces(cmd: Cmd, t: seq<Cell>, cur: int)
    requires t != [] && cmd.SubstCmd?
    ensures var s, l := Strings(t), |t| - 1;
      var e, a, b := EffectOf(cmd, t, cur), cmd.from(s, cur, l), cmd.upto(s, cur, l);
      if 1 <= a <= b <= l then Rewrites(cmd.f, t, a, b, e) else e == Effect(false, t, cur, false)
  {
    hide Substituted; hide Dealt;
    var s, l := Strings(t), |t| - 1;
    var a, b := cmd.from(s, cur, l), cmd.upto(s, cur, l);
    if 1 <= a <= b <= l {
      AllDealt(cmd.f, t, a, b);
    }
  }

  lemma AllDealt(f: string -> Rewrite, t: seq<Cell>, a: nat, b: nat)
    requires 1 <= a <= b < |t|
    ensures var k := Fitting(f, t[a..b + 1]); k <= b - a + 1 && Dealt(f, t, a, b, k, Substituted(f, t, a, b))
  {
    hide Flat; hide Changes; hide Fitting; hide Written; hide Rewritten; hide Pos;
    var k := Fitting(f, t[a..b + 1]);
    LinesFit(f, t, a, b);
    RewrittenEnds(f, t, a, k);
    forall i | a <= i < a + k ensures Written(Rewritten(f, t, a, k), Pos(f, t, a, i - a), f(t[i].text), t[i]) {
      LineWritten(f, t, a, k, i - a);
    }
  }

  lemma LinesFit(f: string -> Rewrite, t: seq<Cell>, a: nat, b: nat)
    requires 1 <= a <= b < |t|
    ensures var k := Fitting(f, t[a..b + 1]);
      && k <= b - a + 1 && (forall i :: a <= i < a + k ==> !f(t[i].text).Fail?)
      && (a + k <= b ==> f(t[a + k].text).Fail?)
  {
    var m := t[a..b + 1];
    FittingFit(f, m);
    forall i | a <= i <= b ensures t[i] == m[i - a] {
    }
  }

  lemma RewrittenEnds(f: string -> Rewrite, t: seq<Cell>, a: nat, k: nat)
    requires a + k <= |t|
    ensures var u, p := Rewritten(f, t, a, k), Pos(f, t, a, k);
      a <= p <= |u| && u[..a] == t[..a] && u[p..] == t[a + k..]
  {
    hide Flat;
  }

  lemma LineWritten(f: string -> Rewrite, t: seq<Cell>, a: nat, k: nat, i: nat)
    requires a + k <= |t| && i < k && !f(t[a + i].text).Fail?
    ensures Written(Rewritten(f, t, a, k), Pos(f, t, a, i), f(t[a + i].text), t[a + i])
  {
    hide Flat; hide Written;
    var m := t[a..a + k];
    assert m[i] == t[a + i] && m[..i] == t[a..a + i];
    FlatParts(f, m, i);
    InFrontOf(t[..a], Flat(f, m), |Flat(f, m[..i])|, f(m[i].text), m[i]);
    Behind(t[..a] + Flat(f, m), t[a + k..], a + |Flat(f, m[..i])|, f(m[i].text), m[i]);
  }

  // ------------------------------------------------------- lists and undo

  // A list is its first part and then, unless that stops, the rest.
  lemma {:induction false} PlayThen(cmds: seq<Cmd>, more: seq<Cmd>, b: Buf)
    requires Sound(b)
    ensures var p := Play(cmds, b);
      (p.Went? ==> Sound(p.b)) && Play(cmds + more, b) == if p.Went? then Play(more, p.b) else p
    decreases |cmds|
  {
    hide StepOf;
    if cmds == [] {
      assert cmds + more == more;
    } else {
      var p := StepOf(cmds[0], b);
      StepSound(cmds[0], b);
      assert (cmds + more)[1..] == cmds[1..] + more;
      if p.Went? {
        PlayThen(cmds[1..], more, p.b);
      }
    }
  }

  lemma {:induction false} FlatSame(f: string -> Rewrite, t: seq<Cell>)
    requires forall i :: 0 <= i < |t| ==> f(t[i].text).Same?
    ensures Flat(f, t) == t
    decreases |t|
  {
    if t != [] {
      FlatSame(f, t[..|t| - 1]);
      assert t == t[..|t| - 1] + [t[|t| - 1]];
    }
  }

  // A command that records no edit leaves the text as it was.
  lemma EffectIdle(cmd: Cmd, t: seq<Cell>, cur: int)
    requires t != [] && !cmd.UndoCmd? && !EffectOf(cmd, t, cur).did
    ensures EffectOf(cmd, t, cur).t == t
  {
    hide Flat; hide Fitting; hide Cat; hide Duplicated;
    if cmd.SubstCmd? {
      var s, l := Strings(t), |t| - 1;
      var f, a, b := cmd.f, cmd.from(s, cur, l), cmd.upto(s, cur, l);
      if InRange(a, b, l) {
        IdleSubst(f, t, a, b);
      }
    }
  }

  lemma IdleSubst(f: string -> Rewrite, t: seq<Cell>, a: nat, b: nat)
    requires 1 <= a <= b < |t| && !Substituted(f, t, a, b).did
    ensures Substituted(f, t, a, b).t == t
  {
    hide Flat; hide Fitting;
    var k := Fitting(f, t[a..b + 1]);
    LinesFit(f, t, a, b);
    var m := t[a..a + k];
    forall i | 0 <= i < |m| ensures f(m[i].text).Same? {
      assert m[i] == t[a + i] && !f(m[i].text).New?;
    }
    FlatSame(f, m);
  }

  // The start of a run of edits, as ureset leaves it.
  predicate Clear(b: Buf) {
    b.t != [] && b.other == b.t && b.ucur == b.cur && !b.usw && !b.stale && b.blank
  }

  lemma {:induction false} PlayUndoable(cmds: seq<Cmd>, b: Buf, b0: Buf)
    requires Sound(b) && NoUndo(cmds) && !b.usw && !b.stale && b.other == b0.t && b.ucur == b0.cur
    requires b.blank ==> b.t == b0.t
    ensures var p := Play(cmds, b);
      && !p.Lost? && Sound(p.b) && !p.b.usw && !p.b.stale && p.b.other == b0.t && p.b.ucur == b0.cur
      && (p.b.blank ==> p.b.t == b0.t)
    decreases |cmds|
  {
    hide EffectOf;
    if cmds != [] {
      var p, e := StepOf(cmds[0], b), EffectOf(cmds[0], b.t, b.cur);
      StepSound(cmds[0], b);
      if !e.did {
        EffectIdle(cmds[0], b.t, b.cur);
      }
      if p.Went? {
        PlayUndoable(cmds[1..], p.b, b0);
      }
    }
  }

  // u takes back a run of edits, whether it has gone to its end or not, and a
  // second u brings it again. Only a run that recorded nothing leaves u nothing
  // to do, and that has changed no text.
  lemma RunUndone(cmds: seq<Cmd>, b: Buf)
    requires Clear(b) && NoUndo(cmds)
    ensures var p := Play(cmds, b);
      && !p.Lost? && Sound(p.b)
      && var q := StepOf(UndoCmd, p.b);
      && (q.Stopped? ==> p.b.blank && p.b.t == b.t)
      && (!q.Stopped? ==> q.Went? && q.b.t == b.t && q.b.cur == b.cur && Sound(q.b) && StepOf(UndoCmd, q.b) == Went(p.b))
  {
    PlayUndoable(cmds, b, b);
  }

  // ------------------------------------------------------ global commands

  // The addresses . and 0
  ghost predicate AtDot(a: Addr) {
    forall t, c, l :: a(t, c, l) == c
  }

  ghost predicate AtZero(a: Addr) {
    forall t, c, l :: a(t, c, l) == 0
  }

  // The lines that are not marked, and the texts of those that are.
  ghost function Kept(t: seq<Cell>): seq<Cell> {
    if t == [] then [] else (if t[0].mark then [] else [t[0]]) + Kept(t[1..])
  }

  ghost function Taken(t: seq<Cell>): seq<string> {
    if t == [] then [] else (if t[0].mark then [t[0].text] else []) + Taken(t[1..])
  }

  ghost function Reverse(ts: seq<string>): seq<string> {
    if ts == [] then [] else Reverse(ts[1..]) + [ts[0]]
  }

  lemma {:induction false} KeptAcross(a: seq<Cell>, b: seq<Cell>)
    requires forall i :: 0 <= i < |a| ==> !a[i].mark
    ensures Kept(a + b) == a + Kept(b) && Taken(a + b) == Taken(b)
    decreases |a|
  {
    if a == [] {
      assert a + b == b;
    } else {
      assert (a + b)[1..] == a[1..] + b;
      KeptAcross(a[1..], b);
      assert a + Kept(b) == [a[0]] + (a[1..] + Kept(b));
    }
  }

  // The first marked line taken out of the lines behind the head.
  lemma KeptRound(t: seq<Cell>, k: nat)
    requires 1 <= k < |t| && t[k].mark && forall i :: 1 <= i < k ==> !t[i].mark
    ensures Kept(t[1..]) == Kept(t[1..k] + t[k + 1..])
    ensures Taken(t[1..]) == [t[k].text] + Taken(t[1..k] + t[k + 1..])
  {
    var a, b := t[1..k], t[k + 1..];
    assert t[1..] == a + ([t[k]] + b);
    KeptAcross(a, [t[k]] + b);
    KeptAcross(a, b);
    assert ([t[k]] + b)[1..] == b;
  }

  lemma KeptAll(t: seq<Cell>)
    requires t != [] && forall i :: 1 <= i < |t| ==> !t[i].mark
    ensures t == [t[0]] + Kept(t[1..]) && Taken(t[1..]) == []
  {
    KeptAcross(t[1..], []);
    assert t[1..] + [] == t[1..];
  }

  // A list of one command, as a round plays it.
  lemma PlayOne(cmd: Cmd, b: Buf)
    requires Sound(b) && !cmd.UndoCmd?
    ensures Play([cmd], b) == StepOf(cmd, b)
  {
    hide EffectOf;
    var p := StepOf(cmd, b);
    StepSound(cmd, b);
    assert [cmd][1..] == [];
    if p.Went? {
      assert Play([], p.b) == p;
    }
  }

  lemma DeleteRound(cmd: Cmd, t: seq<Cell>, k: nat)
    requires cmd.DeleteCmd? && AtDot(cmd.from) && AtDot(cmd.upto) && 1 <= k < |t|
    ensures var p := Play([cmd], Start(t, k)); p.Went? && p.b.t == t[..k] + t[k + 1..]
  {
    PlayOne(cmd, Start(t, k));
    assert Cut(Unmarked(t, k), k, k) == t[..k] + t[k + 1..];
  }

  // g with d at the current line leaves exactly the lines that were not marked,
  // in their order.
  lemma {:induction false} GlobDelete(cmd: Cmd, t: seq<Cell>, cur: int)
    requires t != [] && cmd.DeleteCmd? && AtDot(cmd.from) && AtDot(cmd.upto)
    ensures var g := Glob([cmd], t, cur); g.ok && g.t == [t[0]] + Kept(t[1..])
    decreases Marks(t)
  {
    hide Play; hide Marks; hide Kept;
    var k := First(t, 1);
    if k == |t| {
      KeptAll(t);
    } else {
      var p := Play([cmd], Start(t, k));
      DeleteRound(cmd, t, k);
      PlayMarks([cmd], Start(t, k));
      MarksUnmarked(t, k);
      GlobDelete(cmd, p.b.t, p.b.cur);
      KeptRound(t, k);
      assert p.b.t[1..] == t[1..k] + t[k + 1..];
    }
  }

  lemma MoveRound(cmd: Cmd, t: seq<Cell>, k: nat)
    requires cmd.MoveCmd? && AtDot(cmd.from) && AtDot(cmd.upto) && AtZero(cmd.at) && 1 <= k < |t|
    ensures var p := Play([cmd], Start(t, k));
      p.Went? && p.b.t == [t[0]] + ([Cell(t[k].text, false)] + (t[1..k] + t[k + 1..]))
  {
    PlayOne(cmd, Start(t, k));
    var u, c := Unmarked(t, k), Cell(t[k].text, false);
    LineCopied(u, k);
    assert u[1..k] == t[1..k] && u[k + 1..] == t[k + 1..];
    SecondCut(t[0], c, t[1..k], t[k + 1..]);
  }

  // An unmarked line copied to the front, and then taken out where it was.
  lemma LineCopied(u: seq<Cell>, k: nat)
    requires 1 <= k < |u| && !u[k].mark
    ensures Duplicated(u, k, k, 0) == [u[0]] + ([u[k]] + (u[1..k] + ([u[k]] + u[k + 1..])))
  {
    assert Strings(u[k..k + 1]) == [u[k].text];
    assert Plain([u[k].text]) == [u[k]];
    assert u[1..] == u[1..k] + ([u[k]] + u[k + 1..]);
  }

  lemma SecondCut(h: Cell, c: Cell, m: seq<Cell>, z: seq<Cell>)
    ensures Cut([h] + ([c] + (m + ([c] + z))), |m| + 2, |m| + 2) == [h] + ([c] + (m + z))
  {
    var v := [h] + ([c] + (m + ([c] + z)));
    assert v[..|m| + 2] == [h] + ([c] + m);
    assert v[|m| + 3..] == z;
  }

  // g with m0 brings the marked lines to the front, the last one first: where
  // all are marked, it turns the text round.
  lemma {:induction false} GlobReverse(cmd: Cmd, t: seq<Cell>, cur: int)
    requires t != [] && cmd.MoveCmd? && AtDot(cmd.from) && AtDot(cmd.upto) && AtZero(cmd.at)
    ensures var g := Glob([cmd], t, cur); g.ok && g.t == [t[0]] + Plain(Reverse(Taken(t[1..]))) + Kept(t[1..])
    decreases Marks(t)
  {
    hide Play; hide Marks; hide Kept; hide Taken;
    var k := First(t, 1);
    if k == |t| {
      KeptAll(t);
    } else {
      var p, c, rest := Play([cmd], Start(t, k)), Cell(t[k].text, false), t[1..k] + t[k + 1..];
      MoveRound(cmd, t, k);
      PlayMarks([cmd], Start(t, k));
      MarksUnmarked(t, k);
      GlobReverse(cmd, p.b.t, p.b.cur);
      KeptRound(t, k);
      assert p.b.t[1..] == [c] + rest;
      KeptAcross([c], rest);
      assert Taken(t[1..])[1..] == Taken(rest);
      assert Plain(Reverse(Taken(rest)) + [t[k].text]) == Plain(Reverse(Taken(rest))) + [c];
    }
  }

  // The lines of s from number n on that g (or, inverse, v) does not select.
  ghost function Remaining(s: seq<string>, n: nat, line1: int, line2: int, matches: string -> bool, inverse: bool): seq<string>
    decreases |s| - n
  {
    if n >= |s| then []
    else
      var rest := Remaining(s, n + 1, line1, line2, matches, inverse);
      if line1 <= n <= line2 && matches(s[n]) != inverse then rest else [s[n]] + rest
  }

  lemma {:induction false} KeptRemaining(t: seq<Cell>, n: nat, line1: int, line2: int, matches: string -> bool, inverse: bool)
    requires n <= |t|
    requires forall i :: n <= i < |t| ==> (t[i].mark <==> line1 <= i <= line2 && matches(t[i].text) != inverse)
    ensures Strings(Kept(t[n..])) == Remaining(Strings(t), n, line1, line2, matches, inverse)
    decreases |t| - n
  {
    hide Strings;
    if n < |t| {
      KeptRemaining(t, n + 1, line1, line2, matches, inverse);
      assert t[n..][1..] == t[n + 1..];
      StringsFirst(t[n], Kept(t[n + 1..]));
    } else {
      assert Kept(t[n..]) == [];
    }
  }

  lemma StringsFirst(c: Cell, t: seq<Cell>)
    ensures Strings([c] + t) == [c.text] + Strings(t)
  {
  }

  // g/re/d, where the lines that are marked are those that were selected.
  lemma GlobDeleteMatching(cmd: Cmd, t: seq<Cell>, cur: int, line1: int, line2: int, matches: string -> bool, inverse: bool)
    requires t != [] && cmd.DeleteCmd? && AtDot(cmd.from) && AtDot(cmd.upto)
    requires forall i :: 1 <= i < |t| ==> (t[i].mark <==> line1 <= i <= line2 && matches(t[i].text) != inverse)
    ensures Strings(Glob([cmd], t, cur).t) == [t[0].text] + Remaining(Strings(t), 1, line1, line2, matches, inverse)
  {
    hide Glob; hide Kept; hide Remaining; hide Strings; hide AtDot;
    GlobDelete(cmd, t, cur);
    KeptRemaining(t, 1, line1, line2, matches, inverse);
    StringsFirst(t[0], Kept(t[1..]));
  }
}
