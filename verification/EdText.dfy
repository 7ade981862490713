// The commands of ed that change the buffer, as steps on its text: what they
// do to the lines, to the current line, and to what u will bring back.
module EdText {
  const MAXLINE := 4096

  // A line with the mark of the global command. A text is a sequence of them,
  // with the head node of the ring at index 0, so that line n is at index n.
  datatype Cell = Cell(text: string, mark: bool)

  // Lines that are not marked.
  function Plain(ts: seq<string>): (t: seq<Cell>)
    ensures |t| == |ts| && forall i :: 0 <= i < |ts| ==> t[i] == Cell(ts[i], false)
  {
    seq(|ts|, i requires 0 <= i < |ts| => Cell(ts[i], false))
  }

  function Strings(t: seq<Cell>): (ts: seq<string>)
    ensures |ts| == |t| && forall i :: 0 <= i < |t| ==> ts[i] == t[i].text
  {
    seq(|t|, i requires 0 <= i < |t| => t[i].text)
  }

  // Without lines from..to, and with the lines ls behind line n.
  function Cut(t: seq<Cell>, from: nat, to: nat): seq<Cell>
    requires from <= to < |t|
  {
    t[..from] + t[to + 1..]
  }

  function Put(t: seq<Cell>, n: nat, ls: seq<string>): seq<Cell>
    requires n < |t|
  {
    t[..n + 1] + Plain(ls) + t[n + 1..]
  }

  // ------------------------------------------------------------ commands

  // What a substitution makes of one line: nothing matched, new text (one or
  // more lines), or text that does not fit.
  datatype Rewrite = Same | New(first: string, rest: seq<string>) | Fail

  // A command with its addresses, which are worked out from the lines of the
  // buffer and from the current and the last line number when it is reached.
  type Addr = (seq<string>, int, int) -> int

  datatype Cmd =
    | AppendCmd(at: Addr, lines: seq<string>)
    | InsertCmd(at: Addr, lines: seq<string>)
    | ChangeCmd(from: Addr, upto: Addr, lines: seq<string>)
    | DeleteCmd(from: Addr, upto: Addr)
    | CopyCmd(from: Addr, upto: Addr, at: Addr)
    | MoveCmd(from: Addr, upto: Addr, at: Addr)
    | JoinCmd(from: Addr, upto: Addr)
    | SubstCmd(from: Addr, upto: Addr, f: string -> Rewrite)
    | UndoCmd

  predicate NoUndo(cmds: seq<Cmd>) {
    forall i :: 0 <= i < |cmds| ==> !cmds[i].UndoCmd?
  }

  // deflt: is this a range of lines of the buffer?
  predicate InRange(line1: int, line2: int, lastln: int) {
    1 <= line1 <= line2 <= lastln
  }

  // What a command comes to: whether it succeeds, the text, the current line,
  // and whether it recorded an edit.
  datatype Effect = Effect(ok: bool, t: seq<Cell>, cur: int, did: bool)

  function Refused(t: seq<Cell>, cur: int): Effect {
    Effect(false, t, cur, false)
  }

  function Added(t: seq<Cell>, n: nat, ls: seq<string>): Effect
    requires n < |t|
  {
    Effect(true, Put(t, n, ls), n + |ls|, ls != [])
  }

  // i: behind the line in front of line n, where the one in front of line 0 is
  // the last line
  function InFront(n: int, l: int): int {
    if n == 0 then l else n - 1
  }

  function Deleted(t: seq<Cell>, from: nat, to: nat): Effect
    requires 1 <= from <= to < |t|
  {
    var t' := Cut(t, from, to);
    Effect(true, t', if from < |t'| then from else from - 1, true)
  }

  function Duplicated(t: seq<Cell>, from: nat, to: nat, n: nat): seq<Cell>
    requires 1 <= from <= to < |t| && n < |t|
  {
    Put(t, n, Strings(t[from..to + 1]))
  }

  // m copies the lines and deletes them where they were: there are c lines in
  // front of them more than before
  function Shift(from: int, to: int, n: int): int {
    if n > from then 0 else to - from + 1
  }

  function MovedTo(t: seq<Cell>, from: nat, to: nat, n: nat): Effect
    requires 1 <= from <= to < |t| && n < |t| && (n < from || to <= n)
  {
    var c := Shift(from, to, n);
    Effect(true, Cut(Duplicated(t, from, to, n), from + c, to + c), n + c, true)
  }

  // ---------------------------------------------------------------- join

  function Cat(ts: seq<string>): string {
    if ts == [] then "" else Cat(ts[..|ts| - 1]) + ts[|ts| - 1]
  }

  function Joined(t: seq<Cell>, from: nat, to: nat, cur: int): Effect
    requires 1 <= from <= to < |t|
  {
    var s := Cat(Strings(t)[from..to + 1]);
    if from == to then Effect(true, t, cur, false)
    else if |s| >= MAXLINE - 1 then Refused(t, cur)
    else Effect(true, Put(Cut(t, from, to), from - 1, [s]), from, true)
  }

  // ---------------------------------------------------------- substitute

  // What stands for the line `c` when it has been rewritten.
  function Lines(w: Rewrite, c: Cell): seq<Cell> {
    match w
    case Same => [c]
    case New(first, rest) => Plain([first] + rest)
    case Fail => []
  }

  function Flat(f: string -> Rewrite, t: seq<Cell>): seq<Cell> {
    if t == [] then [] else Flat(f, t[..|t| - 1]) + Lines(f(t[|t| - 1].text), t[|t| - 1])
  }

  // The text when the first k lines from line1 on have been rewritten.
  function Rewritten(f: string -> Rewrite, t: seq<Cell>, line1: nat, k: nat): seq<Cell>
    requires line1 + k <= |t|
  {
    t[..line1] + Flat(f, t[line1..line1 + k]) + t[line1 + k..]
  }

  // Where the next line to be rewritten is then.
  function Pos(f: string -> Rewrite, t: seq<Cell>, line1: nat, k: nat): nat
    requires line1 + k <= |t|
  {
    line1 + |Flat(f, t[line1..line1 + k])|
  }

  // How many lines come before the first one whose new text does not fit.
  function Fitting(f: string -> Rewrite, t: seq<Cell>): (k: nat)
    ensures k <= |t|
  {
    if t == [] || f(t[0].text).Fail? then 0 else 1 + Fitting(f, t[1..])
  }

  predicate Changes(f: string -> Rewrite, t: seq<Cell>) {
    exists i :: 0 <= i < |t| && f(t[i].text).New?
  }

  function Substituted(f: string -> Rewrite, t: seq<Cell>, from: nat, to: nat): Effect
    requires 1 <= from <= to < |t|
  {
    var k := Fitting(f, t[from..to + 1]);
    var ok := k == to - from + 1;
    Effect(ok, Rewritten(f, t, from, k), Pos(f, t, from, k) - (if ok then 1 else 0), Changes(f, t[from..from + k]))
  }

  // ------------------------------------------------------- command lists

  function EffectOf(cmd: Cmd, t: seq<Cell>, cur: int): Effect
    requires t != [] && !cmd.UndoCmd?
  {
    var s, l := Strings(t), |t| - 1;
    match cmd
    case AppendCmd(at, lines) =>
      var n := at(s, cur, l);
      if 0 <= n <= l then Added(t, n, lines) else Refused(t, cur)
    case InsertCmd(at, lines) =>
      var n := at(s, cur, l);
      if 0 <= n <= l then Added(t, InFront(n, l), lines) else Refused(t, cur)
    case ChangeCmd(from, upto, lines) =>
      var a, b := from(s, cur, l), upto(s, cur, l);
      if InRange(a, b, l) then Added(Cut(t, a, b), a - 1, lines).(did := true) else Refused(t, cur)
    case DeleteCmd(from, upto) =>
      var a, b := from(s, cur, l), upto(s, cur, l);
      if InRange(a, b, l) then Deleted(t, a, b) else Refused(t, cur)
    case CopyCmd(from, upto, at) =>
      var a, b, n := from(s, cur, l), upto(s, cur, l), at(s, cur, l);
      if InRange(a, b, l) && 0 <= n <= l then Effect(true, Duplicated(t, a, b, n), n + (b - a + 1), true) else Refused(t, cur)
    case MoveCmd(from, upto, at) =>
      var a, b, n := from(s, cur, l), upto(s, cur, l), at(s, cur, l);
      if InRange(a, b, l) && 0 <= n <= l && (n < a || b <= n) then MovedTo(t, a, b, n) else Refused(t, cur)
    case JoinCmd(from, upto) =>
      var a, b := from(s, cur, l), upto(s, cur, l);
      if InRange(a, b, l) then Joined(t, a, b, cur) else Refused(t, cur)
    case SubstCmd(from, upto, f) =>
      var a, b := from(s, cur, l), upto(s, cur, l);
      if InRange(a, b, l) then Substituted(f, t, a, b) else Refused(t, cur)
  }

  // The text with what u needs: the text and the line at the other end of the
  // undo stack, which end that is, whether the stack can no longer be trusted,
  // and whether it is empty.
  datatype Buf = Buf(t: seq<Cell>, cur: int, other: seq<Cell>, ucur: int, usw: bool, stale: bool, blank: bool)

  predicate Sound(b: Buf) {
    b.t != [] && (!b.stale ==> b.other != [])
  }

  function After(b: Buf, e: Effect): Buf {
    var stale := b.stale || (b.usw && e.did);
    Buf(e.t, e.cur, if stale then [] else b.other, b.ucur, b.usw, stale, b.blank && !e.did)
  }

  // A command list goes to its end or stops at its first error. A u that
  // replays a stack with an edit recorded on its wrong side is lost: what it
  // makes of the buffer does not follow from the text.
  datatype Played = Went(b: Buf) | Stopped(b: Buf) | Lost

  function StepOf(cmd: Cmd, b: Buf): (p: Played)
    requires Sound(b)
  {
    if !cmd.UndoCmd? then
      var e := EffectOf(cmd, b.t, b.cur);
      if e.ok then Went(After(b, e)) else Stopped(After(b, e))
    else if b.stale then
      Lost
    else if b.blank then
      Stopped(b)
    else
      Went(Buf(b.other, b.ucur, b.t, b.cur, !b.usw, false, false))
  }

  // The head node stays.
  lemma EffectHead(cmd: Cmd, t: seq<Cell>, cur: int)
    requires t != [] && !cmd.UndoCmd?
    ensures EffectOf(cmd, t, cur).t != [] && EffectOf(cmd, t, cur).t[0] == t[0]
  {
    hide Flat; hide Cat; hide Fitting;
  }

  lemma StepSound(cmd: Cmd, b: Buf)
    requires Sound(b)
    ensures var p := StepOf(cmd, b); !p.Lost? ==> Sound(p.b)
  {
    hide EffectOf;
    if !cmd.UndoCmd? {
      EffectHead(cmd, b.t, b.cur);
    }
  }

  function Play(cmds: seq<Cmd>, b: Buf): (p: Played)
    requires Sound(b)
    decreases |cmds|
  {
    if cmds == [] then Went(b)
    else
      var p := StepOf(cmds[0], b);
      StepSound(cmds[0], b);
      if p.Went? then Play(cmds[1..], p.b) else p
  }

  // --------------------------------------------------------------- marks

  function Marks(t: seq<Cell>): nat {
    if t == [] then 0 else Marks(t[..|t| - 1]) + if t[|t| - 1].mark then 1 else 0
  }

  lemma {:induction false} MarksCat(a: seq<Cell>, b: seq<Cell>)
    ensures Marks(a + b) == Marks(a) + Marks(b)
    decreases |b|
  {
    if b == [] {
      assert a + b == a;
    } else {
      assert (a + b)[..|a + b| - 1] == a + b[..|b| - 1];
      MarksCat(a, b[..|b| - 1]);
    }
  }

  lemma {:induction false} MarksPlain(ts: seq<string>)
    ensures Marks(Plain(ts)) == 0
    decreases |ts|
  {
    if ts != [] {
      var t := Plain(ts);
      assert t[..|t| - 1] == Plain(ts[..|ts| - 1]);
      MarksPlain(ts[..|ts| - 1]);
    }
  }

  lemma MarksSplit(t: seq<Cell>, n: nat)
    requires n <= |t|
    ensures Marks(t) == Marks(t[..n]) + Marks(t[n..])
  {
    assert t == t[..n] + t[n..];
    MarksCat(t[..n], t[n..]);
  }

  lemma MarksCut(t: seq<Cell>, from: nat, to: nat)
    requires from <= to < |t|
    ensures Marks(Cut(t, from, to)) <= Marks(t)
  {
    MarksSplit(t, from);
    MarksSplit(t[from..], to + 1 - from);
    assert t[from..][to + 1 - from..] == t[to + 1..];
    MarksCat(t[..from], t[to + 1..]);
  }

  lemma MarksPut(t: seq<Cell>, n: nat, ls: seq<string>)
    requires n < |t|
    ensures Marks(Put(t, n, ls)) == Marks(t)
  {
    MarksSplit(t, n + 1);
    MarksPlain(ls);
    MarksCat(t[..n + 1], Plain(ls));
    MarksCat(t[..n + 1] + Plain(ls), t[n + 1..]);
  }

  lemma {:induction false} MarksFlat(f: string -> Rewrite, t: seq<Cell>)
    ensures Marks(Flat(f, t)) <= Marks(t)
    decreases |t|
  {
    if t != [] {
      var c := t[|t| - 1];
      MarksFlat(f, t[..|t| - 1]);
      MarksCat(Flat(f, t[..|t| - 1]), Lines(f(c.text), c));
      if f(c.text).New? {
        MarksPlain([f(c.text).first] + f(c.text).rest);
      }
    }
  }

  lemma MarksRewritten(f: string -> Rewrite, t: seq<Cell>, line1: nat, k: nat)
    requires line1 + k <= |t|
    ensures Marks(Rewritten(f, t, line1, k)) <= Marks(t)
  {
    hide Flat;
    var m := t[line1..line1 + k];
    MarksSplit(t, line1);
    MarksSplit(t[line1..], k);
    assert t[line1..][k..] == t[line1 + k..] && t[line1..][..k] == m;
    MarksFlat(f, m);
    MarksCat(t[..line1], Flat(f, m));
    MarksCat(t[..line1] + Flat(f, m), t[line1 + k..]);
  }

  // No command marks a line.
  lemma EffectMarks(cmd: Cmd, t: seq<Cell>, cur: int)
    requires t != [] && !cmd.UndoCmd?
    ensures Marks(EffectOf(cmd, t, cur).t) <= Marks(t)
  {
    hide Marks; hide Cut; hide Put; hide Rewritten; hide Cat; hide Fitting; hide Pos; hide Changes;
    CutSize();
    var s, l := Strings(t), |t| - 1;
    match cmd {
      case AppendCmd(at, lines) =>
        var n := at(s, cur, l);
        if 0 <= n <= l { MarksPut(t, n, lines); }
      case InsertCmd(at, lines) =>
        var n := at(s, cur, l);
        if 0 <= n <= l { MarksPut(t, InFront(n, l), lines); }
      case ChangeCmd(from, upto, lines) =>
        var a, b := from(s, cur, l), upto(s, cur, l);
        if InRange(a, b, l) {
          MarksCut(t, a, b);
          MarksPut(Cut(t, a, b), a - 1, lines);
        }
      case DeleteCmd(from, upto) =>
        var a, b := from(s, cur, l), upto(s, cur, l);
        if InRange(a, b, l) { MarksCut(t, a, b); }
      case CopyCmd(from, upto, at) =>
        var a, b, n := from(s, cur, l), upto(s, cur, l), at(s, cur, l);
        if InRange(a, b, l) && 0 <= n <= l { MarksPut(t, n, Strings(t[a..b + 1])); }
      case MoveCmd(from, upto, at) =>
        var a, b, n := from(s, cur, l), upto(s, cur, l), at(s, cur, l);
        if InRange(a, b, l) && 0 <= n <= l && (n < a || b <= n) {
          MarksPut(t, n, Strings(t[a..b + 1]));
          MarksCut(Duplicated(t, a, b, n), a + Shift(a, b, n), b + Shift(a, b, n));
        }
      case JoinCmd(from, upto) =>
        var a, b := from(s, cur, l), upto(s, cur, l);
        if InRange(a, b, l) {
          MarksCut(t, a, b);
          MarksPut(Cut(t, a, b), a - 1, [Cat(s[a..b + 1])]);
        }
      case SubstCmd(from, upto, f) =>
        var a, b := from(s, cur, l), upto(s, cur, l);
        if InRange(a, b, l) { MarksRewritten(f, t, a, Fitting(f, t[a..b + 1])); }
    }
  }

  lemma CutSize()
    ensures forall t: seq<Cell>, from: nat, to: nat | from <= to < |t| :: |Cut(t, from, to)| == |t| - (to - from + 1)
    ensures forall t: seq<Cell>, n: nat, ls: seq<string> | n < |t| :: |Put(t, n, ls)| == |t| + |ls|
  {
  }

  // ------------------------------------------------------- global commands

  // A list without u goes by the text and the current line alone.
  predicate Alike(p: Played, q: Played) {
    !p.Lost? && !q.Lost? && p.Went? == q.Went? && p.b.t == q.b.t && p.b.cur == q.b.cur
  }

  lemma {:induction false} PlayAlone(cmds: seq<Cmd>, b: Buf, b': Buf)
    requires Sound(b) && Sound(b') && b.t == b'.t && b.cur == b'.cur && NoUndo(cmds)
    ensures Alike(Play(cmds, b), Play(cmds, b'))
    decreases |cmds|
  {
    hide EffectOf;
    if cmds != [] {
      var p, p' := StepOf(cmds[0], b), StepOf(cmds[0], b');
      StepSound(cmds[0], b);
      StepSound(cmds[0], b');
      if p.Went? {
        PlayAlone(cmds[1..], p.b, p'.b);
      }
    }
  }

  lemma {:induction false} PlayMarks(cmds: seq<Cmd>, b: Buf)
    requires Sound(b) && NoUndo(cmds)
    ensures var p := Play(cmds, b); !p.Lost? && Sound(p.b) && Marks(p.b.t) <= Marks(b.t) && p.b.t[0] == b.t[0]
    decreases |cmds|
  {
    hide EffectOf; hide Marks;
    if cmds != [] {
      var p := StepOf(cmds[0], b);
      StepSound(cmds[0], b);
      EffectMarks(cmds[0], b.t, b.cur);
      EffectHead(cmds[0], b.t, b.cur);
      if p.Went? {
        PlayMarks(cmds[1..], p.b);
      }
    }
  }

  // The first marked line from line n on, or the number behind the last one.
  function First(t: seq<Cell>, n: nat): (k: nat)
    requires n <= |t|
    ensures n <= k <= |t| && (k < |t| ==> t[k].mark) && forall i :: n <= i < k ==> !t[i].mark
    decreases |t| - n
  {
    if n == |t| || t[n].mark then n else First(t, n + 1)
  }

  lemma {:induction false} FirstIs(t: seq<Cell>, n: nat, k: nat)
    requires n <= k <= |t| && (k < |t| ==> t[k].mark) && forall i :: n <= i < k ==> !t[i].mark
    ensures First(t, n) == k
  {
  }

  function Unmarked(t: seq<Cell>, k: nat): seq<Cell>
    requires k < |t|
  {
    t[k := Cell(t[k].text, false)]
  }

  lemma MarksUnmarked(t: seq<Cell>, k: nat)
    requires k < |t| && t[k].mark
    ensures Marks(Unmarked(t, k)) == Marks(t) - 1
  {
    var c, a, b := t[k], t[..k], t[k + 1..];
    assert t == a + [c] + b && Unmarked(t, k) == a + [Cell(c.text, false)] + b;
    MarksCat(a + [c], b);
    MarksCat(a + [Cell(c.text, false)], b);
    MarksCat(a, [c]);
    MarksCat(a, [Cell(c.text, false)]);
  }

  // A round starts with the first marked line, which is unmarked and current.
  function Start(t: seq<Cell>, k: nat): Buf
    requires k < |t|
  {
    Buf(Unmarked(t, k), k, t, 0, false, false, true)
  }

  // The whole of a global command.
  datatype Globbed = Globbed(ok: bool, t: seq<Cell>, cur: int)

  function Glob(cmds: seq<Cmd>, t: seq<Cell>, cur: int): (g: Globbed)
    requires t != [] && NoUndo(cmds)
    decreases Marks(t)
  {
    var k := First(t, 1);
    if k == |t| then Globbed(true, t, cur)
    else
      var p := Play(cmds, Start(t, k));
      PlayMarks(cmds, Start(t, k));
      MarksUnmarked(t, k);
      if p.Went? then Glob(cmds, p.b.t, p.b.cur) else Globbed(false, p.b.t, p.b.cur)
  }
}
