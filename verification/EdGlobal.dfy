// The global commands of ed (g and v), and runs of commands with undo.
module EdGlobal {
  import opened EdRing
  import opened EdBuffer
  import opened EdText
  import opened EdCommands
  import opened EdRewrite
  import opened EdLaws
  import L = EdLoose

  // Only links matter to the buffer, so marking a line keeps it.
  method SetActv(nd: Line, on: bool, ghost r: seq<Line>, ghost sound: bool, ghost hist: seq<seq<Line>>,
                 ghost eds: seq<Edit>, ghost c: int, ghost s: set<Line>)
    requires Ring(r) && (sound ==> |hist| == |eds| + 1 && Ready(hist, eds, c, -1, s))
    modifies nd`actv
    ensures nd.actv == on && Ring(r) && (sound ==> Ready(hist, eds, c, -1, s))
  {
    hide NoDup; hide Within;
    nd.actv := on;
    assert Chain(r) by {
      assert old(Chain(r));
    }
    forall k | sound && 0 <= k < |eds| && Out(eds[k], k, c)
      ensures Step(hist[k], eds[k], hist[k + 1])
      ensures Within(eds[k].nodes, s)
      ensures Detached(eds[k], Small(hist, eds, k))
    {
      assert old(Detached(eds[k], Small(hist, eds, k)));
    }
  }

  method Mark(ed: Editor, nd: Line, on: bool)
    requires ed.Valid() && nd in ed.repr
    modifies nd`actv
    ensures ed.Valid() && nd.actv == on
  {
    hide Recorded; hide Ready; hide Covered; hide Ring;
    if !ed.stale {
      ed.StackSize();
    }
    SetActv(nd, on, ed.ring, !ed.stale, ed.hist, ed.eds, if ed.usw then 0 else |ed.eds|, ed.repr);
  }

  // ------------------------------------------------------- command runs

  // The buffer is in order, unless a u has replayed a stale stack.
  ghost predicate Fine(ed: Editor, loose: bool)
    reads ed, ed.repr
  {
    ed.Held() && (!loose ==> ed.Valid())
  }

  // What u will exchange the buffer with.
  ghost function OtherEnd(ed: Editor): seq<Line>
    requires ed.hist != []
    reads ed
  {
    if ed.usw then ed.hist[|ed.hist| - 1] else ed.hist[0]
  }

  // What the steps on the text see of the buffer.
  ghost function View(ed: Editor): Buf
    requires ed.Valid()
    reads ed, ed.repr
  {
    Buf(Cells(ed.ring), ed.curln, if ed.stale then [] else Cells(OtherEnd(ed)), ed.ucurln, ed.usw, ed.stale, ed.ustack == [])
  }

  // An edit has done what the text calls for.
  twostate predicate Performed(ed: Editor, ok: bool, e: Effect)
    reads ed, ed.ring
  {
    ok == e.ok && Cells(ed.ring) == e.t && ed.curln == e.cur && Edited(ed, e.did)
  }

  // A list has ended as the text calls for.
  ghost predicate Agrees(ed: Editor, how: Outcome, loose: bool, p: Played)
    reads ed, ed.repr
  {
    && loose == p.Lost?
    && (!loose ==> how == (if p.Went? then Done else Failed) && ed.Valid() && View(ed) == p.b)
  }

  // The lines, for addresses that search them.
  method Lines(ed: Editor) returns (t: seq<string>)
    requires ed.Valid()
    ensures t == Texts(ed.ring)
  {
    hide Recorded; hide Ready; hide Covered; hide Ring; hide Closed; hide StackIn;
    Next(ed, 0);
    var nd, n := ed.line0, 0;
    t := [];
    while n <= ed.lastln
      invariant 0 <= n <= ed.lastln + 1 == |ed.ring| && nd == At(ed.ring, n)
      invariant t == Texts(ed.ring)[..n]
    {
      Next(ed, n);
      t, n, nd := t + [nd.text], n + 1, nd.next;
    }
  }

  // c and d
  method Change(ed: Editor, from: int, to: int, lines: seq<string>)
    requires ed.Valid() && InRange(from, to, ed.lastln)
    modifies ed, ed.repr`next, ed.repr`prev
    ensures Keeps(ed) && |old(ed.ring)| == old(ed.lastln) + 1
    ensures Performed(ed, true, Added(Cut(old(Cells(ed.ring)), from, to), from - 1, lines).(did := true))
  {
    hide Recorded; hide Ready; hide Covered; hide Ring; hide Closed; hide StackIn; hide Texts; hide Cells; hide Cut; hide Put;
    Delete(ed, from, to);
    ghost var news := Append(ed, ed.curln, lines);
  }

  method DeleteLines(ed: Editor, from: int, to: int)
    requires ed.Valid() && InRange(from, to, ed.lastln)
    modifies ed, ed.repr`next, ed.repr`prev
    ensures Keeps(ed) && |old(ed.ring)| == old(ed.lastln) + 1
    ensures Performed(ed, true, Deleted(old(Cells(ed.ring)), from, to))
  {
    hide Recorded; hide Ready; hide Covered; hide Ring; hide Closed; hide StackIn; hide Texts; hide Cells;
    Delete(ed, from, to);
    if Editor.Nextln(ed.curln, ed.lastln) != 0 {
      ed.curln := Editor.Nextln(ed.curln, ed.lastln);
    }
  }

  // a, i, c and d
  method Exec1(ed: Editor, cmd: Cmd, t: seq<string>) returns (ok: bool)
    requires ed.Valid() && (cmd.AppendCmd? || cmd.InsertCmd? || cmd.ChangeCmd? || cmd.DeleteCmd?)
    requires t == Strings(Cells(ed.ring)) && |ed.ring| == ed.lastln + 1
    modifies ed, ed.repr`next, ed.repr`prev
    ensures Keeps(ed) && Performed(ed, ok, EffectOf(cmd, old(Cells(ed.ring)), old(ed.curln)))
  {
    hide Recorded; hide Ready; hide Covered; hide Ring; hide Closed; hide StackIn; hide Texts; hide Cells;
    hide Cut; hide Put;
    var c, l := ed.curln, ed.lastln;
    match cmd {
      case AppendCmd(at, lines) =>
        ok := 0 <= at(t, c, l) <= l;
        if ok {
          ghost var news := Append(ed, at(t, c, l), lines);
        }
      case InsertCmd(at, lines) =>
        ok := 0 <= at(t, c, l) <= l;
        if ok {
          ghost var news := Append(ed, Editor.Prevln(at(t, c, l), l), lines);
        }
      case ChangeCmd(from, upto, lines) =>
        ok := InRange(from(t, c, l), upto(t, c, l), l);
        if ok {
          Change(ed, from(t, c, l), upto(t, c, l), lines);
        }
      case DeleteCmd(from, upto) =>
        ok := InRange(from(t, c, l), upto(t, c, l), l);
        if ok {
          DeleteLines(ed, from(t, c, l), upto(t, c, l));
        }
    }
  }

  // t, m, j and s
  method Exec2(ed: Editor, cmd: Cmd, t: seq<string>) returns (ok: bool)
    requires ed.Valid() && (cmd.CopyCmd? || cmd.MoveCmd? || cmd.JoinCmd? || cmd.SubstCmd?)
    requires t == Strings(Cells(ed.ring)) && |ed.ring| == ed.lastln + 1
    modifies ed, ed.repr`next, ed.repr`prev
    ensures Keeps(ed) && Performed(ed, ok, EffectOf(cmd, old(Cells(ed.ring)), old(ed.curln)))
  {
    hide Recorded; hide Ready; hide Covered; hide Ring; hide Closed; hide StackIn; hide Copied; hide Moved; hide Texts; hide Cells;
    var c, l := ed.curln, ed.lastln;
    match cmd {
      case CopyCmd(from, upto, at) =>
        ok := InRange(from(t, c, l), upto(t, c, l), l) && 0 <= at(t, c, l) <= l;
        if ok {
          ghost var news := Transfer(ed, from(t, c, l), upto(t, c, l), at(t, c, l));
        }
      case MoveCmd(from, upto, at) =>
        ok := InRange(from(t, c, l), upto(t, c, l), l) && 0 <= at(t, c, l) <= l;
        if ok {
          ok := Move(ed, from(t, c, l), upto(t, c, l), at(t, c, l));
        }
      case JoinCmd(from, upto) =>
        ok := InRange(from(t, c, l), upto(t, c, l), l);
        if ok {
          ok := Join(ed, from(t, c, l), upto(t, c, l));
        }
      case SubstCmd(from, upto, f) =>
        ok := InRange(from(t, c, l), upto(t, c, l), l);
        if ok {
          var done, nsubs := Subst(ed, from(t, c, l), upto(t, c, l), f);
          ok := done == upto(t, c, l) - from(t, c, l) + 1;
        }
    }
  }

  // The same commands on a buffer that is in no order.
  method ExecLoose(ed: Editor, cmd: Cmd) returns (how: Outcome)
    requires ed.Held()
    modifies ed, ed.repr`next, ed.repr`prev
    ensures L.Stays(ed)
  {
    var t := L.Lines(ed);
    var c, l := ed.curln, ed.lastln;
    how := Failed;
    match cmd {
      case AppendCmd(at, lines) =>
        if 0 <= at(t, c, l) <= l {
          L.Append(ed, at(t, c, l), lines);
          how := Done;
        }
      case InsertCmd(at, lines) =>
        if 0 <= at(t, c, l) <= l {
          L.Append(ed, Editor.Prevln(at(t, c, l), l), lines);
          how := Done;
        }
      case ChangeCmd(from, upto, lines) =>
        if InRange(from(t, c, l), upto(t, c, l), l) {
          L.Del(ed, from(t, c, l), upto(t, c, l));
          L.Append(ed, ed.curln, lines);
          how := Done;
        }
      case DeleteCmd(from, upto) =>
        if InRange(from(t, c, l), upto(t, c, l), l) {
          L.Del(ed, from(t, c, l), upto(t, c, l));
          if Editor.Nextln(ed.curln, ed.lastln) != 0 {
            ed.curln := Editor.Nextln(ed.curln, ed.lastln);
          }
          how := Done;
        }
      case CopyCmd(from, upto, at) =>
        if InRange(from(t, c, l), upto(t, c, l), l) && 0 <= at(t, c, l) <= l {
          L.Transfer(ed, from(t, c, l), upto(t, c, l), at(t, c, l));
          how := Done;
        }
      case MoveCmd(from, upto, at) =>
        if InRange(from(t, c, l), upto(t, c, l), l) && 0 <= at(t, c, l) <= l {
          var ok := L.Move(ed, from(t, c, l), upto(t, c, l), at(t, c, l));
          how := if ok then Done else Failed;
        }
      case JoinCmd(from, upto) =>
        if InRange(from(t, c, l), upto(t, c, l), l) {
          how := L.Join(ed, from(t, c, l), upto(t, c, l));
        }
      case SubstCmd(from, upto, f) =>
        if InRange(from(t, c, l), upto(t, c, l), l) {
          how := L.Subst(ed, from(t, c, l), upto(t, c, l), f);
        }
      case UndoCmd =>
        how := L.Undo(ed);
    }
  }

  // Any of them but u.
  method ExecEdit(ed: Editor, cmd: Cmd) returns (ok: bool)
    requires ed.Valid() && !cmd.UndoCmd?
    modifies ed, ed.repr`next, ed.repr`prev
    ensures Keeps(ed) && old(Cells(ed.ring)) != []
    ensures Performed(ed, ok, EffectOf(cmd, old(Cells(ed.ring)), old(ed.curln)))
  {
    hide Recorded; hide Ready; hide Covered; hide Ring; hide Closed; hide StackIn; hide Texts; hide Cells; hide EffectOf;
    RingLength(ed);
    CellsText(ed.ring);
    var t := Lines(ed);
    if cmd.AppendCmd? || cmd.InsertCmd? || cmd.ChangeCmd? || cmd.DeleteCmd? {
      ok := Exec1(ed, cmd, t);
    } else {
      ok := Exec2(ed, cmd, t);
    }
  }

  lemma ViewSound(ed: Editor)
    requires ed.Valid()
    ensures Sound(View(ed)) && Fine(ed, false)
  {
    ed.ValidHeld();
  }

  lemma ViewParts(ed: Editor)
    requires ed.Valid()
    ensures View(ed).t == Cells(ed.ring) && View(ed).cur == ed.curln && View(ed).stale == ed.stale
    ensures |Cells(ed.ring)| == |ed.ring| == ed.lastln + 1
  {
  }

  // What an edit does to the buffer, it does to what the steps see of it.
  twostate lemma AfterEdit(ed: Editor, new ok: bool, new e: Effect)
    requires Keeps(ed) && Performed(ed, ok, e)
    requires Cells(old(OtherEnd(ed))) == old(Cells(OtherEnd(ed)))
    ensures View(ed) == After(old(View(ed)), e)
  {
    hide Cells; hide Recorded; hide Ready; hide Covered; hide Ring; hide Closed; hide StackIn;
  }

  method ExecSeen(ed: Editor, cmd: Cmd) returns (how: Outcome)
    requires ed.Valid() && !cmd.UndoCmd?
    modifies ed, ed.repr`next, ed.repr`prev
    ensures Keeps(ed) && Sound(old(View(ed)))
    ensures Agrees(ed, how, false, StepOf(cmd, old(View(ed))))
  {
    hide Recorded; hide Ready; hide Covered; hide Ring; hide Closed; hide StackIn; hide Cells; hide EffectOf; hide Editor.Coherent;
    ViewSound(ed);
    var ok := ExecEdit(ed, cmd);
    AfterEdit(ed, ok, EffectOf(cmd, old(Cells(ed.ring)), old(ed.curln)));
    how := if ok then Done else Failed;
  }

  // u exchanges the buffer with the one at the other end of its history.
  method ExecUndo(ed: Editor) returns (how: Outcome)
    requires ed.Valid() && !ed.stale
    modifies ed, ed.repr`next, ed.repr`prev
    ensures ed.Valid() && L.Stays(ed) && Sound(old(View(ed)))
    ensures Agrees(ed, how, false, StepOf(UndoCmd, old(View(ed))))
  {
    hide Recorded; hide Ready; hide Covered; hide Ring; hide Closed; hide StackIn; hide Cells;
    ViewSound(ed);
    ed.StackSize();
    var ok := ed.Undo();
    ed.StackSize();
    ed.ValidHeld();
    how := if ok then Done else Failed;
  }

  // docmd, for these commands, whatever usw and the stack are. A u that finds
  // a stale stack replays it like any other, and leaves the buffer loose.
  method Exec(ed: Editor, cmd: Cmd, loose0: bool) returns (how: Outcome, loose: bool)
    requires Fine(ed, loose0)
    modifies ed, ed.repr`next, ed.repr`prev
    ensures L.Stays(ed) && Fine(ed, loose) && (how == Endless ==> loose)
    ensures loose <==> loose0 || (cmd.UndoCmd? && old(ed.stale))
    ensures !loose && !cmd.UndoCmd? ==> Keeps(ed)
    ensures !loose0 ==> Sound(old(View(ed))) && Agrees(ed, how, loose, StepOf(cmd, old(View(ed))))
  {
    hide Recorded; hide Ready; hide Covered; hide Ring; hide Closed; hide StackIn; hide EffectOf; hide View;
    loose := loose0;
    if loose {
      how := ExecLoose(ed, cmd);
      return;
    }
    ViewSound(ed);
    ViewParts(ed);
    if !cmd.UndoCmd? {
      how := ExecSeen(ed, cmd);
      ed.ValidHeld();
    } else if !ed.stale {
      how := ExecUndo(ed);
    } else {
      how := L.Undo(ed);
      loose := true;
    }
  }

  // A command list, run up to its first error.
  method Run(ed: Editor, cmds: seq<Cmd>, loose0: bool) returns (how: Outcome, loose: bool)
    requires Fine(ed, loose0)
    modifies ed, ed.repr`next, ed.repr`prev
    ensures L.Stays(ed) && Fine(ed, loose) && (how == Endless ==> loose)
    ensures !loose0 && NoUndo(cmds) ==> !loose && Keeps(ed)
    ensures !loose0 ==> Sound(old(View(ed))) && Agrees(ed, how, loose, Play(cmds, old(View(ed))))
  {
    hide Recorded; hide Ready; hide Covered; hide Ring; hide Closed; hide StackIn; hide View; hide StepOf;
    loose := loose0;
    var k := 0;
    if !loose {
      ViewSound(ed);
    }
    assert cmds[0..] == cmds;
    while k < |cmds|
      invariant 0 <= k <= |cmds| && L.Stays(ed) && Fine(ed, loose)
      invariant !loose0 && NoUndo(cmds) ==> !loose && Keeps(ed)
      invariant !loose0 ==> Sound(old(View(ed)))
      invariant !loose0 && loose ==> Play(cmds, old(View(ed))) == Lost
      invariant !loose ==> !loose0 && Sound(View(ed)) && Play(cmds, old(View(ed))) == Play(cmds[k..], View(ed))
    {
      if !loose {
        PlayNext(cmds, k, View(ed));
      }
      how, loose := Exec(ed, cmds[k], loose);
      if how != Done {
        return;
      }
      if !loose {
        ViewSound(ed);
      }
      k := k + 1;
    }
    how := Done;
  }

  // The next command of a list that has come to number k.
  lemma PlayNext(cmds: seq<Cmd>, k: nat, b: Buf)
    requires k < |cmds| && Sound(b)
    ensures var p := StepOf(cmds[k], b);
      (p.Went? ==> Sound(p.b)) && Play(cmds[k..], b) == if p.Went? then Play(cmds[k + 1..], p.b) else p
  {
    hide StepOf;
    StepSound(cmds[k], b);
    assert cmds[k..][1..] == cmds[k + 1..];
  }

  // --------------------------------------------------------------- undo

  // The links of a valid buffer are those that its sequence of lines dictates.
  lemma RingDictates(ed: Editor)
    requires ed.Valid()
    ensures |ed.ring| == ed.lastln + 1
    ensures forall i :: 0 <= i < |ed.ring| ==> ed.ring[i].next == At(ed.ring, i + 1)
    ensures forall i :: 0 <= i < |ed.ring| ==> ed.ring[i].prev == ed.ring[if i == 0 then |ed.ring| - 1 else i - 1]
  {
    forall i | 0 <= i < |ed.ring|
      ensures ed.ring[i].next == At(ed.ring, i + 1)
      ensures ed.ring[i].prev == ed.ring[if i == 0 then |ed.ring| - 1 else i - 1]
    {
      ed.RingLinks(i);
    }
  }

  // Nothing but the undo stack tells a buffer before a run of edits from the
  // one after the run is undone: same lines, same nodes, same links.
  method EditThenUndo(ed: Editor, cmds: seq<Cmd>) returns (undone: bool)
    requires ed.Valid() && !ed.stale && NoUndo(cmds)
    modifies ed, ed.repr
    ensures ed.Valid() && ed.ring == old(ed.ring) && ed.lastln == old(ed.lastln)
    ensures undone ==> ed.curln == old(ed.curln)
    ensures undone <==> ed.eds != []
    ensures forall x :: x in ed.ring ==> x.next == old(x.next) && x.prev == old(x.prev)
  {
    hide Recorded; hide Ready; hide Covered; hide Ring; hide Closed; hide StackIn; hide At; hide Agrees; hide View; hide Play;
    RingDictates(ed);
    ghost var r := ed.ring;
    var freed := UReset(ed);
    ed.ValidHeld();
    var how, loose := Run(ed, cmds, false);
    ed.StackSize();
    undone := ed.Undo();
    ed.StackSize();
    RingDictates(ed);
    assert ed.ring == r;
    forall x | x in r ensures x.next == old(x.next) && x.prev == old(x.prev) {
      var i :| 0 <= i < |r| && r[i] == x;
      assert old(r[i].next) == At(r, i + 1) == r[i].next;
      assert old(r[i].prev) == r[if i == 0 then |r| - 1 else i - 1] == r[i].prev;
    }
  }

  // A second undo takes back the first, at any time.
  method UndoTwice(ed: Editor)
    requires ed.Valid() && !ed.stale
    modifies ed, ed.repr`next, ed.repr`prev
    ensures ed.Valid() && ed.ring == old(ed.ring) && ed.lastln == old(ed.lastln)
    ensures ed.curln == old(ed.curln) && ed.ucurln == old(ed.ucurln) && ed.usw == old(ed.usw)
    ensures forall x :: x in ed.ring ==> x.next == old(x.next) && x.prev == old(x.prev)
  {
    hide Recorded; hide Ready; hide Covered; hide Ring; hide Closed; hide StackIn; hide At;
    RingDictates(ed);
    ghost var r := ed.ring;
    ed.StackSize();
    var a := ed.Undo();
    var b := ed.Undo();
    RingDictates(ed);
    assert ed.ring == r;
    forall x | x in r ensures x.next == old(x.next) && x.prev == old(x.prev) {
      var i :| 0 <= i < |r| && r[i] == x;
      assert old(r[i].next) == At(r, i + 1) == r[i].next;
      assert old(r[i].prev) == r[if i == 0 then |r| - 1 else i - 1] == r[i].prev;
    }
  }

  // What becomes of a buffer when a global command deletes two lines and takes
  // each deletion back: the second u replays the record that was made while usw
  // was set as if its line were in. The links from the head on pass over the
  // first two lines, one line more than lastln counts, and the next line points
  // back at one that is out.
  method TwoUndone(ed: Editor)
    requires ed.Valid() && !ed.usw && !ed.stale && ed.ustack == [] && ed.lastln >= 3
    modifies ed, ed.repr`next, ed.repr`prev
    ensures var r := old(ed.ring);
      && |r| == old(ed.lastln) + 1 && ed.lastln == |r[3..]| - 1
      && r[0].next == r[3] && (forall i :: 3 <= i < |r| ==> r[i].next == At(r, i + 1))
      && r[3].prev == r[1]
    ensures !ed.usw
  {
    hide Recorded; hide Ready; hide Covered; hide Closed; hide StackIn; hide At; hide Ring; hide Detached; hide NoDup;
    ghost var r := ed.ring;
    DeleteUndo(ed);
    FourNodes(ed);
    ed.Del(2, 2);
    ed.ValidHeld();
    assert [r[2]] == r[2..3];
    SecondOut(ed, r);
    // what the second u does
    var how := L.Replay(ed, 0);
    how := L.Replay(ed, 1);
    ed.curln, ed.ucurln, ed.usw := ed.ucurln, ed.curln, false;
  }

  // d and u: the line is back, and its record stays on the stack.
  method DeleteUndo(ed: Editor)
    requires ed.Valid() && !ed.usw && !ed.stale && ed.ustack == [] && ed.lastln >= 3
    modifies ed, ed.repr`next, ed.repr`prev
    ensures ed.Valid() && ed.usw && !ed.stale && ed.ring == old(ed.ring) && ed.repr == old(ed.repr)
    ensures |ed.ring| == ed.lastln + 1 == old(ed.lastln) + 1 && ed.ustack == [UndoNode(UDEL, ed.ring[1], ed.ring[1])]
  {
    hide Recorded; hide Ready; hide Covered; hide Closed; hide StackIn; hide Ring; hide Detached;
    FourNodes(ed);
    ed.StackSize();
    ed.Del(1, 1);
    var ok := ed.Undo();
    ed.StackSize();
    LineCount(ed);
  }

  lemma LineCount(ed: Editor)
    requires ed.Valid()
    ensures |ed.ring| == ed.lastln + 1
  {
  }

  lemma FourNodes(ed: Editor)
    requires ed.Valid() && ed.lastln >= 3
    ensures |ed.ring| == ed.lastln + 1 >= 4 && NoDup(ed.ring)
  {
  }

  // The links when the second of the lines of r is out.
  lemma SecondOut(ed: Editor, r: seq<Line>)
    requires ed.Valid() && |r| >= 4 && NoDup(r) && ed.ring == r[..2] + r[3..]
    requires Detached(Edit(UDEL, 2, [r[2]]), ed.ring)
    ensures r[0].next == r[1] && r[1].prev == r[0] && r[1].next == r[3] && r[2].prev == r[1] && r[2].next == r[3]
    ensures forall i :: 3 <= i < |r| ==> r[i].next == At(r, i + 1)
    ensures forall i :: 0 <= i < |r| && i != 2 ==> r[i] in ed.repr
    ensures ed.lastln == |r| - 2
  {
    var s := ed.ring;
    assert s[0] == r[0] && s[1] == r[1] && s[2] == r[3] && |s| == |r| - 1;
    ed.RingLinks(0);
    ed.RingLinks(1);
    forall i | 3 <= i < |r| ensures r[i].next == At(r, i + 1) && r[i] in ed.repr {
      assert s[i - 1] == r[i] && (i + 1 < |r| ==> s[i] == r[i + 1]);
      ed.RingLinks(i - 1);
    }
  }

  // ------------------------------------------------------------- global

  lemma Next(ed: Editor, n: int)
    requires ed.Valid() && 0 <= n <= ed.lastln
    ensures |ed.ring| == ed.lastln + 1 && ed.ring[n].next == At(ed.ring, n + 1)
    ensures ed.ring[n] in ed.repr
    ensures forall i :: 0 <= i < |ed.ring| && i != n ==> ed.ring[i] != ed.ring[n]
  {
    ed.RingLinks(n);
  }

  // ckglob: mark the lines of a range that match (or, inverted, do not).
  method CkGlob(ed: Editor, line1: int, line2: int, matches: string -> bool, inverse: bool)
    requires ed.Valid() && InRange(line1, line2, ed.lastln)
    modifies ed`lp, ed`on, ed.repr`actv
    ensures ed.Valid() && |ed.ring| == ed.lastln + 1
    ensures forall i :: 1 <= i <= ed.lastln ==>
      (ed.ring[i].actv <==> line1 <= i <= line2 && matches(ed.ring[i].text) != inverse)
  {
    hide Recorded; hide Ready; hide Covered; hide Ring; hide Closed; hide StackIn;
    Next(ed, 0);
    var n := 1;
    var ptr := GetLine(ed, n);
    while n <= ed.lastln
      invariant ed.Valid() && 1 <= n <= ed.lastln + 1 == |ed.ring| && ptr == At(ed.ring, n)
      invariant forall i :: 1 <= i < n ==>
        (ed.ring[i].actv <==> line1 <= i <= line2 && matches(ed.ring[i].text) != inverse)
    {
      Next(ed, n);
      Mark(ed, ptr, line1 <= n <= line2 && matches(ptr.text) != inverse);
      Next(ed, n);
      n, ptr := n + 1, ptr.next;
    }
  }

  // The search that starts each round: the first marked line, if any.
  method FirstActive(ed: Editor) returns (lc: int, ptr: Line)
    requires ed.Valid()
    modifies ed`lp, ed`on
    ensures ed.Valid() && |ed.ring| == ed.lastln + 1 && 1 <= lc <= ed.lastln + 1
    ensures forall i :: 1 <= i < lc ==> !ed.ring[i].actv
    ensures lc <= ed.lastln ==> ptr == ed.ring[lc] && ptr.actv && ptr in ed.repr
  {
    hide Recorded; hide Ready; hide Covered; hide Ring; hide Closed; hide StackIn;
    Next(ed, 0);
    lc := 1;
    ptr := GetLine(ed, lc);
    while lc <= ed.lastln && !ptr.actv
      invariant ed.Valid() && 1 <= lc <= ed.lastln + 1 == |ed.ring| && ptr == At(ed.ring, lc)
      invariant forall i :: 1 <= i < lc ==> !ed.ring[i].actv
    {
      Next(ed, lc);
      lc, ptr := lc + 1, ptr.next;
    }
    if lc <= ed.lastln {
      Next(ed, lc);
    }
  }

  ghost function Marked(s: set<Line>): set<Line>
    reads s
  {
    set x | x in s && x.actv
  }

  // The scan, in a buffer that is in order or not.
  method NextActive(ed: Editor, loose: bool) returns (lc: int, ptr: Line)
    requires Fine(ed, loose)
    modifies ed`lp, ed`on
    ensures Fine(ed, loose) && (lc <= ed.lastln ==> ptr in ed.repr && ptr.actv)
    ensures !loose && lc > ed.lastln ==> |ed.ring| == ed.lastln + 1 && forall i :: 1 <= i <= ed.lastln ==> !ed.ring[i].actv
    ensures !loose ==> |ed.ring| == ed.lastln + 1 >= lc == First(Cells(ed.ring), 1)
    ensures !loose && lc <= ed.lastln ==> 1 <= lc && ed.ring[lc] == ptr
  {
    hide Recorded; hide Ready; hide Covered; hide Ring; hide Closed; hide StackIn; hide Cells;
    if loose {
      lc, ptr := L.FirstActive(ed);
    } else {
      lc, ptr := FirstActive(ed);
      FirstIs(Cells(ed.ring), 1, lc);
      ed.ValidHeld();
    }
  }

  method Unmark(ed: Editor, nd: Line, loose: bool, ghost n: int)
    requires Fine(ed, loose) && nd in ed.repr
    requires !loose ==> 0 <= n <= ed.lastln && |ed.ring| == ed.lastln + 1 && ed.ring[n] == nd
    modifies nd`actv
    ensures Fine(ed, loose) && !nd.actv
    ensures !loose ==> Cells(ed.ring) == Unmarked(old(Cells(ed.ring)), n)
  {
    if loose {
      nd.actv := false;
    } else {
      MarkAt(ed, nd, n);
    }
  }

  method MarkAt(ed: Editor, nd: Line, ghost n: int)
    requires ed.Valid() && 0 <= n <= ed.lastln && |ed.ring| == ed.lastln + 1 && ed.ring[n] == nd
    modifies nd`actv
    ensures Fine(ed, false) && !nd.actv
    ensures Cells(ed.ring) == Unmarked(old(Cells(ed.ring)), n)
  {
    hide Recorded; hide Ready; hide Covered; hide Ring; hide Closed; hide StackIn; hide Cells; hide Editor.Coherent;
    Next(ed, n);
    Mark(ed, nd, false);
    ed.ValidHeld();
    forall i | 0 <= i < |ed.ring| ensures Cells(ed.ring)[i] == Unmarked(old(Cells(ed.ring)), n)[i] {
      assert i != n ==> ed.ring[i] != nd;
    }
  }

  // What a round starts with: the text without the mark, and the line current.
  ghost predicate Begun(b: Buf, was: Buf, lc: int) {
    && Sound(b) && 0 <= lc < |was.t| && b.t == Unmarked(was.t, lc) && b.cur == lc
    && Strings(b.other) == Strings(was.other)
    && b.ucur == was.ucur && b.usw == was.usw && b.stale == was.stale && b.blank == was.blank
  }

  // One round: unmark the line, make it current, run the command list.
  method Round(ed: Editor, lc: int, ptr: Line, cmds: seq<Cmd>, loose0: bool)
    returns (how: Outcome, loose: bool, ghost start: Buf)
    requires Fine(ed, loose0) && ptr in ed.repr && ptr.actv
    requires !loose0 ==> 1 <= lc <= ed.lastln && |ed.ring| == ed.lastln + 1 && ed.ring[lc] == ptr
    modifies ed, ed.repr`next, ed.repr`prev, ptr`actv
    ensures L.Stays(ed) && Fine(ed, loose) && (how == Endless ==> loose)
    ensures Marked(ed.repr) == old(Marked(ed.repr)) - {ptr}
    ensures !loose0 && NoUndo(cmds) ==> !loose && Keeps(ed)
    ensures !loose0 ==> Begun(start, old(View(ed)), lc) && Agrees(ed, how, loose, Play(cmds, start))
  {
    hide Recorded; hide Ready; hide Covered; hide Ring; hide Closed; hide StackIn; hide Agrees; hide Play; hide Begun; hide View;
    ghost var was: Buf;
    start := *;
    if !loose0 {
      was := View(ed);
    }
    Begin(ed, lc, ptr, loose0);
    if !loose0 {
      start := View(ed);
    }
    how, loose := Run(ed, cmds, loose0);
  }

  method Begin(ed: Editor, lc: int, ptr: Line, loose: bool)
    requires Fine(ed, loose) && ptr in ed.repr
    requires !loose ==> 1 <= lc <= ed.lastln && |ed.ring| == ed.lastln + 1 && ed.ring[lc] == ptr
    modifies ed`curln, ptr`actv
    ensures Fine(ed, loose) && !ptr.actv
    ensures !loose ==> Begun(View(ed), old(View(ed)), lc)
  {
    hide Recorded; hide Ready; hide Covered; hide Ring; hide Closed; hide StackIn; hide Cells; hide Strings;
    if !loose {
      CellsText(OtherEnd(ed));
    }
    Unmark(ed, ptr, loose, lc);
    ed.curln := lc;
    if !loose {
      ViewSound(ed);
      CellsText(OtherEnd(ed));
    }
  }

  // Of the lines that were marked at first, each has been the start of one
  // round or is still marked.
  ghost predicate Started(first: set<Line>, starts: seq<Line>, marked: set<Line>) {
    && NoDup(starts) && marked <= first
    && (forall i :: 0 <= i < |starts| ==> starts[i] in first && starts[i] !in marked)
    && (forall x :: x in first ==> x in starts || x in marked)
  }

  lemma StartedNone(first: set<Line>)
    ensures Started(first, [], first)
  {
  }

  lemma StartedNext(first: set<Line>, starts: seq<Line>, marked: set<Line>, ptr: Line)
    requires Started(first, starts, marked) && ptr in marked
    ensures Started(first, starts + [ptr], marked - {ptr})
  {
    var starts' := starts + [ptr];
    forall x | x in first ensures x in starts' || x in marked - {ptr} {
      if x == ptr {
        assert starts'[|starts|] == x;
      } else if x in starts {
        var i :| 0 <= i < |starts| && starts[i] == x;
        assert starts'[i] == x;
      }
    }
  }

  lemma StartedParts(first: set<Line>, starts: seq<Line>, marked: set<Line>)
    requires Started(first, starts, marked)
    ensures NoDup(starts) && marked <= first
    ensures forall i :: 0 <= i < |starts| ==> starts[i] in first
    ensures forall x :: x in marked ==> x !in starts
    ensures forall x :: x in first && x !in marked ==> x in starts
  {
  }

  lemma FineNow(ed: Editor)
    requires ed.Valid()
    ensures Fine(ed, false) && ed.hist != []
  {
    ed.ValidHeld();
  }

  // Behind a scan that finds no marked line.
  lemma NoneActive(ed: Editor)
    requires Fine(ed, false) && |ed.ring| == ed.lastln + 1 && forall i :: 1 <= i <= ed.lastln ==> !ed.ring[i].actv
    ensures forall x :: x in Marked(ed.repr) && x != ed.line0 ==> x !in ed.ring
  {
  }

  // The whole command, taken up at this text, comes to g.
  ghost predicate Leads(cmds: seq<Cmd>, t: seq<Cell>, cur: int, g: Globbed) {
    NoUndo(cmds) && t != [] && Glob(cmds, t, cur) == g
  }

  // It has come to g.
  ghost predicate Ended(how: Outcome, t: seq<Cell>, cur: int, g: Globbed) {
    how == (if g.ok then Done else Failed) && t == g.t && cur == g.cur
  }

  lemma LeadsFirst(cmds: seq<Cmd>, t: seq<Cell>, cur: int)
    requires t != [] && NoUndo(cmds)
    ensures Leads(cmds, t, cur, Glob(cmds, t, cur))
  {
  }

  lemma LeadsLast(cmds: seq<Cmd>, t: seq<Cell>, cur: int, g: Globbed)
    requires Leads(cmds, t, cur, g) && First(t, 1) == |t|
    ensures Ended(Done, t, cur, g)
  {
  }

  // One round, seen from the text.
  lemma GlobRound(cmds: seq<Cmd>, t: seq<Cell>, cur: int, was: Buf, start: Buf, lc: int)
    requires t != [] && NoUndo(cmds) && lc == First(t, 1) < |t| && was.t == t && Begun(start, was, lc)
    ensures var p := Play(cmds, start);
      && !p.Lost? && Sound(p.b)
      && Glob(cmds, t, cur) == if p.Went? then Glob(cmds, p.b.t, p.b.cur) else Globbed(false, p.b.t, p.b.cur)
  {
    hide Play; hide Strings;
    PlayAlone(cmds, start, Start(t, lc));
    PlayMarks(cmds, start);
    PlayMarks(cmds, Start(t, lc));
  }

  // A round goes on to what the whole command comes to.
  method RoundOn(ed: Editor, lc: int, ptr: Line, cmds: seq<Cmd>, loose0: bool, ghost g: Globbed)
    returns (how: Outcome, loose: bool)
    requires Fine(ed, loose0) && ptr in ed.repr && ptr.actv
    requires !loose0 ==> 1 <= lc == First(Cells(ed.ring), 1) <= ed.lastln && |ed.ring| == ed.lastln + 1 && ed.ring[lc] == ptr
    requires NoUndo(cmds) ==> !loose0 && Leads(cmds, Cells(ed.ring), ed.curln, g)
    modifies ed, ed.repr`next, ed.repr`prev, ptr`actv
    ensures L.Stays(ed) && Fine(ed, loose) && (how == Endless ==> loose)
    ensures Marked(ed.repr) == old(Marked(ed.repr)) - {ptr}
    ensures !loose0 && NoUndo(cmds) ==> !loose && Keeps(ed)
    ensures NoUndo(cmds) && how == Done ==> Leads(cmds, Cells(ed.ring), ed.curln, g)
    ensures NoUndo(cmds) && how != Done ==> Ended(how, Cells(ed.ring), ed.curln, g)
  {
    hide Recorded; hide Ready; hide Covered; hide Ring; hide Closed; hide StackIn; hide Play; hide Begun; hide Cells;
    hide Editor.Coherent; hide Glob; hide Marked;
    ghost var t, cur, was := Cells(ed.ring), ed.curln, if loose0 then Buf([], 0, [], 0, false, false, false) else View(ed);
    ghost var start;
    how, loose, start := Round(ed, lc, ptr, cmds, loose0);
    if NoUndo(cmds) {
      GlobRound(cmds, t, cur, was, start, lc);
    }
  }

  // The scan, and the round if it finds a marked line.
  method NextRound(ed: Editor, cmds: seq<Cmd>, loose0: bool, ghost g: Globbed)
    returns (how: Outcome, loose: bool, found: bool, ghost ptr: Line)
    requires Fine(ed, loose0)
    requires NoUndo(cmds) ==> !loose0 && Leads(cmds, Cells(ed.ring), ed.curln, g)
    modifies ed, ed.repr
    ensures L.Stays(ed) && Fine(ed, loose) && (how == Endless ==> loose)
    ensures NoUndo(cmds) ==> !loose && Keeps(ed)
    ensures found ==> ptr in old(Marked(ed.repr)) && Marked(ed.repr) == old(Marked(ed.repr)) - {ptr}
    ensures !found ==> how == Done && Marked(ed.repr) == old(Marked(ed.repr))
    ensures forall x :: x in ed.repr && x.actv ==> x in old(ed.repr) && old(allocated(x)) && old(x.actv)
    ensures !found && !loose ==> |ed.ring| == ed.lastln + 1 && forall i :: 1 <= i <= ed.lastln ==> !ed.ring[i].actv
    ensures NoUndo(cmds) && found && how == Done ==> Leads(cmds, Cells(ed.ring), ed.curln, g)
    ensures NoUndo(cmds) && !(found && how == Done) ==> Ended(how, Cells(ed.ring), ed.curln, g)
  {
    hide Recorded; hide Ready; hide Covered; hide Ring; hide Closed; hide StackIn;
    hide Ended; hide Leads; hide Cells; hide Glob; hide NoUndo;
    var lc, p := NextActive(ed, loose0);
    loose, found, ptr := loose0, lc <= ed.lastln, p;
    if found {
      how, loose := RoundOn(ed, lc, p, cmds, loose0, g);
    } else {
      how := Done;
      if NoUndo(cmds) {
        LeadsLast(cmds, Cells(ed.ring), ed.curln, g);
      }
    }
  }

  // The rounds of doglob.
  method Rounds(ed: Editor, cmds: seq<Cmd>) returns (how: Outcome, loose: bool, ghost starts: seq<Line>)
    requires ed.Valid() && Cells(ed.ring) != []
    modifies ed, ed.repr
    ensures Fine(ed, loose) && (how == Endless ==> loose) && L.Stays(ed)
    ensures NoUndo(cmds) ==> !loose && Keeps(ed)
    ensures NoUndo(cmds) ==> Ended(how, Cells(ed.ring), ed.curln, Glob(cmds, old(Cells(ed.ring)), old(ed.curln)))
    ensures Started(old(Marked(ed.repr)), starts, Marked(ed.repr))
    ensures how == Done && !loose ==> |ed.ring| == ed.lastln + 1 && forall i :: 1 <= i <= ed.lastln ==> !ed.ring[i].actv
  {
    hide Recorded; hide Ready; hide Covered; hide Ring; hide Closed; hide StackIn;
    hide Started; hide Ended; hide Leads; hide Cells; hide Glob; hide Marked; hide NoUndo; hide Editor.Coherent;
    FineNow(ed);
    ghost var g := Globbed(false, [], 0);
    if NoUndo(cmds) {
      g := Glob(cmds, Cells(ed.ring), ed.curln);
      LeadsFirst(cmds, Cells(ed.ring), ed.curln);
    }
    starts, loose := [], false;
    ghost var first := Marked(ed.repr);
    StartedNone(first);
    while true
      invariant Fine(ed, loose) && L.Stays(ed)
      invariant NoUndo(cmds) ==> !loose && Keeps(ed) && Leads(cmds, Cells(ed.ring), ed.curln, g)
      invariant Started(first, starts, Marked(ed.repr))
      decreases Marked(ed.repr)
    {
      ghost var marked := Marked(ed.repr);
      ghost var ptr;
      var found;
      how, loose, found, ptr := NextRound(ed, cmds, loose, g);
      if found {
        StartedNext(first, starts, marked, ptr);
        starts := starts + [ptr];
      }
      if !found || how != Done {
        return;
      }
    }
  }

  // doglob: run the command list on each marked line, whatever it holds, u
  // included, and whatever the u's make of the buffer. It ends, as a round
  // unmarks the line it starts with and no command marks a line: each marked
  // line is the start of at most one round. The one way not to end is a command
  // that does not. Without a u in the list the whole is one step for undo.
  method DoGlob(ed: Editor, cmds: seq<Cmd>) returns (how: Outcome, loose: bool, ghost starts: seq<Line>)
    requires ed.Valid() && !ed.stale
    modifies ed, ed.repr
    ensures Fine(ed, loose) && (how == Endless ==> loose)
    ensures NoUndo(cmds) ==> !loose && !ed.usw && !ed.stale && ed.Base() == (old(ed.ring), old(ed.curln), ed.line0)
    ensures |old(ed.ring)| == old(ed.lastln) + 1 > 0
    ensures NoUndo(cmds) ==> Ended(how, Cells(ed.ring), ed.curln, Glob(cmds, old(Cells(ed.ring)), old(ed.curln)))
    ensures NoDup(starts)
    ensures forall i :: 0 <= i < |starts| ==> starts[i] in old(ed.repr)
    ensures forall i :: 0 <= i < |starts| ==> old(allocated(starts[i])) && old(starts[i].actv)
    ensures forall x :: x in ed.repr && x.actv ==> x in old(ed.ring) && old(allocated(x)) && old(x.actv) && x !in starts
    ensures how == Done && !loose ==> |ed.ring| == ed.lastln + 1 && forall i :: 1 <= i <= ed.lastln ==> !ed.ring[i].actv
    ensures how == Done && !loose ==>
      forall x :: x in old(ed.ring) && x != ed.line0 && old(x.actv) ==> x in starts || x !in ed.ring
  {
    hide Recorded; hide Ready; hide Covered; hide Ring; hide Closed; hide StackIn;
    hide Started; hide Ended; hide Cells; hide Glob; hide NoUndo;
    RingLength(ed);
    var freed := UReset(ed);
    ghost var first := Marked(ed.repr);
    assert forall x :: x in first ==> x in old(ed.ring) && old(allocated(x)) && old(x.actv);
    how, loose, starts := Rounds(ed, cmds);
    StartedParts(first, starts, Marked(ed.repr));
    if how == Done && !loose {
      NoneActive(ed);
    }
  }

  // The address .
  function Dot(t: seq<string>, c: int, l: int): int {
    c
  }

  // g/re/d and v/re/d
  method GlobalDelete(ed: Editor, line1: int, line2: int, matches: string -> bool, inverse: bool)
    requires ed.Valid() && !ed.stale && InRange(line1, line2, ed.lastln)
    modifies ed, ed.repr
    ensures ed.Valid() && |old(ed.ring)| > 0
    ensures var s := Texts(old(ed.ring)); Texts(ed.ring) == [s[0]] + Remaining(s, 1, line1, line2, matches, inverse)
  {
    hide Recorded; hide Ready; hide Covered; hide Ring; hide Closed; hide StackIn; hide Glob; hide Remaining; hide Cells;
    hide Editor.Coherent; hide Texts;
    CkGlob(ed, line1, line2, matches, inverse);
    CellsText(ed.ring);
    var cmd := DeleteCmd(Dot, Dot);
    GlobDeleteMatching(cmd, Cells(ed.ring), ed.curln, line1, line2, matches, inverse);
    var how, loose, starts := DoGlob(ed, [cmd]);
    CellsText(ed.ring);
  }
}
