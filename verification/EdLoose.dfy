// The editing primitives and commands of ed on a buffer whose links may be in
// any order: a u that replays records made while usw was set leaves such a
// buffer. All that is known is that links and records lead to known nodes.
module EdLoose {
  import opened EdRing
  import opened EdBuffer
  import opened EdCommands
  import opened EdText

  // What every step keeps, whatever the links and the stack are.
  twostate predicate Stays(ed: Editor)
    reads ed, ed.repr
  {
    && old(ed.Held()) && ed.Held()
    && old(ed.repr) <= ed.repr && fresh(ed.repr - old(ed.repr))
    && (forall x :: x in ed.repr && x !in old(ed.repr) ==> !x.actv)
  }

  // getptr, which counts its way along the links there are
  method GetPtr(ed: Editor, n: int) returns (r: Line)
    requires ed.Held()
    modifies ed`lp, ed`on
    ensures ed.Held() && r == ed.lp && r in ed.repr
  {
    if n > ed.on {
      if n <= (ed.on + ed.lastln) / 2 {
        while ed.on < n
          invariant ed.Held()
        {
          ed.lp, ed.on := ed.lp.next, ed.on + 1;
        }
      } else {
        ed.lp, ed.on := ed.line0.prev, ed.lastln;
        while ed.on > n
          invariant ed.Held()
        {
          ed.lp, ed.on := ed.lp.prev, ed.on - 1;
        }
      }
    } else if n >= ed.on / 2 {
      while ed.on > n
        invariant ed.Held()
      {
        ed.lp, ed.on := ed.lp.prev, ed.on - 1;
      }
    } else {
      ed.lp, ed.on := ed.line0, 0;
      while ed.on < n
        invariant ed.Held()
      {
        ed.lp, ed.on := ed.lp.next, ed.on + 1;
      }
    }
    r := ed.lp;
  }

  method GetUptr(ed: Editor, kind: Kind, from: int, to: int)
    requires ed.Held()
    modifies ed`lp, ed`on, ed`ustack
    ensures ed.Held() && |ed.ustack| == |old(ed.ustack)| + 1
  {
    var t := GetPtr(ed, to);
    var h := GetPtr(ed, from);
    ed.ustack := ed.ustack + [UndoNode(kind, h, t)];
  }

  method Link(ed: Editor, pred: Line, succ: Line)
    requires ed.Held() && pred in ed.repr && succ in ed.repr
    modifies pred`next, succ`prev
    ensures ed.Held() && pred.next == succ && succ.prev == pred
  {
    Requeue(pred, succ);
  }

  method Del(ed: Editor, from: int, to: int)
    requires ed.Held()
    modifies ed, ed.repr`next, ed.repr`prev
    ensures Stays(ed)
  {
    GetUptr(ed, UDEL, from, to);
    var after := GetPtr(ed, Editor.Nextln(to, ed.lastln));
    var before := GetPtr(ed, Editor.Prevln(from, ed.lastln));
    Link(ed, before, after);
    ed.lastln := ed.lastln - (to - from + 1);
    ed.curln := Editor.Prevln(from, ed.lastln);
  }

  method LpQueue(ed: Editor, nd: Line)
    requires ed.Held() && nd !in ed.repr
    modifies ed`lp, ed`on, ed`lastln, ed`curln, ed`repr, ed.repr`next, ed.repr`prev, nd`next, nd`prev
    ensures ed.Held() && ed.repr == old(ed.repr) + {nd} && ed.ustack == old(ed.ustack)
  {
    var cp := GetPtr(ed, ed.curln);
    Requeue(nd, cp.next);
    Requeue(cp, nd);
    ed.repr := ed.repr + {nd};
    ed.lastln := ed.lastln + 1;
    ed.curln := ed.curln + 1;
  }

  // the editing idiom: a new line, in a new record or in the last one
  method AddLine(ed: Editor, text: string, up: bool)
    requires ed.Held() && (up ==> ed.ustack != [])
    modifies ed, ed.repr`next, ed.repr`prev
    ensures Stays(ed) && ed.ustack != []
  {
    var nd := new Line(text);
    LpQueue(ed, nd);
    if up {
      ed.ustack := ed.ustack[|ed.ustack| - 1 := ed.ustack[|ed.ustack| - 1].(t := nd)];
    } else {
      GetUptr(ed, UADD, ed.curln, ed.curln);
    }
  }

  method Append(ed: Editor, n: int, txts: seq<string>)
    requires ed.Held()
    modifies ed, ed.repr`next, ed.repr`prev
    ensures Stays(ed)
  {
    ed.curln := n;
    var k := 0;
    while k < |txts|
      invariant 0 <= k && Stays(ed) && (k > 0 ==> ed.ustack != [])
    {
      AddLine(ed, txts[k], k > 0);
      k := k + 1;
    }
  }

  method Transfer(ed: Editor, line1: int, line2: int, num: int)
    requires ed.Held()
    modifies ed, ed.repr`next, ed.repr`prev
    ensures Stays(ed)
  {
    var mid := if num < line2 then num else line2;
    ed.curln := num;
    var nt, nl, up := 0, line1, false;
    while nl <= mid
      invariant Stays(ed) && (up ==> ed.ustack != [])
    {
      var src := GetPtr(ed, nl);
      AddLine(ed, src.text, up);
      nl, nt, up := nl + 1, nt + 1, true;
    }
    nl := nl + nt;
    var lc := line2 + nt;
    while nl <= lc
      invariant Stays(ed) && (up ==> ed.ustack != [])
    {
      var src := GetPtr(ed, nl);
      AddLine(ed, src.text, up);
      nl, lc, up := nl + 2, lc + 1, true;
    }
  }

  method Move(ed: Editor, line1: int, line2: int, num: int) returns (ok: bool)
    requires ed.Held()
    modifies ed, ed.repr`next, ed.repr`prev
    ensures Stays(ed)
  {
    if line1 <= num < line2 {
      return false;
    }
    Transfer(ed, line1, line2, num);
    var c := if num > line1 then 0 else line2 - line1 + 1;
    Del(ed, line1 + c, line2 + c);
    ed.curln := num + c;
    return true;
  }

  // Nodes that the links do not lead out of.
  ghost predicate Trap(s: set<Line>, h: Line, t: Line)
    reads s
  {
    h in s && t !in s && forall x {:trigger x.next} :: x in s ==> x.next in s
  }

  // getrange; the program goes on for ever exactly where this finds a node for
  // the second time
  method GetRange(ed: Editor, h: Line, t: Line) returns (ends: bool, n: int, ghost trap: set<Line>)
    requires ed.Held() && h in ed.repr
    ensures !ends ==> Trap(trap, h, t)
    ensures h == t ==> ends && n == 1
  {
    var p: Line, seen: set<Line> := h, {};
    n := 1;
    while p != t
      invariant h == t ==> p == h && n == 1
      invariant p in ed.repr && seen <= ed.repr && t !in seen && (h in seen || (p == h && seen == {}))
      invariant forall x {:trigger x.next} :: x in seen ==> x.next in seen || x.next == p
      decreases ed.repr - seen
    {
      if p in seen {
        return false, n, seen;
      }
      seen := seen + {p};
      n, p := n + 1, p.next;
    }
    ends := true;
    trap := {};
  }

  // the switch of undo on record k
  method Replay(ed: Editor, k: int) returns (how: Outcome)
    requires ed.Held() && 0 <= k < |ed.ustack|
    modifies ed`lp, ed`on, ed`lastln, ed.repr`next, ed.repr`prev
    ensures ed.Held() && how != Failed
    ensures var u := ed.ustack[k]; var p, s := old(u.h.prev), old(u.t.next);
      (u.kind == UADD) != ed.usw ==>
        && p.next == s && s.prev == p
        && (forall x {:trigger x.next} :: x in ed.repr && x != p ==> x.next == old(x.next))
        && (forall x {:trigger x.prev} :: x in ed.repr && x != s ==> x.prev == old(x.prev))
        && (u.h == u.t ==> how == Done && ed.lastln == old(ed.lastln) - 1)
  {
    var p := GetPtr(ed, 0);
    var h, t := ed.ustack[k].h, ed.ustack[k].t;
    if (ed.ustack[k].kind == UADD) != ed.usw {
      Link(ed, h.prev, t.next);
      var ends, n, trap := GetRange(ed, h, t);
      if !ends {
        return Endless;
      }
      ed.lastln := ed.lastln - n;
    } else {
      Link(ed, h.prev, h);
      Link(ed, t, t.next);
      var ends, n, trap := GetRange(ed, h, t);
      if !ends {
        return Endless;
      }
      ed.lastln := ed.lastln + n;
    }
    return Done;
  }

  // undo, on any stack
  method Undo(ed: Editor) returns (how: Outcome)
    requires ed.Held()
    modifies ed, ed.repr`next, ed.repr`prev
    ensures Stays(ed)
    ensures how == Failed <==> old(ed.ustack) == []
    ensures how == Done ==> ed.usw == !old(ed.usw) && ed.curln == old(ed.ucurln) && ed.ucurln == old(ed.curln)
  {
    var n := if ed.usw then 0 else |ed.ustack| - 1;
    var i := if ed.usw then 1 else -1;
    var j := |ed.ustack|;
    var ocurln := ed.curln;
    if j == 0 {
      return Failed;
    }
    while j > 0
      invariant 0 <= j <= |ed.ustack| && n == (if ed.usw then |ed.ustack| - j else j - 1) && Stays(ed)
      invariant ed.ustack == old(ed.ustack) && ed.usw == old(ed.usw)
      invariant ed.curln == old(ed.curln) && ed.ucurln == old(ed.ucurln) && ed.repr == old(ed.repr)
    {
      how := Replay(ed, n);
      if how == Endless {
        return;
      }
      j, n := j - 1, n + i;
    }
    ed.curln := ed.ucurln;
    ed.ucurln := ocurln;
    ed.usw := !ed.usw;
    return Done;
  }

  // join
  method Join(ed: Editor, from: int, to: int) returns (how: Outcome)
    requires ed.Held()
    modifies ed, ed.repr`next, ed.repr`prev
    ensures Stays(ed)
  {
    if from == to {
      return Done;
    }
    var ep := GetPtr(ed, Editor.Nextln(to, ed.lastln));
    var bp := GetPtr(ed, from);
    var buf, seen := "", {};
    while bp != ep
      invariant Stays(ed) && bp in ed.repr && seen <= ed.repr && |buf| <= MAXLINE && ed.repr == old(ed.repr)
      decreases MAXLINE - |buf|, ed.repr - seen
    {
      if |buf| + |bp.text| >= MAXLINE - 1 {
        return Failed;
      }
      if bp.text != "" {
        seen := {};
      } else if bp in seen {
        return Endless;
      } else {
        seen := seen + {bp};
      }
      buf, bp := buf + bp.text, bp.next;
    }
    Del(ed, from, to);
    Append(ed, from - 1, [buf]);
    return Done;
  }

  // subst
  method Subst(ed: Editor, line1: int, line2: int, f: string -> Rewrite) returns (how: Outcome)
    requires ed.Held()
    modifies ed, ed.repr`next, ed.repr`prev
    ensures Stays(ed) && how != Endless
  {
    ed.curln := Editor.Prevln(line1, ed.lastln);
    var lc := 0;
    while lc <= line2 - line1
      invariant Stays(ed)
    {
      ed.curln := Editor.Nextln(ed.curln, ed.lastln);
      var nd := GetPtr(ed, ed.curln);
      match f(nd.text) {
        case Fail => return Failed;
        case Same =>
        case New(first, rest) =>
          Del(ed, ed.curln, ed.curln);
          Append(ed, ed.curln, [first] + rest);
      }
      lc := lc + 1;
    }
    return Done;
  }

  // the lines that line numbers lead to
  method Lines(ed: Editor) returns (t: seq<string>)
    requires ed.Held()
  {
    var nd, n := ed.line0, 0;
    t := [];
    while n <= ed.lastln
      invariant nd in ed.repr
    {
      t, n, nd := t + [nd.text], n + 1, nd.next;
    }
  }

  // The scan that starts each round: the first marked node on the way.
  method FirstActive(ed: Editor) returns (lc: int, ptr: Line)
    requires ed.Held()
    modifies ed`lp, ed`on
    ensures ed.Held() && (lc <= ed.lastln ==> ptr in ed.repr && ptr.actv)
  {
    lc := 1;
    ptr := GetPtr(ed, lc);
    while lc <= ed.lastln && !ptr.actv
      invariant ed.Held() && ptr in ed.repr
    {
      lc, ptr := lc + 1, ptr.next;
    }
  }
}
