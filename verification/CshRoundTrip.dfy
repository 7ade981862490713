// Which of the trees that the parser accepts come back from what padd prints.
module CshRoundTrip {
  import opened Basics
  import opened CshSyntax
  import opened CshParse
  import opened CshPrint
  import opened CshReprint

  // ------------------------------------------------------- the redirections

  predicate Clear(io: Io) {
    AMPERSAND !in io.flags && OVERWRITE !in io.flags
  }

  // What is read from the redirections printed for a command holds nothing that
  // padd would not print.
  lemma ScanLeftShown(s: seq<Word>, k: nat, st: State, specp: bool, cx: Context)
    requires k + 1 < |s| && (s[k] == "<" || s[k] == "<<") && Clear(st.io) && st.io.rit == None
    requires Scan(s, k, 0, st, specp, cx).Ok?
    ensures Redirect(s, k, st, cx).Ok?
    ensures var p := Redirect(s, k, st, cx).value;
      && p.1 == k + 1 && Clear(p.0.io) && p.0.io.rit == None
      && Scan(s, k, 0, st, specp, cx) == Scan(s, k + 2, 0, p.0, specp, cx)
  {
  }

  lemma ScanRightShown(s: seq<Word>, k: nat, w: Word, f: Word, both: bool, st: State, specp: bool, cx: Context)
    requires k < |s| && (w == ">" || w == ">>") && Plain(f) && s[k..] == [w] + (if both then ["&"] else []) + [f]
    requires Clear(st.io) && Scan(s, k, 0, st, specp, cx).Ok?
    ensures var r := Scan(s, k, 0, st, specp, cx).value;
      Clear(r.io) && r.io.rit == Some(f) && f != "!" && r == st.(io := r.io)
  {
    var t := s[k..];
    assert s[k] == t[0] == w && s[k + 1] == t[1] && (both ==> s[k + 2] == t[2]);
    assert |s| == k + |t|;
    var q := Redirect(s, k, st, cx);
    assert q.Ok?;
    assert q.value.1 == |s| - 1;
    ScanEnd(s, 0, q.value.0, specp, cx);
  }

  lemma ScanShown(s: seq<Word>, k: nat, io: Io, st: State, specp: bool, cx: Context)
    requires k <= |s| && s[k..] == PrintIo(io) && Files(io) && Clear(st.io) && st.io.rit == None
    requires Scan(s, k, 0, st, specp, cx).Ok?
    ensures var r := Scan(s, k, 0, st, specp, cx).value; Shown(r.io) && r == st.(io := r.io)
  {
    hide Scan; hide Redirect;
    var n, st1 := k, st;
    if io.lef.Some? {
      assert s[k] == s[k..][0] && s[k + 1] == s[k..][1] && s[k + 2..] == s[k..][2..];
      ScanLeftShown(s, k, st, specp, cx);
      n, st1 := k + 2, Redirect(s, k, st, cx).value.0;
    }
    if io.rit.Some? {
      ScanRightShown(s, n, if APPEND in io.flags then ">>" else ">", io.rit.value, STDERR in io.flags, st1, specp, cx);
    } else {
      assert s[n..] == [];
      ScanEnd(s, 0, st1, specp, cx);
    }
  }

  // --------------------------------------------------------- what comes back

  // At every level: a tree that comes back is lossless.

  lemma CommandBack(words: seq<Word>, io: Io, e: Word, cx: Context)
    requires Shaped(Command(words, io)) && Nested(words + PrintIo(io), 0)
    requires Syn3(words + PrintIo(io), e, cx) == Ok(Command(words, io))
    ensures Shown(io)
  {
    hide Scan; hide Special; hide Nested; hide Good; hide Syn0; hide Shown;
    var s, specp := words + PrintIo(io), Special(words);
    SpecialIo(words, io);
    assert words[0..] == words;
    var st := ScanWords(words, PrintIo(io), 0, 0, Start(e), specp, cx);
    assert s[|words|..] == PrintIo(io);
    ScanShown(s, |words|, io, st, specp, cx);
  }

  lemma ParenBack(sub: Tree, io: Io, e: Word, cx: Context)
    requires Shaped(Paren(sub, io)) && Nested(Print(Paren(sub, io)), 0)
    requires Syn3(Print(Paren(sub, io)), e, cx) == Ok(Paren(sub, io))
    ensures Shown(io) && Syn0(Print(sub), ")", Context(true, false, false, false)) == Ok(sub)
  {
    hide Scan; hide Nested; hide Syn0; hide Tame; hide Shown; hide Print; hide Shaped;
    ParenIs(sub, io);
    var s, inner := Print(Paren(sub, io)), Print(sub);
    TameShaped(sub);
    TameNested(inner, Level(sub));
    var k := |inner|;
    ParenWords(inner, PrintIo(io));
    var st0 := Start(e);
    var st1 := st0.(lp := Some(1));
    var st2 := st1.(rp := Some(1 + k));
    ScanStep(s, 0, 0, st0, false, cx);
    ScanInside(s, 1, 1 + k, 1, st1, cx);
    ScanStep(s, 1 + k, 1, st1, false, cx);
    ScanShown(s, 2 + k, io, st2, false, cx);
  }

  lemma ParenIs(sub: Tree, io: Io)
    requires Shaped(Paren(sub, io))
    ensures Shaped(sub) && Files(io) && Print(Paren(sub, io)) == ["("] + Print(sub) + [")"] + PrintIo(io)
  {
  }

  lemma {:induction false} Back3(t: Tree, e: Word, cx: Context)
    requires Shaped(t) && Level(t) == 0 && Nested(Print(t), 0) && Syn3(Print(t), e, cx) == Ok(t)
    ensures Lossless(t)
    decreases t, 1
  {
    hide Syn3; hide Nested; hide Shown; hide Syn0;
    match t
    case Command(words, io) => CommandBack(words, io, e, cx);
    case Paren(sub, io) =>
      ParenBack(sub, io, e, cx);
      Back0(sub, ")", Context(true, false, false, false));
  }

  // The printed sides of an operator are what its scan finds.
  lemma Sides(op: Op, car: Tree, w: Word, cdr: Tree)
    requires Shaped(car) && Shaped(cdr) && OpLevel(op) > Level(car) && Is(op, w)
    ensures Nested(Print(car), 0) && Nested(Print(cdr), 0)
    ensures var s := Print(car) + [w] + Print(cdr); var i := Find(op, s, 0);
      i == |Print(car)| < |s| && s[..i] == Print(car) && s[i] == w && s[i + 1..] == Print(cdr)
    ensures Leads(cdr) ==> Print(cdr) != [] && First(Print(cdr)[0]) !in {';', '&', '\n'}
  {
    hide Tame; hide Find; hide Nested; hide Print; hide Shaped; hide Is;
    TameShaped(car);
    TameShaped(cdr);
    TameNested(Print(car), Level(car));
    TameNested(Print(cdr), Level(cdr));
    Split(op, Print(car), w, Print(cdr), Level(car));
  }

  lemma NoSides(op: Op, t: Tree)
    requires Shaped(t) && OpLevel(op) > Level(t)
    ensures Find(op, Print(t), 0) == |Print(t)|
  {
    hide Tame; hide Find; hide Print; hide Shaped;
    TameShaped(t);
    NoSplit(op, Print(t), Level(t));
  }

  lemma {:induction false} Back2(t: Tree, e: Word, cx: Context)
    requires Shaped(t) && 0 <= Level(t) <= 1 && Nested(Print(t), 0) && Syn2(Print(t), e, cx) == Ok(t)
    ensures Lossless(t)
    decreases t, 2
  {
    hide Syn3; hide Nested; hide Find;
    if t.Pipe? {
      Sides(BAR, t.car, "|", t.cdr);
      Back3(t.car, "|", cx.(pout := true));
      Back2(t.cdr, e, cx.(pin := true));
    } else {
      NoSides(BAR, t);
      Back3(t, e, cx);
    }
  }

  lemma {:induction false} Back1b(t: Tree, e: Word, cx: Context)
    requires Shaped(t) && 0 <= Level(t) <= 2 && Nested(Print(t), 0) && Syn1b(Print(t), e, cx) == Ok(t)
    ensures Lossless(t)
    decreases t, 3
  {
    hide Syn2; hide Nested; hide Find;
    if t.And? {
      Sides(AND, t.car, "&&", t.cdr);
      Back2(t.car, "&&", cx);
      Back1b(t.cdr, e, cx);
    } else {
      NoSides(AND, t);
      Back2(t, e, cx);
    }
  }

  lemma {:induction false} Back1a(t: Tree, e: Word, cx: Context)
    requires Shaped(t) && 0 <= Level(t) <= 3 && Nested(Print(t), 0) && Syn1a(Print(t), e, cx) == Ok(t)
    ensures Lossless(t)
    decreases t, 4
  {
    hide Syn1b; hide Nested; hide Find;
    if t.Or? {
      Sides(OR, t.car, "||", t.cdr);
      Back1b(t.car, "||", cx);
      Back1a(t.cdr, e, cx);
    } else {
      NoSides(OR, t);
      Back1b(t, e, cx);
    }
  }

  // There is no command without words, and no list below its level.
  lemma NoCommand(e: Word, cx: Context)
    ensures Syn1a([], e, cx) == Err(NULLCOM)
  {
    assert Syn3([], e, cx) == Err(NULLCOM);
    assert Syn2([], e, cx) == Syn3([], e, cx);
    assert Syn1b([], e, cx) == Syn2([], e, cx);
  }

  lemma NoList(s: seq<Word>, e: Word, cx: Context)
    requires Nested(s, 0)
    ensures Syn1a(s, e, cx).Ok? ==> !Syn1a(s, e, cx).value.List?
  {
    hide Nested; hide Find;
    assert Syn2(s, e, cx).Ok? ==> !Syn2(s, e, cx).value.List? by {
      hide Scan;
    }
    assert Syn1b(s, e, cx).Ok? ==> !Syn1b(s, e, cx).value.List?;
  }

  lemma {:induction false} Back1(t: Tree, e: Word, cx: Context)
    requires Shaped(t) && t != Null && Nested(Print(t), 0) && Syn1(Print(t), e, cx) == Ok(t)
    ensures Lossless(t)
    decreases t, 5
  {
    hide Syn1a; hide Nested; hide Find; hide Syntax;
    if t.List? {
      Sides(SEMI, t.car, ";", t.cdr);
      if t.car == Null {
        NoCommand(";", cx);
      } else if t.cdr == Null {
        NoWords(e, cx);
      } else {
        Back1a(t.car, ";", cx);
        BackAll(t.cdr, e, cx);
      }
    } else {
      NoSides(SEMI, t);
      Back1a(t, e, cx);
    }
  }

  lemma NoWords(e: Word, cx: Context)
    ensures Syntax([], e, cx) == Ok(Null)
  {
  }

  lemma {:induction false} Back0(t: Tree, e: Word, cx: Context)
    requires Shaped(t) && t != Null && Syn0(Print(t), e, cx) == Ok(t)
    ensures Lossless(t)
    decreases t, 6
  {
    hide Syn1; hide FindAmp; hide Nested; hide Shaped;
    NoAmp(t);
    Back1(t, e, cx);
  }

  lemma NoAmp(t: Tree)
    requires Shaped(t)
    ensures FindAmp(Print(t), 0) == Nowhere && Nested(Print(t), 0)
  {
    hide FindAmp; hide Nested; hide Shaped; hide Print;
    TameShaped(t);
    FindAmpFree(Print(t), [], 0);
    assert Print(t) + [] == Print(t);
    NestedRun(Print(t), [], 0);
    AmpEnd();
  }

  lemma {:induction false} BackAll(t: Tree, e: Word, cx: Context)
    requires Shaped(t) && t != Null && Syntax(Print(t), e, cx) == Ok(t)
    ensures Lossless(t)
    decreases t, 7
  {
    hide Syn0; hide Nested;
    TameShaped(t);
    if Leads(t) {
      assert Print(t)[0..] == Print(t);
      Back0(t, e, cx);
    } else {
      Unlisted(t.cdr, e, cx);
    }
  }

  // A list without a left side does not come back: what is read behind the
  // separator is no list.
  lemma Unlisted(t: Tree, e: Word, cx: Context)
    requires Shaped(t) && 0 <= Level(t) <= 3
    ensures var r := Syntax([] + [";"] + Print(t), e, cx); r.Ok? ==> !r.value.List?
  {
    hide Syn1a; hide FindAmp; hide Find; hide Nested; hide Shaped; hide Print;
    var s := [] + [";"] + Print(t);
    TameShaped(t);
    assert s[1..] == Print(t);
    assert Skip(s) == 1;
    NoAmp(t);
    NoSides(SEMI, t);
    NoList(Print(t), e, cx);
    assert Syntax(s, e, cx) == Syn0(Print(t), e, cx);
    assert Syn0(Print(t), e, cx) == Syn1(Print(t), e, cx) == Syn1a(Print(t), e, cx);
  }

  // A tree that the parser accepts comes back from the words printed for it
  // exactly if it is lossless, or there is no command at all.
  lemma ReprintIff(s: seq<Word>)
    requires Syntax(s, "", Context(false, false, false, false)).Ok?
    ensures var t := Syntax(s, "", Context(false, false, false, false)).value;
      Syntax(Print(t), "", Context(false, false, false, false)) == Ok(t) <==> t == Null || Lossless(t)
  {
    hide Syn0; hide Shaped; hide Lossless;
    var cx := Context(false, false, false, false);
    var t := Syntax(s, "", cx).value;
    if t == Null {
      NoWords("", cx);
    } else {
      Shaped0(s[Skip(s)..], "", cx);
      if Lossless(t) {
        Reprint(s);
      } else if Syntax(Print(t), "", cx) == Ok(t) {
        BackAll(t, "", cx);
      }
    }
  }
}
