// Words, command trees and the scans of the csh parser.
module CshSyntax {

  import opened Basics

  // The first character of a word; the empty word has a zero there.
  function First(w: Word): char {
    if w == "" then '\0' else w[0]
  }

  function Second(w: Word): char {
    if |w| < 2 then '\0' else w[1]
  }

  datatype Error =
    | TOOMANYRP | TOOMANYLP | BADPLP | BADPLPS | OUTRED | MISRED | REDPAR | INRED | NULLCOM

  datatype Flag =
    | AMPERSAND | NOINTERRUPT | STDERR | APPEND | OVERWRITE | READ | NOFORK

  // t_dlef, t_drit and t_dflg.
  datatype Io = Io(lef: Option<Word>, rit: Option<Word>, flags: set<Flag>)

  // A struct command; Null is the null pointer.
  datatype Tree =
    | Null
    | Command(words: seq<Word>, io: Io)
    | Paren(sub: Tree, io: Io)
    | Pipe(car: Tree, cdr: Tree, flags: set<Flag>)
    | List(car: Tree, cdr: Tree)
    | Or(car: Tree, cdr: Tree, flags: set<Flag>)
    | And(car: Tree, cdr: Tree, flags: set<Flag>)

  // PHERE, PIN, POUT and PDIAG.
  datatype Context = Context(here: bool, pin: bool, pout: bool, pdiag: bool)

  // A stretch of a stretch.
  // ------------------------------------------------------------ parentheses

  function Delta(w: Word): int {
    if First(w) == '(' then 1 else if First(w) == ')' then -1 else 0
  }

  // s closes l parentheses and leaves none open.
  predicate Nested(s: seq<Word>, l: int) {
    if s == [] then l == 0 else l + Delta(s[0]) >= 0 && Nested(s[1..], l + Delta(s[0]))
  }

  // The depth behind s.
  function Run(s: seq<Word>, l: int): int {
    if s == [] then l else Run(s[1..], l + Delta(s[0]))
  }

  lemma {:induction false} NestedRun(a: seq<Word>, c: seq<Word>, l: int)
    ensures Run(a + c, l) == Run(c, Run(a, l))
    ensures Nested(a, l) ==> Run(a, l) == 0 && (Nested(a + c, l) <==> Nested(c, 0))
  {
    if a == [] {
      assert a + c == c;
    } else {
      assert (a + c)[1..] == a[1..] + c;
      NestedRun(a[1..], c, l + Delta(a[0]));
    }
  }

  // No word of s closes a parenthesis that is not open.
  predicate NeverBelow(s: seq<Word>, l: int) {
    s != [] ==> l + Delta(s[0]) >= 0 && NeverBelow(s[1..], l + Delta(s[0]))
  }

  lemma {:induction false} BelowConcat(a: seq<Word>, c: seq<Word>, l: int)
    ensures NeverBelow(a + c, l) <==> NeverBelow(a, l) && NeverBelow(c, Run(a, l))
  {
    if a == [] {
      assert a + c == c;
    } else {
      assert (a + c)[1..] == a[1..] + c;
      BelowConcat(a[1..], c, l + Delta(a[0]));
    }
  }

  // Nested words close what they open, and at the end nothing is open.
  lemma {:induction false} NestedIs(s: seq<Word>, l: int)
    ensures Nested(s, l) <==> NeverBelow(s, l) && Run(s, l) == 0
  {
    if s != [] {
      NestedIs(s[1..], l + Delta(s[0]));
    }
  }

  // -------------------------------------------------- operators of a level

  datatype Op = SEMI | OR | AND | BAR

  predicate Is(op: Op, w: Word) {
    match op
    case SEMI => First(w) == ';' || First(w) == '\n'
    case OR => First(w) == '|' && Second(w) == '|'
    case AND => First(w) == '&' && Second(w) == '&'
    case BAR => First(w) == '|'
  }

  // The place of the first operator at depth 0, or the length of s.
  function Find(op: Op, s: seq<Word>, l: int): (i: nat)
    ensures i <= |s|
  {
    if s == [] || (l == 0 && Is(op, s[0])) then 0 else 1 + Find(op, s[1..], l + Delta(s[0]))
  }

  // No word of s at depth 0 is the operator.
  predicate Free(op: Op, s: seq<Word>, l: int) {
    s != [] ==> !(l == 0 && Is(op, s[0])) && Free(op, s[1..], l + Delta(s[0]))
  }

  lemma {:induction false} FindFree(op: Op, a: seq<Word>, c: seq<Word>, l: int)
    requires Free(op, a, l)
    ensures Find(op, a + c, l) == |a| + Find(op, c, Run(a, l))
    ensures Free(op, a + c, l) <==> Free(op, c, Run(a, l))
  {
    if a == [] {
      assert a + c == c;
    } else {
      assert (a + c)[1..] == a[1..] + c;
      FindFree(op, a[1..], c, l + Delta(a[0]));
    }
  }

  lemma IsFlat(op: Op, w: Word)
    requires Is(op, w)
    ensures Delta(w) == 0
  {
  }

  // What is found stands at depth 0 between two properly nested parts.
  lemma {:induction false} FindNested(op: Op, s: seq<Word>, l: int)
    requires Nested(s, l)
    ensures var i := Find(op, s, l);
      i < |s| ==> Is(op, s[i]) && Nested(s[..i], l) && Nested(s[i + 1..], 0)
    ensures var i := Find(op, s, l); i == |s| <==> Free(op, s, l)
    ensures Free(op, s[..Find(op, s, l)], l)
  {
    hide Is; hide Delta;
    if s == [] {
    } else if l == 0 && Is(op, s[0]) {
      IsFlat(op, s[0]);
      assert s[..0] == [];
    } else {
      FindNested(op, s[1..], l + Delta(s[0]));
      var i := Find(op, s[1..], l + Delta(s[0]));
      assert s[..i + 1][1..] == s[1..][..i];
      if 1 + i < |s| {
        assert s[1..][i + 1..] == s[1 + i + 1..];
      }
    }
  }

  // --------------------------------------------------- the scan of syn0

  datatype Amp = At(place: nat) | Nowhere | Bad(error: Error)

  function Shift(a: Amp, k: nat): Amp {
    if a.At? then At(a.place + k) else a
  }

  // A word behind which an & belongs to the redirection or the pipe.
  predicate Swallows(w: Word) {
    First(w) == '>' || (First(w) == '|' && Second(w) != '|')
  }

  // The place of the first & at depth 0.
  function FindAmp(s: seq<Word>, l: int): (a: Amp)
    ensures a.At? ==> a.place < |s| && First(s[a.place]) == '&'
  {
    if s == [] then
      if l == 0 then Nowhere else Bad(TOOMANYLP)
    else if First(s[0]) == ')' && l - 1 < 0 then
      Bad(TOOMANYRP)
    else if Swallows(s[0]) && |s| > 1 && s[1] == "&" then
      Shift(FindAmp(s[2..], l), 2)
    else if First(s[0]) == '&' && l == 0 && Second(s[0]) != '&' then
      At(0)
    else
      Shift(FindAmp(s[1..], l + Delta(s[0])), 1)
  }

  // Nothing in s is an & of its own.
  predicate AmpFree(s: seq<Word>, l: int) {
    if s == [] then
      true
    else if Swallows(s[0]) then
      |s| > 1 && if s[1] == "&" then AmpFree(s[2..], l) else AmpFree(s[1..], l)
    else
      && !(First(s[0]) == ')' && l - 1 < 0)
      && !(First(s[0]) == '&' && l == 0 && Second(s[0]) != '&')
      && AmpFree(s[1..], l + Delta(s[0]))
  }

  // The scan over a word, with the & that it swallows or without one.
  lemma AmpSkip(s: seq<Word>, l: int)
    requires |s| > 1 && Swallows(s[0]) && s[1] == "&"
    ensures FindAmp(s, l) == Shift(FindAmp(s[2..], l), 2) && AmpFree(s, l) == AmpFree(s[2..], l)
    ensures Run(s, l) == Run(s[2..], l) && (l >= 0 ==> Nested(s, l) == Nested(s[2..], l))
  {
    DeltaIs(s[0]);
    DeltaIs(s[1]);
    assert s[1..][1..] == s[2..];
    assert Run(s[1..], l) == Run(s[1..][1..], l);
    assert l >= 0 ==> Nested(s[1..], l) == Nested(s[1..][1..], l);
  }

  lemma AmpTwo(a: seq<Word>, c: seq<Word>, l: int)
    requires |a| > 1 && Swallows(a[0]) && a[1] == "&"
    ensures FindAmp(a + c, l) == Shift(FindAmp(a[2..] + c, l), 2)
    ensures AmpFree(a + c, l) == AmpFree(a[2..] + c, l) && AmpFree(a, l) == AmpFree(a[2..], l)
    ensures Run(a, l) == Run(a[2..], l)
  {
    AmpSkip(a, l);
    assert (a + c)[2..] == a[2..] + c;
    AmpSkip(a + c, l);
  }

  // The scan goes on behind the word w.
  predicate Passes(w: Word, l: int) {
    !(First(w) == ')' && l - 1 < 0) && !(First(w) == '&' && l == 0 && Second(w) != '&')
  }

  lemma AmpPass(s: seq<Word>, l: int)
    requires s != [] && !(Swallows(s[0]) && |s| > 1 && s[1] == "&")
    ensures Passes(s[0], l) ==> FindAmp(s, l) == Shift(FindAmp(s[1..], l + Delta(s[0])), 1)
    ensures AmpFree(s, l) <==> Passes(s[0], l) && (Swallows(s[0]) ==> |s| > 1) && AmpFree(s[1..], l + Delta(s[0]))
    ensures FindAmp(s, l) == Nowhere ==> Passes(s[0], l)
  {
    DeltaIs(s[0]);
  }

  lemma AmpOne(a: seq<Word>, c: seq<Word>, l: int)
    requires a != [] && AmpFree(a, l) && (Swallows(a[0]) ==> |a| > 1 && a[1] != "&")
    ensures FindAmp(a + c, l) == Shift(FindAmp(a[1..] + c, l + Delta(a[0])), 1)
    ensures AmpFree(a + c, l) == AmpFree(a[1..] + c, l + Delta(a[0])) && AmpFree(a[1..], l + Delta(a[0]))
    ensures Run(a, l) == Run(a[1..], l + Delta(a[0]))
  {
    hide AmpFree; hide FindAmp; hide Passes; hide Swallows; hide Delta; hide Shift;
    AmpPass(a, l);
    assert (a + c)[1..] == a[1..] + c && (a + c)[0] == a[0];
    assert |a| > 1 ==> (a + c)[1] == a[1];
    AmpPass(a + c, l);
  }

  lemma {:induction false} FindAmpFree(a: seq<Word>, c: seq<Word>, l: int)
    requires AmpFree(a, l)
    ensures FindAmp(a + c, l) == Shift(FindAmp(c, Run(a, l)), |a|)
    ensures AmpFree(a + c, l) <==> AmpFree(c, Run(a, l))
    decreases |a|
  {
    hide Swallows; hide First; hide Second; hide Delta;
    if a == [] {
      assert a + c == c;
    } else {
      hide FindAmp; hide Run;
      assert Swallows(a[0]) ==> |a| > 1;
      hide AmpFree;
      if Swallows(a[0]) && |a| > 1 && a[1] == "&" {
        AmpTwo(a, c, l);
        FindAmpFree(a[2..], c, l);
      } else {
        AmpOne(a, c, l);
        FindAmpFree(a[1..], c, l + Delta(a[0]));
      }
    }
  }

  lemma DeltaIs(w: Word)
    ensures if First(w) == ')' then Delta(w) == -1 else Delta(w) >= 0
    ensures Swallows(w) || w == "&" ==> Delta(w) == 0
  {
  }

  lemma FrontOne(s: seq<Word>, k: nat)
    requires k < |s|
    ensures s[..k + 1] == [s[0]] + s[1..][..k] && s[1..][..|s| - 1] == s[1..] && s[..|s|] == s
  {
  }

  // The words in front of a place, or all words.
  predicate FrontNested(s: seq<Word>, l: int, a: Amp) {
    && (a.At? ==> a.place <= |s| && Nested(s[..a.place], l))
    && (a.Nowhere? ==> Nested(s, l))
  }

  lemma FrontBehind(s: seq<Word>, l: int, a: Amp)
    requires s != [] && l + Delta(s[0]) >= 0 && FrontNested(s[1..], l + Delta(s[0]), a)
    ensures FrontNested(s, l, Shift(a, 1))
  {
    hide Nested; hide Delta;
    if a.At? {
      FrontOne(s, a.place);
      NestedBehind(s[0], s[1..][..a.place], l);
    } else if a.Nowhere? {
      FrontOne(s, |s| - 1);
      NestedBehind(s[0], s[1..], l);
    }
  }

  lemma FrontBehindTwo(s: seq<Word>, l: int, a: Amp)
    requires |s| > 1 && l >= 0 && Delta(s[0]) == Delta(s[1]) == 0 && FrontNested(s[2..], l, a)
    ensures FrontNested(s, l, Shift(a, 2))
  {
    hide Nested; hide Delta;
    assert s[1..][1..] == s[2..];
    FrontBehind(s[1..], l, a);
    FrontBehind(s, l, Shift(a, 1));
  }

  // Where syn0 reports no error the parts it goes on with are nested.
  lemma {:induction false} FindAmpNested(s: seq<Word>, l: int)
    requires l >= 0
    ensures var a := FindAmp(s, l);
      && (a.At? ==> Nested(s[..a.place], l))
      && (a.Nowhere? ==> Nested(s, l))
    decreases |s|
  {
    hide Delta; hide First; hide Second; hide Swallows; hide Nested;
    NestedNone();
    if s == [] {
      return;
    }
    DeltaIs(s[0]);
    if First(s[0]) == ')' && l - 1 < 0 {
    } else if Swallows(s[0]) && |s| > 1 && s[1] == "&" {
      DeltaIs(s[1]);
      FindAmpNested(s[2..], l);
      FrontBehindTwo(s, l, FindAmp(s[2..], l));
    } else if First(s[0]) == '&' && l == 0 && Second(s[0]) != '&' {
      assert s[..0] == [];
    } else {
      FindAmpNested(s[1..], l + Delta(s[0]));
      FrontBehind(s, l, FindAmp(s[1..], l + Delta(s[0])));
    }
  }

  // In such words syn0 meets no unmatched closing parenthesis.
  lemma {:induction false} FindAmpBelow(s: seq<Word>, l: int)
    requires NeverBelow(s, l)
    ensures FindAmp(s, l) != Bad(TOOMANYRP)
    decreases |s|
  {
    if s != [] {
      FindAmpBelow(s[1..], l + Delta(s[0]));
      if |s| > 1 && s[1] == "&" && Swallows(s[0]) {
        assert s[1..][1..] == s[2..];
        FindAmpBelow(s[2..], l);
      }
    }
  }

  lemma NestedNone()
    ensures Nested([], 0)
  {
  }

  lemma NestedBehind(w: Word, s: seq<Word>, l: int)
    ensures l + Delta(w) >= 0 && Nested(s, l + Delta(w)) ==> Nested([w] + s, l)
  {
    assert ([w] + s)[1..] == s;
  }

  // ------------------------------------------------------------- syntax

  // How many words syntax skips.
  function Skip(s: seq<Word>): (k: nat)
    ensures k <= |s|
    ensures k < |s| ==> First(s[k]) !in {';', '&', '\n'}
    ensures s != [] && First(s[0]) in {';', '&', '\n'} ==> k > 0
  {
    if s != [] && First(s[0]) in {';', '&', '\n'} then 1 + Skip(s[1..]) else 0
  }

  // ----------------------------------------------------- the scans of syn3

  // A builtin behind which parentheses are ordinary words.
  predicate Special(s: seq<Word>) {
    s != [] &&
    if s[0] == "else" then Special(s[1..])
    else s[0] in {"exit", "foreach", "if", "@", "set", "switch", "while"}
  }

  predicate Relpar(w: Word) {
    First(w) in {'<', '>', '(', ')'}
  }

  // The state of the second scan: the words, the places behind the last
  // parenthesis opened and at the last one closed, and the redirections.
  datatype State = State(words: seq<Word>, lp: Option<nat>, rp: Option<nat>, io: Io)

  // One redirection at s[i]: the state behind it and the place of its last word.
  function Redirect(s: seq<Word>, i: nat, st: State, cx: Context): (r: Result<(State, nat), Error>)
    requires i < |s| && (First(s[i]) == '>' || First(s[i]) == '<')
    ensures r.Ok? ==> i < r.value.1 < |s| && forall j :: i < j <= r.value.1 ==> !Relpar(s[j])
    ensures r.Ok? ==> r.value.0 == st.(io := r.value.0.io)
  {
    if First(s[i]) == '>' then
      var f := if Second(s[i]) == '>' then st.io.flags + {APPEND} else st.io.flags;
      var both := i + 1 < |s| && s[i + 1] == "&";
      if both && (cx.pout || cx.pdiag) then Err(OUTRED) else
      var f, j := if both then f + {STDERR} else f, if both then i + 1 else i;
      var bang := j + 1 < |s| && s[j + 1] == "!";
      var f, j := if bang then f + {OVERWRITE} else f, if bang then j + 1 else j;
      if j + 1 == |s| || Relpar(s[j + 1]) then Err(MISRED) else
      if (cx.pout && !cx.pdiag) || st.io.rit.Some? then Err(OUTRED) else
      Ok((st.(io := Io(st.io.lef, Some(s[j + 1]), f)), j + 1))
    else
      var f := if Second(s[i]) == '<' then st.io.flags + {READ} else st.io.flags;
      if i + 1 == |s| || Relpar(s[i + 1]) then Err(MISRED) else
      if cx.here && READ in f then Err(REDPAR) else
      if cx.pin || st.io.lef.Some? then Err(INRED) else
      Ok((st.(io := Io(Some(s[i + 1]), st.io.rit, f)), i + 1))
  }

  // No file to redirect to or from: only & and ! stand between s[i] and the end
  // of the words, or a word that is none.
  ghost predicate NoFile(s: seq<Word>, i: nat) {
    exists q :: i < q <= |s| && (q == |s| || Relpar(s[q])) && forall k :: i < k < q ==> s[k] == "&" || s[k] == "!"
  }

  // What a redirection comes to: where the file is and which flags come with
  // it, or what is wrong.
  lemma RedirectMeans(s: seq<Word>, i: nat, st: State, cx: Context)
    requires i < |s| && (First(s[i]) == '>' || First(s[i]) == '<')
    ensures match Redirect(s, i, st, cx)
      case Ok(r) =>
        var io, was, p := r.0.io, st.io, r.1;
        if First(s[i]) == '>' then
          && was.rit == None && io.rit == Some(s[p]) && io.lef == was.lef && (cx.pout ==> cx.pdiag)
          && (forall f :: f in io.flags <==> (
                || f in was.flags || (f == APPEND && Second(s[i]) == '>')
                || (f == STDERR && s[i + 1] == "&") || (f == OVERWRITE && p > i + 1 && s[p - 1] == "!")))
        else
          && was.lef == None && io.lef == Some(s[p]) && io.rit == was.rit && p == i + 1 && !cx.pin
          && (forall f :: f in io.flags <==> f in was.flags || (f == READ && Second(s[i]) == '<'))
      case Err(e) =>
        && (e == MISRED ==> NoFile(s, i))
        && (e == OUTRED ==> First(s[i]) == '>' && (cx.pout || cx.pdiag || st.io.rit.Some?))
        && (e == INRED ==> First(s[i]) == '<' && (cx.pin || st.io.lef.Some?))
        && (e == REDPAR ==> First(s[i]) == '<' && cx.here && (Second(s[i]) == '<' || READ in st.io.flags))
        && (e == MISRED || e == OUTRED || e == INRED || e == REDPAR)
  {
    hide First; hide Second;
    if Redirect(s, i, st, cx) == Err(MISRED) {
      var both := First(s[i]) == '>' && i + 1 < |s| && s[i + 1] == "&";
      var j := if both then i + 1 else i;
      var bang := First(s[i]) == '>' && j + 1 < |s| && s[j + 1] == "!";
      var q := if bang then j + 2 else j + 1;
      assert forall k :: i < k < q ==> s[k] == "&" || s[k] == "!";
      assert i < q <= |s| && (q == |s| || Relpar(s[q]));
      assert NoFile(s, i);
    }
  }

  function Push(st: State, w: Word, keep: bool): State {
    if keep then st.(words := st.words + [w]) else st
  }

  function Open(st: State, i: nat, l: int): State {
    if l == 0 then st.(lp := Some(i + 1)) else st
  }

  function Close(st: State, i: nat, l: int): State {
    if l - 1 == 0 then st.(rp := Some(i)) else st
  }

  // The second scan of syn3 from s[i] on, at depth l.
  function Scan(s: seq<Word>, i: nat, l: int, st: State, specp: bool, cx: Context): (r: Result<State, Error>)
    requires i <= |s|
    decreases |s| - i
  {
    if i == |s| then
      Ok(st)
    else if First(s[i]) == '(' then
      if l == 0 && st.lp.Some? && !specp then Err(BADPLP) else
      Scan(s, i + 1, l + 1, Push(Open(st, i, l), s[i], specp), specp, cx)
    else if First(s[i]) == ')' then
      Scan(s, i + 1, l - 1, Push(Close(st, i, l), s[i], specp), specp, cx)
    else if (First(s[i]) == '>' || First(s[i]) == '<') && l == 0 then
      match Redirect(s, i, st, cx)
      case Err(e) => Err(e)
      case Ok(p) => Scan(s, p.1 + 1, l, p.0, specp, cx)
    else
      Scan(s, i + 1, l, Push(st, s[i], l == 0 || specp), specp, cx)
  }

  // The first scan of syn3: the size of the word vector.
  function Count(s: seq<Word>, i: nat, l: int, specp: bool): int
    requires i <= |s|
    decreases |s| - i
  {
    if i == |s| then
      0
    else if Delta(s[i]) != 0 then
      (if specp then 1 else 0) + Count(s, i + 1, l + Delta(s[i]), specp)
    else if First(s[i]) == '>' || First(s[i]) == '<' then
      (if l != 0 then if specp then 1 else 0
       else if i + 1 == |s| || Relpar(s[i + 1]) then 0 else -1) + Count(s, i + 1, l, specp)
    else
      (if !specp && l != 0 then 0 else 1) + Count(s, i + 1, l, specp)
  }

  // The count is never negative, wherever the scan stands.
  lemma {:induction false} CountNonneg(s: seq<Word>, i: nat, l: int, specp: bool)
    requires i <= |s|
    ensures Count(s, i, l, specp) >= if i < |s| && l == 0 && !Relpar(s[i]) then 1 else 0
    decreases |s| - i
  {
    if i < |s| {
      CountNonneg(s, i + 1, l + Delta(s[i]), specp);
    }
  }

  lemma {:induction false} CountOver(s: seq<Word>, i: nat, j: nat, specp: bool)
    requires i <= j < |s| && forall k :: i <= k <= j ==> !Relpar(s[k])
    ensures Count(s, i, 0, specp) == j + 1 - i + Count(s, j + 1, 0, specp)
    decreases j - i
  {
    if i < j {
      CountOver(s, i + 1, j, specp);
    }
  }

  // What the second scan does at s[i], and that the first has counted the word
  // it stores there.
  lemma ScanStep(s: seq<Word>, i: nat, l: int, st: State, specp: bool, cx: Context)
    requires i < |s|
    ensures var r := Scan(s, i, l, st, specp, cx); var c := Count(s, i, l, specp);
      if First(s[i]) == '(' then
        && r == (if l == 0 && st.lp.Some? && !specp then Err(BADPLP)
                 else Scan(s, i + 1, l + 1, Push(Open(st, i, l), s[i], specp), specp, cx))
        && c == Count(s, i + 1, l + 1, specp) + if specp then 1 else 0
      else if First(s[i]) == ')' then
        && r == Scan(s, i + 1, l - 1, Push(Close(st, i, l), s[i], specp), specp, cx)
        && c == Count(s, i + 1, l - 1, specp) + if specp then 1 else 0
      else if (First(s[i]) == '>' || First(s[i]) == '<') && l == 0 then
        match Redirect(s, i, st, cx)
        case Err(e) => r == Err(e)
        case Ok(p) => r == Scan(s, p.1 + 1, l, p.0, specp, cx) && c >= Count(s, p.1 + 1, l, specp)
      else
        && r == Scan(s, i + 1, l, Push(st, s[i], l == 0 || specp), specp, cx)
        && c == Count(s, i + 1, l, specp) + if l == 0 || specp then 1 else 0
  {
    if (First(s[i]) == '>' || First(s[i]) == '<') && l == 0 {
      var r := Redirect(s, i, st, cx);
      if r.Ok? {
        CountOver(s, i + 1, r.value.1, specp);
      }
    }
  }

  lemma ScanEnd(s: seq<Word>, l: int, st: State, specp: bool, cx: Context)
    ensures Scan(s, |s|, l, st, specp, cx) == Ok(st) && Count(s, |s|, l, specp) == 0
  {
  }

  predicate Closed(s: seq<Word>, st: State) {
    st.lp.Some? ==> st.rp.Some? && 1 <= st.lp.value <= st.rp.value < |s|
  }

  lemma {:induction false} NestedOver(s: seq<Word>, i: nat, j: nat, l: int)
    requires i <= j <= |s| && Nested(s[i..], l) && forall k :: i <= k < j ==> Delta(s[k]) == 0
    ensures Nested(s[j..], l)
    decreases j - i
  {
    if i < j {
      assert s[i..][1..] == s[i + 1..];
      NestedOver(s, i + 1, j, l);
    }
  }

  lemma NestedEnd(s: seq<Word>, l: int)
    requires Nested(s[|s|..], l)
    ensures l == 0
  {
    assert s[|s|..] == [];
  }

  lemma NestedStep(s: seq<Word>, i: nat, l: int)
    requires i < |s| && Nested(s[i..], l) && l >= 0
    ensures Nested(s[i + 1..], l + Delta(s[i])) && l + Delta(s[i]) >= 0
  {
    assert s[i..][1..] == s[i + 1..];
  }

  // Without an error every parenthesis the scan sees at depth 0 is closed
  // behind the place where it is opened: the words in between are s[lp..rp].
  lemma {:induction false} Delimited(s: seq<Word>, i: nat, l: int, st: State, specp: bool, cx: Context)
    requires i <= |s| && l >= 0 && Nested(s[i..], l)
    requires if l > 0 then st.lp.Some? && 1 <= st.lp.value <= i else Closed(s, st)
    ensures var r := Scan(s, i, l, st, specp, cx); r.Ok? ==> Closed(s, r.value)
    decreases |s| - i
  {
    hide First; hide Second; hide Redirect; hide Nested;
    if i == |s| {
      NestedEnd(s, l);
    } else {
      NestedStep(s, i, l);
      if First(s[i]) == '(' {
        Delimited(s, i + 1, l + 1, Push(Open(st, i, l), s[i], specp), specp, cx);
      } else if First(s[i]) == ')' {
        Delimited(s, i + 1, l - 1, Push(Close(st, i, l), s[i], specp), specp, cx);
      } else if (First(s[i]) == '>' || First(s[i]) == '<') && l == 0 {
        var r := Redirect(s, i, st, cx);
        if r.Ok? {
          NestedOver(s, i, r.value.1 + 1, l);
          Delimited(s, r.value.1 + 1, l, r.value.0, specp, cx);
        }
      } else {
        Delimited(s, i + 1, l, Push(st, s[i], l == 0 || specp), specp, cx);
      }
    }
  }

  // ------------------------------------------- the second scan after an error

  // After an error the scan goes on, and a redirection that is in error may
  // swallow a parenthesis. l is the depth that it counts at s[i] and m the true
  // one. What lp and rp delimit is nested: between the two nothing is swallowed.
  predicate Tracks(s: seq<Word>, i: nat, l: int, m: int, lp: Option<nat>, rp: Option<nat>) {
    && i <= |s| && 0 <= m && l <= m && Nested(s[i..], m)
    && if l > 0 then lp.Some? && 1 <= lp.value <= i && NeverBelow(s[lp.value..i], 0) && Run(s[lp.value..i], 0) == l - 1
       else Delimits(s, i, lp, rp)
  }

  // syn0(lp, rp) runs from lp forward to a closing parenthesis at rp.
  predicate Delimits(s: seq<Word>, i: nat, lp: Option<nat>, rp: Option<nat>) {
    lp.Some? ==>
      && rp.Some? && 1 <= lp.value <= rp.value < i <= |s|
      && Nested(s[lp.value..rp.value], 0) && First(s[rp.value]) == ')'
  }

  lemma TracksFrom(s: seq<Word>)
    requires Nested(s, 0)
    ensures Tracks(s, 0, 0, 0, None, None)
  {
    assert s[0..] == s;
  }

  lemma InsideMore(s: seq<Word>, a: nat, i: nat)
    requires a <= i < |s| && NeverBelow(s[a..i], 0)
    ensures Run(s[a..i + 1], 0) == Run(s[a..i], 0) + Delta(s[i])
    ensures NeverBelow(s[a..i + 1], 0) <==> Run(s[a..i], 0) + Delta(s[i]) >= 0
  {
    assert s[a..i + 1] == s[a..i] + [s[i]];
    NestedRun(s[a..i], [s[i]], 0);
    BelowConcat(s[a..i], [s[i]], 0);
    assert [s[i]][1..] == [];
    assert Run([s[i]], Run(s[a..i], 0)) == Run([], Run(s[a..i], 0) + Delta(s[i]));
  }

  // One word that the scan looks at.
  lemma TracksWord(s: seq<Word>, i: nat, l: int, m: int, lp: Option<nat>, rp: Option<nat>)
    requires Tracks(s, i, l, m, lp, rp) && i < |s|
    ensures Tracks(s, i + 1, l + Delta(s[i]), m + Delta(s[i]),
      if First(s[i]) == '(' && l == 0 then Some(i + 1) else lp, if First(s[i]) == ')' && l == 1 then Some(i) else rp)
  {
    assert s[i..][1..] == s[i + 1..] && s[i + 1..i + 1] == [];
    if l > 0 {
      InsideMore(s, lp.value, i);
      NestedIs(s[lp.value..i], 0);
    }
  }

  // A redirection swallows the words up to s[j].
  lemma {:induction false} TracksPast(s: seq<Word>, i: nat, j: nat, m: int, lp: Option<nat>, rp: Option<nat>)
    returns (m': int)
    requires Tracks(s, i, 0, m, lp, rp) && i <= j <= |s|
    ensures Tracks(s, j, 0, m', lp, rp)
    decreases j - i
  {
    if i == j {
      return m;
    }
    assert s[i..][1..] == s[i + 1..];
    m' := TracksPast(s, i + 1, j, m + Delta(s[i]), lp, rp);
  }

  lemma TracksEnd(s: seq<Word>, l: int, m: int, lp: Option<nat>, rp: Option<nat>)
    requires Tracks(s, |s|, l, m, lp, rp)
    ensures Delimits(s, |s|, lp, rp)
  {
    assert s[|s|..] == [];
  }
}
