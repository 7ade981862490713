// Whatever the parser accepts is a tree that padd prints faithfully, unless
// it holds one of the few things that padd does not print.
module CshReprint {
  import opened Basics
  import opened CshSyntax
  import opened CshParse
  import opened CshPrint

  // No background command, no null side, no |&, no >! and no file called !.
  predicate Lossless(t: Tree) {
    match t
    case Null => false
    case Command(_, io) => Shown(io)
    case Paren(sub, io) => Shown(io) && Lossless(sub)
    case Pipe(car, cdr, flags) => flags == {} && Lossless(car) && Lossless(cdr)
    case And(car, cdr, flags) => flags == {} && Lossless(car) && Lossless(cdr)
    case Or(car, cdr, flags) => flags == {} && Lossless(car) && Lossless(cdr)
    case List(car, cdr) => Lossless(car) && Lossless(cdr)
  }

  predicate Shown(io: Io) {
    AMPERSAND !in io.flags && OVERWRITE !in io.flags && io.rit != Some("!")
  }

  // --------------------------------------------------- what is left to scan

  // Words at depth l in which the scans of the levels above m find nothing.
  predicate Left(s: seq<Word>, l: int, m: int) {
    l >= 0 && Nested(s, l) && FindAmp(s, l) == Nowhere && forall op: Op :: OpLevel(op) > m ==> Free(op, s, l)
  }

  // One word further.
  lemma LeftNext(s: seq<Word>, l: int, m: int)
    requires Left(s, l, m) && s != []
    requires l == 0 ==> !(Swallows(s[0]) && |s| > 1 && s[1] == "&")
    ensures Left(s[1..], l + Delta(s[0]), m)
  {
    if l != 0 && Swallows(s[0]) && |s| > 1 && s[1] == "&" {
      var r := s[1..];
      assert r[0] == "&" && r[1..] == s[2..] && Delta(r[0]) == 0 && Delta(s[0]) == 0;
      assert FindAmp(r, l) == Shift(FindAmp(r[1..], l), 1);
    }
  }

  // Over the & of a redirection or a pipe.
  lemma LeftOver(s: seq<Word>, m: int)
    requires Left(s, 0, m) && |s| > 1 && Swallows(s[0]) && s[1] == "&"
    ensures Left(s[2..], 0, m)
  {
    var r := s[1..];
    assert r[0] == "&" && r[1..] == s[2..] && Delta(r[0]) == 0 && Delta(s[0]) == 0;
    assert Nested(r, 0);
    forall op: Op | OpLevel(op) > m ensures Free(op, s[2..], 0) {
      assert Free(op, r, 0);
    }
  }

  // A word at depth 0 in front of which there is no redirection is plain, a
  // redirection or a parenthesis.
  lemma LeftFirst(s: seq<Word>)
    requires Left(s, 0, 0) && s != []
    ensures Plain(s[0]) || Relpar(s[0])
    ensures First(s[0]) != '>' ==> !Swallows(s[0])
  {
    assert Free(SEMI, s, 0) && Free(BAR, s, 0) && Free(AND, s, 0);
  }

  // The two sides of an operator.
  lemma {:induction false} AmpSides(s: seq<Word>, l: int, i: nat)
    requires l >= 0 && FindAmp(s, l) == Nowhere && i < |s| && Nested(s[..i], l) && s[i] != "&"
    ensures FindAmp(s[..i], l) == Nowhere && FindAmp(s[i..], 0) == Nowhere
    decreases |s|
  {
    if i == 0 {
      assert s[..0] == [] && s[0..] == s;
      return;
    }
    hide FindAmp; hide Delta; hide Swallows; hide Passes;
    if Swallows(s[0]) && s[1] == "&" {
      AmpSkip(s, l);
      AmpSkip(s[..i], l);
      assert s[..i][2..] == s[2..][..i - 2] && s[2..][i - 2..] == s[i..];
      AmpSides(s[2..], l, i - 2);
    } else {
      AmpPass(s, l);
      AmpPass(s[..i], l);
      assert s[..i][1..] == s[1..][..i - 1] && s[1..][i - 1..] == s[i..];
      AmpSides(s[1..], l + Delta(s[0]), i - 1);
    }
  }

  lemma FreeSides(op: Op, s: seq<Word>, i: nat)
    requires Free(op, s, 0) && i <= |s| && Nested(s[..i], 0)
    ensures Free(op, s[..i], 0) && Free(op, s[i..], 0)
  {
    assert s[..i] + s[i..] == s;
    FreePrefix(op, s[..i], s[i..], 0);
    NestedRun(s[..i], [], 0);
    FindFree(op, s[..i], s[i..], 0);
  }

  lemma {:induction false} FreePrefix(op: Op, a: seq<Word>, c: seq<Word>, l: int)
    requires Free(op, a + c, l)
    ensures Free(op, a, l)
  {
    if a != [] {
      assert (a + c)[1..] == a[1..] + c;
      FreePrefix(op, a[1..], c, l + Delta(a[0]));
    }
  }

  // The sides of the first operator of level m + 1, the right one with it.
  lemma LeftSides(op: Op, s: seq<Word>, m: int)
    requires Left(s, 0, m) && OpLevel(op) == m && Find(op, s, 0) < |s|
    ensures var i := Find(op, s, 0); Left(s[..i], 0, m - 1) && Left(s[i..], 0, m)
  {
    var i := Find(op, s, 0);
    FindNested(op, s, 0);
    AmpSides(s, 0, i);
    assert s[..i] + s[i..] == s;
    NestedRun(s[..i], s[i..], 0);
    forall o: Op | OpLevel(o) >= m ensures Free(o, s[..i], 0) && (OpLevel(o) > m ==> Free(o, s[i..], 0)) {
      if o != op {
        FreeSides(o, s, i);
      }
    }
  }

  lemma LeftNone(op: Op, s: seq<Word>, m: int)
    requires Left(s, 0, m) && OpLevel(op) == m && Find(op, s, 0) == |s|
    ensures Left(s, 0, m - 1)
  {
    FindNested(op, s, 0);
    forall o: Op | OpLevel(o) > m - 1 ensures Free(o, s, 0) {
      assert o == op || OpLevel(o) > m;
    }
  }

  // -------------------------------------------------------- what syn3 keeps

  // The redirection at depth 0 is followed by what is left to scan, and its
  // file is a plain word.
  lemma RedirectLeft(s: seq<Word>, i: nat, st: State, cx: Context)
    requires i < |s| && (First(s[i]) == '>' || First(s[i]) == '<') && Left(s[i..], 0, 0)
    requires Redirect(s, i, st, cx).Ok?
    ensures var j := Redirect(s, i, st, cx).value.1; Left(s[j + 1..], 0, 0) && Plain(s[j])
  {
    hide Left;
    var j := Redirect(s, i, st, cx).value.1;
    var h := i;
    assert s[i..][0] == s[i];
    if First(s[i]) == '>' && s[i + 1] == "&" {
      assert s[i..][1] == "&" && s[i..][2..] == s[i + 2..];
      LeftOver(s[i..], 0);
      h := i + 1;
    } else {
      assert s[i..][1..] == s[i + 1..] && s[i..][1] == s[i + 1];
      LeftNext(s[i..], 0, 0);
    }
    if h + 1 < j {
      assert s[h + 1..][0] == "!" && s[h + 1..][1..] == s[h + 2..];
      LeftNext(s[h + 1..], 0, 0);
    }
    assert s[j..][0] == s[j] && s[j..][1..] == s[j + 1..];
    LeftFirst(s[j..]);
    LeftNext(s[j..], 0, 0);
  }

  // The redirections so far are allowed and, but for >! and a file called !,
  // printed in full.
  predicate IoSoFar(io: Io, cx: Context, last: bool) {
    && io.flags <= {READ, APPEND, STDERR, OVERWRITE, NOFORK}
    && (NOFORK in io.flags <==> last)
    && (READ in io.flags ==> io.lef.Some? && !cx.here)
    && (APPEND in io.flags || STDERR in io.flags ==> io.rit.Some?)
    && (io.lef.Some? ==> Plain(io.lef.value) && !cx.pin)
    && (io.rit.Some? ==> Plain(io.rit.value) && (cx.pout ==> cx.pdiag))
    && (STDERR in io.flags ==> !cx.pout && !cx.pdiag)
  }

  lemma RedirectIo(s: seq<Word>, i: nat, st: State, cx: Context, last: bool)
    requires i < |s| && (First(s[i]) == '>' || First(s[i]) == '<')
    requires IoSoFar(st.io, cx, last) && Redirect(s, i, st, cx).Ok? && Plain(s[Redirect(s, i, st, cx).value.1])
    ensures IoSoFar(Redirect(s, i, st, cx).value.0.io, cx, last)
  {
  }

  // From s[i] on, the scan keeps words that are good and nested.
  lemma {:induction false} Kept(s: seq<Word>, i: nat, l: int, st: State, specp: bool, cx: Context, last: bool)
    requires i <= |s| && Left(s[i..], l, 0) && IoSoFar(st.io, cx, last) && Scan(s, i, l, st, specp, cx).Ok?
    ensures var r := Scan(s, i, l, st, specp, cx).value;
      && st.words <= r.words && IoSoFar(r.io, cx, last)
      && GoodFrom(r.words[|st.words|..], l, specp)
    decreases |s| - i
  {
    hide Left; hide Nested; hide Good; hide IoSoFar; hide GoodFrom; hide Plain; hide Redirect; hide First; hide Second;
    if i == |s| {
      KeptEnd(s, l, specp);
      assert st.words[|st.words|..] == [];
      return;
    }
    var w := s[i];
    assert s[i..][0] == w && s[i..][1..] == s[i + 1..];
    if (First(w) == '>' || First(w) == '<') && l == 0 {
      var p := Redirect(s, i, st, cx).value;
      RedirectLeft(s, i, st, cx);
      RedirectIo(s, i, st, cx, last);
      Kept(s, p.1 + 1, l, p.0, specp, cx, last);
    } else {
      if l == 0 {
        LeftFirst(s[i..]);
      }
      LeftNext(s[i..], l, 0);
      var keep := if Delta(w) != 0 then specp else l == 0 || specp;
      var st1 := Push(if First(w) == '(' then Open(st, i, l) else if First(w) == ')' then Close(st, i, l) else st, w, keep);
      Kept(s, i + 1, l + Delta(w), st1, specp, cx, last);
      LeftDepth(s[i..], l);
      var r := Scan(s, i, l, st, specp, cx).value;
      Stored(st.words, w, keep, r.words);
      GoodMore(w, r.words[|st1.words|..], l, specp, keep);
    }
  }

  lemma Stored(a: seq<Word>, w: Word, keep: bool, r: seq<Word>)
    requires (if keep then a + [w] else a) <= r
    ensures a <= r && r[|a|..] == if keep then [w] + r[|a| + 1..] else r[|a|..]
  {
  }

  // The words that are kept from depth l on.
  predicate GoodFrom(k: seq<Word>, l: int, specp: bool) {
    if specp then Nested(k, l) && Good(k, l, true) else forall i :: 0 <= i < |k| ==> Plain(k[i])
  }

  lemma KeptEnd(s: seq<Word>, l: int, specp: bool)
    requires Left(s[|s|..], l, 0)
    ensures GoodFrom([], l, specp)
  {
    assert s[|s|..] == [];
  }

  lemma LeftDepth(s: seq<Word>, l: int)
    requires Left(s, l, 0) && s != []
    ensures l >= 0 && l + Delta(s[0]) >= 0
  {
  }

  lemma GoodMore(w: Word, k: seq<Word>, l: int, specp: bool, keep: bool)
    requires GoodFrom(k, l + Delta(w), specp) && l >= 0 && l + Delta(w) >= 0
    requires keep == if Delta(w) != 0 then specp else l == 0 || specp
    requires l == 0 ==> Plain(w) || First(w) == '('
    ensures GoodFrom(if keep then [w] + k else k, l, specp)
  {
    var n := [w] + k;
    assert n[1..] == k;
  }

  // A builtin stays in front.
  lemma {:induction false} SpecialKept(s: seq<Word>, i: nat, st: State, cx: Context)
    requires i <= |s| && Special(s[i..]) && Scan(s, i, 0, st, true, cx).Ok?
    requires st.words <= Scan(s, i, 0, st, true, cx).value.words
    ensures Special(Scan(s, i, 0, st, true, cx).value.words[|st.words|..])
    decreases |s| - i
  {
    var w := s[i];
    assert s[i..][0] == w && s[i..][1..] == s[i + 1..];
    assert First(w) !in {'(', ')', '<', '>'};
    var st1 := Push(st, w, true);
    var r := Scan(s, i, 0, st, true, cx).value;
    assert r == Scan(s, i + 1, 0, st1, true, cx).value;
    Longer(s, i + 1, 0, st1, true, cx);
    assert r.words[|st.words|..][0] == w;
    assert r.words[|st.words|..][1..] == r.words[|st1.words|..];
    if w == "else" {
      SpecialKept(s, i + 1, st1, cx);
    }
  }

  lemma {:induction false} Longer(s: seq<Word>, i: nat, l: int, st: State, specp: bool, cx: Context)
    requires i <= |s| && Scan(s, i, l, st, specp, cx).Ok?
    ensures st.words <= Scan(s, i, l, st, specp, cx).value.words
    decreases |s| - i
  {
    if i < |s| {
      var w := s[i];
      if (First(w) == '>' || First(w) == '<') && l == 0 {
        var p := Redirect(s, i, st, cx).value;
        Longer(s, p.1 + 1, l, p.0, specp, cx);
      } else {
        var keep := if Delta(w) != 0 then specp else l == 0 || specp;
        var st1 := Push(if First(w) == '(' then Open(st, i, l) else if First(w) == ')' then Close(st, i, l) else st, w, keep);
        Longer(s, i + 1, l + Delta(w), st1, specp, cx);
      }
    }
  }

  lemma {:induction false} PlainGood(k: seq<Word>, specp: bool)
    requires forall i :: 0 <= i < |k| ==> Plain(k[i])
    ensures Nested(k, 0) && Good(k, 0, specp)
  {
    if k != [] {
      PlainGood(k[1..], specp);
    }
  }

  // ------------------------------------------------------------- the theorem

  // What the functions of the parser return for words that are left to them.

  lemma {:induction false} Faithful3(s: seq<Word>, e: Word, cx: Context)
    requires Left(s, 0, 0) && Nested(s, 0) && Syn3(s, e, cx).Ok? && Lossless(Syn3(s, e, cx).value)
    ensures Faithful(Syn3(s, e, cx).value, cx, First(e) == ')') && Level(Syn3(s, e, cx).value) == 0
    decreases |s|, 1
  {
    hide Left; hide Scan; hide Special; hide Nested; hide Good; hide IoSoFar; hide Lossless; hide Syn0; hide Faithful;
    var last, specp := First(e) == ')', Special(s);
    assert s[0..] == s;
    StartIo(e, cx);
    Kept(s, 0, 0, Start(e), specp, cx, last);
    var st := Scan(s, 0, 0, Start(e), specp, cx).value;
    Delimited(s, 0, 0, Start(e), specp, cx);
    assert st.words[|Start(e).words|..] == st.words;
    if st.lp.Some? && !specp {
      var inner := s[st.lp.value..st.rp.value];
      assert First(s[st.rp.value]) == ')' by { ClosedAt(s, 0, 0, Start(e), specp, cx); }
      LosslessParen(Syn0(inner, s[st.rp.value], Context(true, false, false, false)).value, st.io);
      Faithful0(inner, s[st.rp.value], Context(true, false, false, false));
      FaithfulParen(Syn0(inner, s[st.rp.value], Context(true, false, false, false)).value, st.io, cx, last);
    } else {
      if specp {
        SpecialKept(s, 0, Start(e), cx);
      }
      LosslessCommand(st.words, st.io);
      FaithfulCommand(st.words, st.io, cx, last, specp);
    }
  }

  lemma {:induction false} Faithful0(s: seq<Word>, e: Word, cx: Context)
    requires Syn0(s, e, cx).Ok? && Lossless(Syn0(s, e, cx).value)
    ensures Faithful(Syn0(s, e, cx).value, cx, First(e) == ')')
    decreases |s|, 6
  {
    FindAmpNested(s, 0);
    if FindAmp(s, 0).At? {
      LosslessBackground(s, e, cx);
    } else {
      AllLeft(s);
      Faithful1(s, e, cx);
    }
  }

  lemma AllLeft(s: seq<Word>)
    requires Nested(s, 0) && FindAmp(s, 0) == Nowhere
    ensures Left(s, 0, 4)
  {
  }

  lemma LosslessBackground(s: seq<Word>, e: Word, cx: Context)
    requires FindAmp(s, 0).At? && Syn0(s, e, cx).Ok?
    ensures !Lossless(Syn0(s, e, cx).value)
  {
    hide Syn1; hide Syntax; hide FindAmp;
  }

  // Behind an operator that is not a bar.
  lemma LeftBehind(s: seq<Word>, i: nat, m: int)
    requires i < |s| && Left(s[i..], 0, m) && Delta(s[i]) == 0
    requires Swallows(s[i]) ==> i + 1 == |s| || s[i + 1] != "&"
    ensures Left(s[i + 1..], 0, m)
  {
    hide Left;
    assert s[i..][0] == s[i] && s[i..][1..] == s[i + 1..];
    assert |s[i..]| > 1 ==> s[i..][1] == s[i + 1];
    LeftNext(s[i..], 0, m);
  }

  lemma {:induction false} Faithful1(s: seq<Word>, e: Word, cx: Context)
    requires Left(s, 0, 4) && Nested(s, 0) && Syn1(s, e, cx).Ok? && Lossless(Syn1(s, e, cx).value)
    ensures Faithful(Syn1(s, e, cx).value, cx, First(e) == ')')
    decreases |s|, 5
  {
    hide Left; hide Syn0; hide Syn1a; hide Find;
    var i := Find(SEMI, s, 0);
    FindNested(SEMI, s, 0);
    if i == |s| {
      LeftNone(SEMI, s, 4);
      Faithful1a(s, e, cx);
    } else {
      LeftSides(SEMI, s, 4);
      Faithful1a(s[..i], s[i], cx);
      var r := s[i + 1..];
      Faithful0(r[Skip(r)..], e, cx);
    }
  }

  lemma {:induction false} Faithful1a(s: seq<Word>, e: Word, cx: Context)
    requires Left(s, 0, 3) && Nested(s, 0) && Syn1a(s, e, cx).Ok? && Lossless(Syn1a(s, e, cx).value)
    ensures Faithful(Syn1a(s, e, cx).value, cx, First(e) == ')') && Level(Syn1a(s, e, cx).value) <= 3
    decreases |s|, 4
  {
    hide Left; hide Syn1b; hide Find;
    var i := Find(OR, s, 0);
    FindNested(OR, s, 0);
    if i == |s| {
      LeftNone(OR, s, 3);
      Faithful1b(s, e, cx);
    } else {
      LeftSides(OR, s, 3);
      LeftBehind(s, i, 3);
      Faithful1b(s[..i], s[i], cx);
      Faithful1a(s[i + 1..], e, cx);
    }
  }

  lemma {:induction false} Faithful1b(s: seq<Word>, e: Word, cx: Context)
    requires Left(s, 0, 2) && Nested(s, 0) && Syn1b(s, e, cx).Ok? && Lossless(Syn1b(s, e, cx).value)
    ensures Faithful(Syn1b(s, e, cx).value, cx, First(e) == ')') && Level(Syn1b(s, e, cx).value) <= 2
    decreases |s|, 3
  {
    hide Left; hide Syn2; hide Find;
    var i := Find(AND, s, 0);
    FindNested(AND, s, 0);
    if i == |s| {
      LeftNone(AND, s, 2);
      Faithful2(s, e, cx);
    } else {
      LeftSides(AND, s, 2);
      LeftBehind(s, i, 2);
      Faithful2(s[..i], s[i], cx);
      Faithful1b(s[i + 1..], e, cx);
    }
  }

  lemma {:induction false} Faithful2(s: seq<Word>, e: Word, cx: Context)
    requires Left(s, 0, 1) && Nested(s, 0) && Syn2(s, e, cx).Ok? && Lossless(Syn2(s, e, cx).value)
    ensures Faithful(Syn2(s, e, cx).value, cx, First(e) == ')') && Level(Syn2(s, e, cx).value) <= 1
    decreases |s|, 2
  {
    hide Left; hide Syn3; hide Find;
    var i := Find(BAR, s, 0);
    FindNested(BAR, s, 0);
    if i == |s| {
      LeftNone(BAR, s, 1);
      Faithful3(s, e, cx);
    } else {
      var diag := i + 1 < |s| && First(s[i + 1]) == '&';
      assert !diag;
      LeftSides(BAR, s, 1);
      LeftBehind(s, i, 1);
      Faithful3(s[..i], s[i], cx.(pout := true));
      Faithful2(s[i + 1..], e, cx.(pin := true));
    }
  }

  // For every list of words the parser accepts: if the tree is lossless,
  // parsing the words that padd prints for it gives it back.
  lemma Reprint(s: seq<Word>)
    requires Syntax(s, "", Context(false, false, false, false)).Ok?
    requires Lossless(Syntax(s, "", Context(false, false, false, false)).value)
    ensures var t := Syntax(s, "", Context(false, false, false, false)).value;
      Syntax(Print(t), "", Context(false, false, false, false)) == Ok(t)
  {
    hide Syn0;
    var cx := Context(false, false, false, false);
    Faithful0(s[Skip(s)..], "", cx);
    RoundTrip(Syntax(s, "", cx).value);
  }

  // ------------------------------------------------------- what comes out

  // In front of the first & of its own there is none.
  lemma {:induction false} AmpBefore(s: seq<Word>, l: int)
    requires l >= 0 && FindAmp(s, l).At?
    ensures FindAmp(s[..FindAmp(s, l).place], l) == Nowhere
    decreases |s|
  {
    hide FindAmp; hide Delta; hide Swallows; hide Passes;
    var i := FindAmp(s, l).place;
    AmpCases(s, l);
    if i == 0 {
      assert s[..0] == [];
    } else if Swallows(s[0]) && |s| > 1 && s[1] == "&" {
      AmpSkip(s, l);
      AmpBefore(s[2..], l);
      assert s[..i][2..] == s[2..][..i - 2];
      AmpSkip(s[..i], l);
    } else {
      AmpPass(s, l);
      AmpBefore(s[1..], l + Delta(s[0]));
      assert s[..i][1..] == s[1..][..i - 1];
      AmpPass(s[..i], l);
    }
  }

  lemma AmpCases(s: seq<Word>, l: int)
    requires FindAmp(s, l).At? && l >= 0
    ensures s != [] && FindAmp([], 0) == Nowhere
    ensures FindAmp(s, l).place == 0 ==> l == 0
    ensures FindAmp(s, l).place > 0 && !(Swallows(s[0]) && |s| > 1 && s[1] == "&") ==>
      Passes(s[0], l) && l + Delta(s[0]) >= 0
  {
    if s != [] {
      DeltaIs(s[0]);
    }
  }

  // Behind a bar, and behind the & that belongs to it.
  lemma LeftBar(s: seq<Word>, i: nat)
    requires i < |s| && Left(s[i..], 0, 1) && Is(BAR, s[i])
    ensures var diag := i + 1 < |s| && First(s[i + 1]) == '&';
      Left(s[if diag then i + 2 else i + 1..], 0, 1)
  {
    var r := s[i..];
    assert r[0] == s[i] && r[1..] == s[i + 1..] && (|r| > 1 ==> r[1] == s[i + 1] && r[2..] == s[i + 2..]);
    BarOne(r);
    if |r| > 1 && First(r[1]) == '&' {
      LeftOver(r, 1);
    } else {
      LeftNext(r, 0, 1);
    }
  }

  lemma BarOne(r: seq<Word>)
    requires Left(r, 0, 1) && r != [] && Is(BAR, r[0])
    ensures Swallows(r[0]) && (|r| > 1 && First(r[1]) == '&' ==> r[1] == "&")
  {
    assert Free(OR, r, 0) && Free(AND, r, 0);
    if |r| > 1 && First(r[1]) == '&' {
      assert Free(AND, r[1..], 0);
      assert FindAmp(r[1..], 0) != Nowhere;
    }
  }

  // Whatever the parser accepts is a shaped tree.
  lemma {:induction false} Shaped3(s: seq<Word>, e: Word, cx: Context)
    requires Left(s, 0, 0) && Nested(s, 0) && Syn3(s, e, cx).Ok?
    ensures Shaped(Syn3(s, e, cx).value) && Level(Syn3(s, e, cx).value) == 0
    decreases |s|, 1
  {
    hide Left; hide Scan; hide Special; hide Nested; hide Good; hide IoSoFar; hide Syn0; hide Shaped; hide GoodFrom;
    var last, specp := First(e) == ')', Special(s);
    assert s[0..] == s;
    StartIo(e, cx);
    Kept(s, 0, 0, Start(e), specp, cx, last);
    var st := Scan(s, 0, 0, Start(e), specp, cx).value;
    Delimited(s, 0, 0, Start(e), specp, cx);
    assert st.words[|Start(e).words|..] == st.words;
    if st.lp.Some? && !specp {
      var inner := s[st.lp.value..st.rp.value];
      Shaped0(inner, s[st.rp.value], Context(true, false, false, false));
      ShapedParen(Syn0(inner, s[st.rp.value], Context(true, false, false, false)).value, st.io, cx, last);
    } else {
      if specp {
        SpecialKept(s, 0, Start(e), cx);
      }
      ShapedCommand(st.words, st.io, cx, last, specp);
    }
  }

  lemma ShapedParen(sub: Tree, io: Io, cx: Context, last: bool)
    requires Shaped(sub) && sub != Null && IoSoFar(io, cx, last)
    ensures Shaped(Paren(sub, io))
  {
  }

  lemma ShapedCommand(words: seq<Word>, io: Io, cx: Context, last: bool, specp: bool)
    requires words != [] && GoodFrom(words, 0, specp) && (specp ==> Special(words)) && IoSoFar(io, cx, last)
    ensures Shaped(Command(words, io))
  {
    if !specp {
      PlainGood(words, Special(words));
    }
  }

  lemma ShapedBackground(t: Tree)
    requires Shaped(t) && t != Null
    ensures Shaped(Background(t)) && 0 <= Level(Background(t)) <= 1
  {
  }

  lemma ShapedList(t: Tree, u: Tree)
    requires Shaped(t) && 0 <= Level(t) <= 3 && Shaped(u)
    ensures Shaped(List(t, u)) && Shaped(Node(SEMI, t, u, false)) && Node(SEMI, t, u, false) != Null
  {
  }

  lemma {:induction false} Shaped0(s: seq<Word>, e: Word, cx: Context)
    requires Syn0(s, e, cx).Ok?
    ensures Shaped(Syn0(s, e, cx).value) && Syn0(s, e, cx).value != Null
    decreases |s|, 6
  {
    hide Syn1; hide Shaped; hide FindAmp; hide Nested; hide Level;
    FindAmpNested(s, 0);
    match FindAmp(s, 0)
    case Nowhere =>
      AllLeft(s);
      Shaped1(s, e, cx);
    case At(i) =>
      AmpBefore(s, 0);
      AllLeft(s[..i]);
      Shaped1(s[..i], s[i], cx);
      ShapedBackground(Syn1(s[..i], s[i], cx).value);
      var r := s[i..];
      assert r[0] == s[i];
      if Skip(r) < |r| {
        Shaped0(r[Skip(r)..], e, cx);
      } else {
        ShapedNull();
      }
      ShapedList(Background(Syn1(s[..i], s[i], cx).value), Syntax(r, e, cx).value);
  }

  lemma ShapedNull()
    ensures Shaped(Null)
  {
  }

  lemma {:induction false} Shaped1(s: seq<Word>, e: Word, cx: Context)
    requires Left(s, 0, 4) && Nested(s, 0) && Syn1(s, e, cx).Ok?
    ensures Shaped(Syn1(s, e, cx).value) && Syn1(s, e, cx).value != Null
    decreases |s|, 5
  {
    hide Left; hide Syn0; hide Syn1a; hide Find; hide Shaped; hide Nested; hide Node;
    var i := Find(SEMI, s, 0);
    FindNested(SEMI, s, 0);
    if i == |s| {
      LeftNone(SEMI, s, 4);
      Shaped1a(s, e, cx);
    } else {
      LeftSides(SEMI, s, 4);
      Shaped1a(s[..i], s[i], cx);
      var r := s[i + 1..];
      if Skip(r) < |r| {
        Shaped0(r[Skip(r)..], e, cx);
      } else {
        ShapedNull();
      }
      ShapedList(Syn1a(s[..i], s[i], cx).value, Syntax(r, e, cx).value);
    }
  }

  lemma {:induction false} Shaped1a(s: seq<Word>, e: Word, cx: Context)
    requires Left(s, 0, 3) && Nested(s, 0) && Syn1a(s, e, cx).Ok?
    ensures Shaped(Syn1a(s, e, cx).value) && 0 <= Level(Syn1a(s, e, cx).value) <= 3
    decreases |s|, 4
  {
    hide Left; hide Syn1b; hide Find; hide Nested;
    var i := Find(OR, s, 0);
    FindNested(OR, s, 0);
    if i == |s| {
      LeftNone(OR, s, 3);
      Shaped1b(s, e, cx);
    } else {
      LeftSides(OR, s, 3);
      LeftBehind(s, i, 3);
      Shaped1b(s[..i], s[i], cx);
      Shaped1a(s[i + 1..], e, cx);
    }
  }

  lemma {:induction false} Shaped1b(s: seq<Word>, e: Word, cx: Context)
    requires Left(s, 0, 2) && Nested(s, 0) && Syn1b(s, e, cx).Ok?
    ensures Shaped(Syn1b(s, e, cx).value) && 0 <= Level(Syn1b(s, e, cx).value) <= 2
    decreases |s|, 3
  {
    hide Left; hide Syn2; hide Find; hide Nested;
    var i := Find(AND, s, 0);
    FindNested(AND, s, 0);
    if i == |s| {
      LeftNone(AND, s, 2);
      Shaped2(s, e, cx);
    } else {
      LeftSides(AND, s, 2);
      LeftBehind(s, i, 2);
      Shaped2(s[..i], s[i], cx);
      Shaped1b(s[i + 1..], e, cx);
    }
  }

  lemma {:induction false} Shaped2(s: seq<Word>, e: Word, cx: Context)
    requires Left(s, 0, 1) && Nested(s, 0) && Syn2(s, e, cx).Ok?
    ensures Shaped(Syn2(s, e, cx).value) && 0 <= Level(Syn2(s, e, cx).value) <= 1
    decreases |s|, 2
  {
    hide Left; hide Syn3; hide Find; hide Nested; hide Is;
    var i := Find(BAR, s, 0);
    FindNested(BAR, s, 0);
    if i == |s| {
      LeftNone(BAR, s, 1);
      Shaped3(s, e, cx);
    } else {
      var diag := i + 1 < |s| && First(s[i + 1]) == '&';
      LeftSides(BAR, s, 1);
      LeftBar(s, i);
      LeftNested(s[if diag then i + 2 else i + 1..], 1);
      Shaped3(s[..i], s[i], cx.(pout := true, pdiag := cx.pdiag || diag));
      Shaped2(s[if diag then i + 2 else i + 1..], e, cx.(pin := true));
    }
  }

  lemma LeftNested(s: seq<Word>, m: int)
    requires Left(s, 0, m)
    ensures Nested(s, 0)
  {
  }

  lemma StartIo(e: Word, cx: Context)
    ensures IoSoFar(Start(e).io, cx, First(e) == ')')
  {
  }

  // The place of the last closed parenthesis holds one.
  lemma {:induction false} ClosedAt(s: seq<Word>, i: nat, l: int, st: State, specp: bool, cx: Context)
    requires i <= |s| && Scan(s, i, l, st, specp, cx).Ok?
    requires st.rp.Some? ==> st.rp.value < |s| && First(s[st.rp.value]) == ')'
    ensures var r := Scan(s, i, l, st, specp, cx).value; r.rp.Some? ==> r.rp.value < |s| && First(s[r.rp.value]) == ')'
    decreases |s| - i
  {
    if i < |s| {
      var w := s[i];
      if (First(w) == '>' || First(w) == '<') && l == 0 {
        var p := Redirect(s, i, st, cx).value;
        ClosedAt(s, p.1 + 1, l, p.0, specp, cx);
      } else {
        var keep := if Delta(w) != 0 then specp else l == 0 || specp;
        var st1 := Push(if First(w) == '(' then Open(st, i, l) else if First(w) == ')' then Close(st, i, l) else st, w, keep);
        ClosedAt(s, i + 1, l + Delta(w), st1, specp, cx);
      }
    }
  }

  lemma LosslessParen(sub: Tree, io: Io)
    requires Lossless(Paren(sub, io))
    ensures Lossless(sub) && Shown(io)
  {
  }

  lemma LosslessCommand(words: seq<Word>, io: Io)
    requires Lossless(Command(words, io))
    ensures Shown(io)
  {
  }

  lemma ShownOk(io: Io, cx: Context, last: bool)
    requires IoSoFar(io, cx, last) && Shown(io)
    ensures IoOk(io, cx, last)
  {
  }

  lemma FaithfulParen(sub: Tree, io: Io, cx: Context, last: bool)
    requires Faithful(sub, Context(true, false, false, false), true) && IoSoFar(io, cx, last) && Shown(io)
    ensures Faithful(Paren(sub, io), cx, last)
  {
    ShownOk(io, cx, last);
  }

  lemma FaithfulCommand(words: seq<Word>, io: Io, cx: Context, last: bool, specp: bool)
    requires words != [] && GoodFrom(words, 0, specp) && (specp ==> Special(words)) && IoSoFar(io, cx, last) && Shown(io)
    ensures Faithful(Command(words, io), cx, last)
  {
    ShownOk(io, cx, last);
    if !specp {
      PlainGood(words, Special(words));
    }
  }
}
