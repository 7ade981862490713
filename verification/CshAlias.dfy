// The alias pass that comes before every call of the csh parser.  It looks for
// the first word of each command, and it refuses an unmatched closing
// parenthesis at once, so that the parser never meets one.
module CshAlias {
  import opened Basics
  import opened CshSyntax
  import opened CshHeads

  // What a pass over the words comes to: nothing left to do, too many )'s, or
  // a command s[from..upto] whose first word is an alias.
  datatype Pass = Passed | Refused | Expands(from: nat, upto: nat)

  function Moved(a: Pass, k: nat): Pass {
    if a.Expands? then Expands(a.from + k, a.upto + k) else a
  }

  // The end of the scan of asyn0: a parenthesis too many, the first separator
  // at depth 0, or the end of the words at some depth.
  datatype End = Below | Sep(place: nat) | Ends(depth: int)

  function Later(e: End, k: nat): End {
    if e.Sep? then Sep(e.place + k) else e
  }

  function Cut(s: seq<Word>, l: int): (e: End)
    ensures e.Sep? ==> e.place < |s|
  {
    if s == [] then Ends(l)
    else if First(s[0]) == ')' && l - 1 < 0 then Below
    else if First(s[0]) == '>' && |s| > 1 && s[1] == "&" then Later(Cut(s[2..], l), 2)
    else if First(s[0]) in {'&', '|', ';', '\n'} && l == 0 then Sep(0)
    else Later(Cut(s[1..], l + Delta(s[0])), 1)
  }

  // The last word of s[..k] that is a closing parenthesis, or 0.
  function LastClose(s: seq<Word>, k: nat): (j: nat)
    requires k <= |s|
    ensures j <= k && (0 < k ==> j < k)
  {
    if k == 0 then 0 else if k == 1 || First(s[k - 1]) == ')' then k - 1 else LastClose(s, k - 1)
  }

  function Asyntax(s: seq<Word>, aliased: Word -> bool): Pass
    decreases |s| - Skip(s), 2
  {
    if Skip(s) < |s| then Moved(Asyn0(s[Skip(s)..], aliased), Skip(s)) else Passed
  }

  function Asyn0(s: seq<Word>, aliased: Word -> bool): Pass
    decreases |s|, 1
  {
    match Cut(s, 0)
    case Below => Refused
    case Ends(l) => if l == 0 then Asyn3(s, aliased) else Passed
    case Sep(i) =>
      var a := Asyn3(s[..i], aliased);
      if a != Passed then a else Moved(Asyntax(s[i + 1..], aliased), i + 1)
  }

  function Asyn3(s: seq<Word>, aliased: Word -> bool): Pass
    decreases |s|, 0
  {
    if s == [] then Passed
    else if First(s[0]) == '(' then
      if LastClose(s, |s|) <= 1 then Passed else Moved(Asyn0(s[1..LastClose(s, |s|)], aliased), 1)
    else if aliased(s[0]) then Expands(0, |s|)
    else Passed
  }

  // ---------------------------------------------------- what a pass ensures

  lemma {:induction false} CutBelow(s: seq<Word>, l: int)
    requires l >= 0
    ensures match Cut(s, l)
      case Below => !NeverBelow(s, l)
      case Sep(i) => NeverBelow(s[..i], l) && Run(s[..i], l) == 0 && Delta(s[i]) == 0
      case Ends(k) => NeverBelow(s, l) && Run(s, l) == k
    decreases |s|
  {
    hide NeverBelow; hide Run; hide Delta; hide First;
    BelowNone(l);
    if s == [] {
      return;
    }
    DeltaIs(s[0]);
    SeparatorFlat(s[0]);
    if First(s[0]) == ')' && l - 1 < 0 {
      assert s == [s[0]] + s[1..];
      BelowBehind(s[0], s[1..], l);
    } else if First(s[0]) == '>' && |s| > 1 && s[1] == "&" {
      CutBelow(s[2..], l);
      var e := Cut(s[2..], l);
      BelowTwo(s, s[2..], l);
      if e.Sep? {
        assert s[..e.place + 2][2..] == s[2..][..e.place];
        BelowTwo(s[..e.place + 2], s[2..][..e.place], l);
      }
    } else if First(s[0]) in {'&', '|', ';', '\n'} && l == 0 {
      assert s[..0] == [];
    } else {
      CutBelow(s[1..], l + Delta(s[0]));
      var e := Cut(s[1..], l + Delta(s[0]));
      var r := if e.Sep? then s[1..][..e.place] else s[1..];
      BelowBehind(s[0], r, l);
      assert (if e.Sep? then s[..e.place + 1] else s) == [s[0]] + r;
    }
  }

  lemma BelowTwo(s: seq<Word>, r: seq<Word>, l: int)
    requires |s| >= 2 && First(s[0]) == '>' && s[1] == "&" && r == s[2..] && l >= 0
    ensures NeverBelow(s, l) <==> NeverBelow(r, l)
    ensures Run(s, l) == Run(r, l)
  {
    assert s[1..][1..] == r;
  }

  lemma BelowNone(l: int)
    ensures NeverBelow([], l) && Run([], l) == l
  {
  }

  lemma SeparatorFlat(w: Word)
    ensures First(w) in {'&', '|', ';', '\n', '>'} ==> Delta(w) == 0
  {
  }

  lemma BelowBehind(w: Word, s: seq<Word>, l: int)
    ensures NeverBelow([w] + s, l) <==> l + Delta(w) >= 0 && NeverBelow(s, l + Delta(w))
    ensures Run([w] + s, l) == Run(s, l + Delta(w))
  {
    assert ([w] + s)[1..] == s;
  }

  lemma {:induction false} SkipBelow(s: seq<Word>)
    ensures NeverBelow(s, 0) <==> NeverBelow(s[Skip(s)..], 0)
  {
    if s != [] && First(s[0]) in {';', '&', '\n'} {
      SkipBelow(s[1..]);
      assert s[1..][Skip(s[1..])..] == s[Skip(s)..];
    } else {
      assert s[0..] == s;
    }
  }

  // Words that pass never close a parenthesis that is not open.
  lemma {:induction false} PassedBelow(s: seq<Word>, aliased: Word -> bool)
    requires Asyntax(s, aliased) == Passed
    ensures NeverBelow(s, 0)
    decreases |s| - Skip(s), 1
  {
    SkipBelow(s);
    if Skip(s) < |s| {
      Passed0Below(s[Skip(s)..], aliased);
    }
  }

  lemma {:induction false} Passed0Below(s: seq<Word>, aliased: Word -> bool)
    requires Asyn0(s, aliased) == Passed
    ensures NeverBelow(s, 0)
    decreases |s|, 0
  {
    CutBelow(s, 0);
    if Cut(s, 0).Sep? {
      var i := Cut(s, 0).place;
      PassedBelow(s[i + 1..], aliased);
      assert s == s[..i] + s[i..] && s[i..][1..] == s[i + 1..];
      BelowConcat(s[..i], s[i..], 0);
    }
  }

  // ---------------------------------------------------- what a pass looks at

  // From depth l on, s[j] separates two commands.
  predicate Cuts(s: seq<Word>, l: int, j: nat)
    requires j < |s|
  {
    && First(s[j]) in {'&', '|', ';', '\n'} && Run(s[..j], l) == 0
    && !(j > 0 && s[j] == "&" && First(s[j - 1]) == '>')
  }

  // The scan of asyn0 stops at the first separator.
  ghost predicate Stops(s: seq<Word>, l: int, e: End) {
    && (e.Sep? ==> e.place < |s| && Cuts(s, l, e.place) && forall j :: 0 <= j < e.place ==> !Cuts(s, l, j))
    && (e.Ends? ==> Run(s, l) == e.depth && forall j :: 0 <= j < |s| ==> !Cuts(s, l, j))
  }

  lemma CutsBehind(s: seq<Word>, l: int, j: nat)
    requires 0 < j < |s| && !(j == 1 && s[1] == "&" && First(s[0]) == '>')
    ensures Cuts(s, l, j) <==> Cuts(s[1..], l + Delta(s[0]), j - 1)
  {
    assert s[..j][1..] == s[1..][..j - 1];
  }

  // Over one word that does not stop the scan.
  lemma StopsOne(s: seq<Word>, l: int, e: End)
    requires s != [] && !Cuts(s, l, 0) && Stops(s[1..], l + Delta(s[0]), e)
    requires !(First(s[0]) == '>' && |s| > 1 && s[1] == "&")
    ensures Stops(s, l, Later(e, 1))
  {
    hide Cuts;
    forall j | 1 <= j < |s| ensures Cuts(s, l, j) <==> Cuts(s[1..], l + Delta(s[0]), j - 1) {
      CutsBehind(s, l, j);
    }
  }

  // Over a redirection with its &.
  lemma StopsTwo(s: seq<Word>, l: int, e: End)
    requires |s| > 1 && First(s[0]) == '>' && s[1] == "&" && Stops(s[2..], l, e)
    ensures Stops(s, l, Later(e, 2))
  {
    hide Cuts;
    SeparatorFlat(s[0]);
    SeparatorFlat(s[1]);
    NoCut(s, l);
    assert s[1..][1..] == s[2..];
    assert Run(s, l) == Run(s[1..], l) == Run(s[2..], l);
    forall j | 2 <= j < |s| ensures Cuts(s, l, j) <==> Cuts(s[2..], l, j - 2) {
      CutsBehind(s, l, j);
      CutsBehind(s[1..], l, j - 1);
    }
  }

  lemma NoCut(s: seq<Word>, l: int)
    requires |s| > 1 && First(s[0]) == '>' && s[1] == "&"
    ensures !Cuts(s, l, 0) && !Cuts(s, l, 1)
  {
  }

  lemma {:induction false} CutStops(s: seq<Word>, l: int)
    ensures Stops(s, l, Cut(s, l))
    decreases |s|
  {
    hide Stops; hide Cuts;
    if s == [] {
      StopsEnd(l);
    } else if First(s[0]) == ')' && l - 1 < 0 {
      StopsBelow(s, l);
    } else if First(s[0]) == '>' && |s| > 1 && s[1] == "&" {
      CutStops(s[2..], l);
      StopsTwo(s, l, Cut(s[2..], l));
    } else if First(s[0]) in {'&', '|', ';', '\n'} && l == 0 {
      StopsHere(s);
    } else {
      CutStops(s[1..], l + Delta(s[0]));
      CutsHere(s, l);
      StopsOne(s, l, Cut(s[1..], l + Delta(s[0])));
    }
  }

  lemma StopsEnd(l: int)
    ensures Stops([], l, Ends(l))
  {
  }

  lemma StopsBelow(s: seq<Word>, l: int)
    ensures Stops(s, l, Below)
  {
  }

  lemma StopsHere(s: seq<Word>)
    requires s != [] && First(s[0]) in {'&', '|', ';', '\n'}
    ensures Stops(s, 0, Sep(0))
  {
    assert s[..0] == [];
  }

  lemma CutsHere(s: seq<Word>, l: int)
    requires s != []
    ensures Cuts(s, l, 0) <==> First(s[0]) in {'&', '|', ';', '\n'} && l == 0
  {
    assert s[..0] == [];
  }

  lemma CutSeparates(s: seq<Word>)
    ensures var e := Cut(s, 0);
      && (e.Sep? ==> e.place < |s| && Separates(s, e.place) && NoneBefore(s, e.place))
      && (e.Ends? ==> Run(s, 0) == e.depth && NoneBefore(s, |s|))
  {
    CutStops(s, 0);
    assert forall j :: 0 <= j < |s| ==> (Separates(s, j) <==> Cuts(s, 0, j));
  }

  // No command of the words starts with an alias, and no parenthesis is closed
  // that is not open.
  ghost predicate Settled(s: seq<Word>, aliased: Word -> bool) {
    !Spills(s) && forall p: nat, q: nat :: Head(s, p, q) ==> !aliased(s[p])
  }

  // s[p..q] is the first command that starts with an alias.
  ghost predicate Due(s: seq<Word>, aliased: Word -> bool, p: nat, q: nat) {
    Head(s, p, q) && aliased(s[p]) && forall h: nat, k: nat :: Head(s, h, k) && h < p ==> !aliased(s[h])
  }

  // What a pass finds is right: nothing but commands that start with no alias,
  // or the first one that does; or a parenthesis too many.
  ghost predicate Finds(s: seq<Word>, aliased: Word -> bool, a: Pass) {
    match a
    case Passed => Settled(s, aliased)
    case Refused => Spills(s)
    case Expands(f, u) => Due(s, aliased, f, u)
  }

  // The same for one command.
  ghost predicate FindsIn(t: seq<Word>, aliased: Word -> bool, a: Pass) {
    if t == [] then a == Passed else
    match a
    case Passed => !SpillsIn(t) && forall p: nat, q: nat :: Begins(t, p, q) && p < q <= |t| ==> !aliased(t[p])
    case Refused => SpillsIn(t)
    case Expands(f, u) =>
      && Begins(t, f, u) && f < u <= |t| && aliased(t[f])
      && forall p: nat, q: nat :: Begins(t, p, q) && p < q <= |t| && p < f ==> !aliased(t[p])
  }

  lemma {:induction false} SyntaxFinds(s: seq<Word>, aliased: Word -> bool)
    ensures Finds(s, aliased, Asyntax(s, aliased))
    decreases |s| - Skip(s), 2, |s|
  {
    hide Head; hide Asyn0;
    SkipFinds(s, aliased);
    if Skip(s) < |s| {
      Asyn0Finds(s[Skip(s)..], aliased);
    } else {
      NoHead(aliased);
      assert s[Skip(s)..] == [];
    }
  }

  lemma NoHead(aliased: Word -> bool)
    ensures Finds([], aliased, Passed)
  {
  }

  // The separators in front hold no command.
  lemma {:induction false} SkipFinds(s: seq<Word>, aliased: Word -> bool)
    ensures forall a :: Finds(s[Skip(s)..], aliased, a) ==> Finds(s, aliased, Moved(a, Skip(s)))
    decreases |s|
  {
    hide Head;
    if s != [] && First(s[0]) in {';', '&', '\n'} {
      SkipFinds(s[1..], aliased);
      assert s[1..][Skip(s[1..])..] == s[Skip(s)..];
      forall a | Finds(s[1..], aliased, a) ensures Finds(s, aliased, Moved(a, 1)) {
        FindsOver(s, aliased, a);
      }
    } else {
      assert s[0..] == s;
    }
  }

  lemma SpillsNone()
    ensures !SpillsIn([])
  {
  }

  lemma FindsOver(s: seq<Word>, aliased: Word -> bool, a: Pass)
    requires s != [] && First(s[0]) in {';', '&', '\n'} && Finds(s[1..], aliased, a)
    ensures Finds(s, aliased, Moved(a, 1))
  {
    FindsBehind(s, 0, aliased, Passed, a);
  }

  // The command in front of the first separator, and those behind it.
  lemma FindsBehind(s: seq<Word>, i: nat, aliased: Word -> bool, a: Pass, b: Pass)
    requires i < |s| && Separates(s, i) && NoneBefore(s, i) && NeverBelow(s[..i], 0)
    requires FindsIn(s[..i], aliased, a) && Finds(s[i + 1..], aliased, b)
    ensures Finds(s, aliased, if a != Passed then a else Moved(b, i + 1))
  {
    hide Head; hide Begins; hide Separates; hide NoneBefore; hide Spills; hide SpillsIn; hide NeverBelow;
    SpillsSplit(s, i);
    SpillsNone();
    var t, r := s[..i], s[i + 1..];
    HeadWithin(s);
    HeadWithin(r);
    if a.Expands? {
      HeadSplit(s, i, a.from, a.upto);
    } else if a == Passed && b.Expands? {
      HeadSplit(s, i, b.from + i + 1, b.upto + i + 1);
      assert s[b.from + i + 1] == r[b.from];
    }
    forall p: nat, q: nat | Head(s, p, q)
      ensures a == Passed && b == Passed ==> !aliased(s[p])
      ensures a.Expands? && p < a.from ==> !aliased(s[p])
      ensures a == Passed && b.Expands? && p < b.from + i + 1 ==> !aliased(s[p])
    {
      HeadSplit(s, i, p, q);
      if p <= i {
        assert s[p] == t[p];
      } else {
        assert s[p] == r[p - i - 1];
      }
    }
  }

  lemma {:induction false} Asyn0Finds(s: seq<Word>, aliased: Word -> bool)
    ensures Finds(s, aliased, Asyn0(s, aliased))
    decreases |s|, 1, 0
  {
    hide Head; hide Asyn3; hide Asyntax; hide Finds; hide FindsIn; hide Separates; hide NoneBefore; hide NeverBelow;
    CutSeparates(s);
    CutBelow(s, 0);
    match Cut(s, 0)
    case Below => FindsRefused(s, aliased);
    case Ends(l) =>
      if l == 0 {
        Asyn3Finds(s, aliased);
      }
      FindsAll(s, aliased, Asyn3(s, aliased));
    case Sep(i) =>
      Asyn3Finds(s[..i], aliased);
      SyntaxFinds(s[i + 1..], aliased);
      FindsBehind(s, i, aliased, Asyn3(s[..i], aliased), Asyntax(s[i + 1..], aliased));
  }

  lemma FindsRefused(s: seq<Word>, aliased: Word -> bool)
    requires !NeverBelow(s, 0)
    ensures Finds(s, aliased, Refused)
  {
  }

  lemma FindsAll(s: seq<Word>, aliased: Word -> bool, a: Pass)
    requires NoneBefore(s, |s|) && NeverBelow(s, 0) && (Run(s, 0) == 0 ==> FindsIn(s, aliased, a))
    ensures Finds(s, aliased, if Run(s, 0) == 0 then a else Passed)
  {
    hide Head; hide Begins; hide NoneBefore; hide Spills; hide SpillsIn;
    SpillsWhole(s);
    SpillsNone();
    HeadWithin(s);
    forall p: nat, q: nat | p < q ensures Head(s, p, q) <==> Run(s, 0) == 0 && q <= |s| && Begins(s, p, q) {
      HeadWhole(s, p, q);
    }
  }

  lemma {:induction false} Asyn3Finds(t: seq<Word>, aliased: Word -> bool)
    ensures FindsIn(t, aliased, Asyn3(t, aliased))
    decreases |t|, 0, 0
  {
    hide Head; hide Asyn0; hide Finds;
    if t != [] && First(t[0]) == '(' {
      var c := LastClose(t, |t|);
      LastCloseIs(t, |t|);
      if c > 1 {
        Asyn0Finds(t[1..c], aliased);
        InParens(t, c, aliased, Asyn0(t[1..c], aliased));
      }
    }
  }

  lemma InParens(t: seq<Word>, c: nat, aliased: Word -> bool, a: Pass)
    requires t != [] && First(t[0]) == '(' && LastParen(t, c) && Finds(t[1..c], aliased, a)
    ensures FindsIn(t, aliased, Moved(a, 1))
  {
    hide Head;
    var r := t[1..c];
    forall p: nat, q: nat ensures Begins(t, p, q) <==> 0 < p < q && Head(r, p - 1, q - 1) {
      if Begins(t, p, q) {
        var d: nat :| LastParen(t, d) && Head(t[1..d], p - 1, q - 1);
        assert d == c;
      }
    }
    assert forall p: nat, q: nat :: Head(r, p, q) ==> p < q <= |r| by {
      HeadWithin(r);
    }
  }

  lemma HeadWithin(s: seq<Word>)
    ensures forall p: nat, q: nat :: Head(s, p, q) ==> p < q <= |s|
  {
  }

  lemma {:induction false} LastCloseIs(s: seq<Word>, k: nat)
    requires k <= |s|
    ensures var c := LastClose(s, k);
      && (c > 0 ==> c < k && First(s[c]) == ')')
      && forall j :: c < j < k ==> First(s[j]) != ')'
  {
    if k > 1 && First(s[k - 1]) != ')' {
      LastCloseIs(s, k - 1);
    }
  }

  // -------------------------------------------------------------- the code

  method FirstCommand(w: seq<Word>, p1: nat, p2: nat) returns (p: nat)
    requires p1 <= p2 <= |w|
    ensures p - p1 == Skip(w[p1..p2])
  {
    p := p1;
    while p != p2 && First(w[p]) in {';', '&', '\n'}
      invariant p1 <= p <= p2 && Skip(w[p1..p2]) == p - p1 + Skip(w[p..p2])
      decreases p2 - p
    {
      assert w[p..p2][1..] == w[p + 1..p2];
      p := p + 1;
    }
  }

  method PassSyntax(w: seq<Word>, p1: nat, p2: nat, aliased: Word -> bool) returns (a: Pass)
    requires p1 <= p2 <= |w|
    ensures a == Moved(Asyntax(w[p1..p2], aliased), p1)
    decreases p2 - p1 - Skip(w[p1..p2]), 2
  {
    hide Asyn0;
    var p := FirstCommand(w, p1, p2);
    if p == p2 {
      return Passed;
    }
    assert w[p1..p2][p - p1..] == w[p..p2];
    a := Pass0(w, p, p2, aliased);
  }

  // One step of the scan of asyn0, on pointers.
  lemma CutStep(w: seq<Word>, p: nat, p2: nat, l: int)
    requires p <= p2 <= |w|
    ensures p == p2 ==> Cut(w[p..p2], l) == Ends(l)
    ensures p < p2 ==> (Cut(w[p..p2], l) ==
      if First(w[p]) == ')' && l - 1 < 0 then Below
      else if First(w[p]) == '>' && p + 1 < p2 && w[p + 1] == "&" then Later(Cut(w[p + 2..p2], l), 2)
      else if First(w[p]) in {'&', '|', ';', '\n'} && l == 0 then Sep(0)
      else Later(Cut(w[p + 1..p2], l + Delta(w[p])), 1))
  {
    if p < p2 {
      assert w[p..p2][1..] == w[p + 1..p2] && (p + 1 < p2 ==> w[p..p2][2..] == w[p + 2..p2]);
    }
  }

  // the scan of asyn0
  method Separator(w: seq<Word>, p1: nat, p2: nat) returns (e: End)
    requires p1 <= p2 <= |w|
    ensures e == Cut(w[p1..p2], 0)
  {
    hide Cut;
    var l, p := 0, p1;
    while p != p2
      invariant p1 <= p <= p2 && l >= 0 && Cut(w[p1..p2], 0) == Later(Cut(w[p..p2], l), p - p1)
      decreases p2 - p
    {
      CutStep(w, p, p2, l);
      if First(w[p]) == '(' {
        l := l + 1;
      } else if First(w[p]) == ')' {
        l := l - 1;
        if l < 0 {
          return Below;
        }
      } else if First(w[p]) == '>' {
        if p + 1 != p2 && w[p + 1] == "&" {
          p := p + 1;
        }
      } else if First(w[p]) in {'&', '|', ';', '\n'} && l == 0 {
        return Sep(p - p1);
      }
      p := p + 1;
    }
    CutStep(w, p, p2, l);
    return Ends(l);
  }

  method Pass0(w: seq<Word>, p1: nat, p2: nat, aliased: Word -> bool) returns (a: Pass)
    requires p1 <= p2 <= |w|
    ensures a == Moved(Asyn0(w[p1..p2], aliased), p1)
    decreases p2 - p1, 1
  {
    hide Cut; hide Asyn3; hide Asyntax;
    var e := Separator(w, p1, p2);
    match e
    case Below => a := Refused;
    case Ends(l) =>
      if l == 0 {
        a := Pass3(w, p1, p2, aliased);
      } else {
        a := Passed;
      }
    case Sep(i) =>
      assert w[p1..p2][..i] == w[p1..p1 + i] && w[p1..p2][i + 1..] == w[p1 + i + 1..p2];
      a := Pass3(w, p1, p1 + i, aliased);
      if a == Passed {
        a := PassSyntax(w, p1 + i + 1, p2, aliased);
      }
  }

  method Pass3(w: seq<Word>, p1: nat, p2: nat, aliased: Word -> bool) returns (a: Pass)
    requires p1 <= p2 <= |w|
    ensures a == Moved(Asyn3(w[p1..p2], aliased), p1)
    decreases p2 - p1, 0
  {
    hide Asyn0;
    if p1 == p2 {
      return Passed;
    }
    if First(w[p1]) == '(' {
      ghost var s := w[p1..p2];
      var q := p2 - 1;
      while First(w[q]) != ')'
        invariant p1 <= q < p2 && LastClose(s, |s|) == LastClose(s, q + 1 - p1)
        decreases q
      {
        if q == p1 {
          return Passed;
        }
        q := q - 1;
      }
      if q == p1 + 1 {
        return Passed;
      }
      assert LastClose(s, |s|) == q - p1;
      Slices(w, p1, p2, 1, q - p1);
      a := Pass0(w, p1 + 1, q, aliased);
    } else if aliased(w[p1]) {
      a := Expands(p1, p2);
    } else {
      a := Passed;
    }
  }

  // ------------------------------------------------------------------ alias

  datatype Trouble = MANYRP | ALIASLOOP | LEXICAL

  datatype Outcome = Ready(words: seq<Word>) | Trouble(trouble: Trouble)

  // What an alias makes of the list, if the lexer takes its words: the command
  // between the two places gives way to the words of the alias.
  type Expansion = (seq<Word>, nat, nat) -> Option<seq<Word>>

  const ALEFT := 21

  // The words after all aliases, with aleft - 1 passes left.
  function Aliased(w: seq<Word>, aliased: Word -> bool, expand: Expansion, aleft: nat): Outcome
    requires aleft > 0
    decreases aleft
  {
    if aleft == 1 then Trouble(ALIASLOOP) else
    match Asyntax(w, aliased)
    case Passed => Ready(w)
    case Refused => Trouble(MANYRP)
    case Expands(from, upto) =>
      match expand(w, from, upto)
      case None => Trouble(LEXICAL)
      case Some(w') => Aliased(w', aliased, expand, aleft - 1)
  }

  // Whatever the aliases are, the list that comes out passes: the parser is
  // given words that close no parenthesis that is not open.
  lemma {:induction false} AliasedBelow(w: seq<Word>, aliased: Word -> bool, expand: Expansion, aleft: nat)
    requires aleft > 0
    ensures var r := Aliased(w, aliased, expand, aleft);
      r.Ready? ==> Asyntax(r.words, aliased) == Passed && NeverBelow(r.words, 0)
    decreases aleft
  {
    if aleft > 1 {
      match Asyntax(w, aliased)
      case Passed => PassedBelow(w, aliased);
      case Refused =>
      case Expands(from, upto) =>
        var w' := expand(w, from, upto);
        if w'.Some? {
          AliasedBelow(w'.value, aliased, expand, aleft - 1);
        }
    }
  }

  // From each list the next comes by expanding the first command that starts
  // with an alias.
  ghost predicate Rewrites(ws: seq<seq<Word>>, aliased: Word -> bool, expand: Expansion) {
    forall k :: 0 <= k < |ws| - 1 ==> Rewrite(ws[k], ws[k + 1], aliased, expand)
  }

  ghost predicate Rewrite(w: seq<Word>, w': seq<Word>, aliased: Word -> bool, expand: Expansion) {
    exists p: nat, q: nat :: Due(w, aliased, p, q) && expand(w, p, q) == Some(w')
  }

  ghost predicate Stuck(w: seq<Word>, aliased: Word -> bool, expand: Expansion) {
    exists p: nat, q: nat :: Due(w, aliased, p, q) && expand(w, p, q) == None
  }

  // The lists that the passes go through, and how they end: as words that are
  // settled, with the parenthesis or the lexer in error, or after all passes.
  lemma {:induction false} AliasedRun(w: seq<Word>, aliased: Word -> bool, expand: Expansion, aleft: nat)
    returns (ws: seq<seq<Word>>)
    requires aleft > 0
    ensures 0 < |ws| <= aleft && ws[0] == w && Rewrites(ws, aliased, expand)
    ensures var r, last := Aliased(w, aliased, expand, aleft), ws[|ws| - 1];
      && (r.Ready? ==> r.words == last && Settled(last, aliased))
      && (r == Trouble(MANYRP) ==> Spills(last))
      && (r == Trouble(LEXICAL) ==> Stuck(last, aliased, expand))
      && (r == Trouble(ALIASLOOP) <==> |ws| == aleft)
    decreases aleft
  {
    hide Asyntax; hide Settled; hide Spills; hide Due;
    ws := [w];
    if aleft > 1 {
      SyntaxFinds(w, aliased);
      var a := Asyntax(w, aliased);
      if a.Expands? {
        var w' := expand(w, a.from, a.upto);
        if w'.Some? {
          var rest := AliasedRun(w'.value, aliased, expand, aleft - 1);
          assert Rewrite(w, rest[0], aliased, expand);
          ws := [w] + rest;
        } else {
          assert Stuck(w, aliased, expand);
        }
      }
    }
  }

  // alias: passes over the list until no first word is an alias
  method Alias(w0: seq<Word>, aliased: Word -> bool, expand: Expansion) returns (r: Outcome)
    ensures r == Aliased(w0, aliased, expand, ALEFT)
    ensures r.Ready? ==> NeverBelow(r.words, 0) && Settled(r.words, aliased)
  {
    hide Asyntax; hide Settled; hide Rewrites;
    var w, aleft := w0, ALEFT;
    AliasedBelow(w0, aliased, expand, ALEFT);
    ghost var ws := AliasedRun(w0, aliased, expand, ALEFT);
    while true
      invariant aleft > 0 && Aliased(w, aliased, expand, aleft) == Aliased(w0, aliased, expand, ALEFT)
      decreases aleft
    {
      aleft := aleft - 1;
      if aleft == 0 {
        return Trouble(ALIASLOOP);
      }
      assert w[0..|w|] == w;
      var a := PassSyntax(w, 0, |w|, aliased);
      match a
      case Passed => return Ready(w);
      case Refused => return Trouble(MANYRP);
      case Expands(from, upto) =>
        var w' := expand(w, from, upto);
        if w'.None? {
          return Trouble(LEXICAL);
        }
        w := w'.value;
    }
  }
}
