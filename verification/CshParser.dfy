// The parser as csh runs it: pointers p1 and p2 into one list of words, and a
// seterr that keeps the first error while the parser goes on to the end.
module CshParser {
  import opened Basics
  import opened CshSyntax
  import opened CshAlias
  import P = CshParse

  // The word at p; behind the last one stands the empty word of the list head.
  function Behind(w: seq<Word>, p: nat): Word {
    if p < |w| then w[p] else ""
  }

  lemma Tail(w: seq<Word>, p: nat, p2: nat)
    requires p < p2 <= |w|
    ensures w[p..p2] != [] && w[p..p2][0] == w[p] && w[p..p2][1..] == w[p + 1..p2]
    ensures p + 1 < p2 ==> |w[p..p2]| > 1 && w[p..p2][1] == w[p + 1] && w[p..p2][2..] == w[p + 2..p2]
    ensures p + 1 == p2 ==> |w[p..p2]| == 1
  {
  }

  lemma Parts(w: seq<Word>, p1: nat, p: nat, p2: nat)
    requires p1 <= p <= p2 <= |w|
    ensures w[p1..p2][..p - p1] == w[p1..p] && w[p1..p2][p - p1..] == w[p..p2]
    ensures p < p2 ==> w[p1..p2][p - p1] == w[p] && w[p1..p2][p - p1 + 1..] == w[p + 1..p2]
    ensures p + 1 < p2 ==> w[p1..p2][p - p1 + 1] == w[p + 1] && w[p1..p2][p - p1 + 2..] == w[p + 2..p2]
  {
  }

  // What a call may do with seterr and, as long as there is no error, what it
  // returns: an error that stands stays, and a new one is the first of `spec`.
  predicate Reports(before: Option<Error>, after: Option<Error>, t: Tree, spec: Result<Tree, Error>) {
    if before.Some? then after == before else
    match spec
    case Ok(u) => after == None && t == u
    case Err(e) => after == Some(e)
  }

  // The node of two sides reports what its sides report, the left one first.
  lemma BothReports(op: Op, before: Option<Error>, mid: Option<Error>, after: Option<Error>, car: Tree, cdr: Tree,
                    left: Result<Tree, Error>, right: Result<Tree, Error>, diag: bool)
    requires Reports(before, mid, car, left) && Reports(mid, after, cdr, right)
    ensures Reports(before, after, P.Node(op, car, cdr, diag), P.Both(op, left, right, diag))
    ensures P.Node(op, car, cdr, diag) != Null
  {
  }

  // One step of the scan of syn0, on pointers.
  lemma AmpStep(w: seq<Word>, p: nat, p2: nat, l: int)
    requires p <= p2 <= |w|
    ensures p == p2 ==> FindAmp(w[p..p2], l) == if l == 0 then Nowhere else Bad(TOOMANYLP)
    ensures p < p2 ==> (FindAmp(w[p..p2], l) ==
      if First(w[p]) == ')' && l - 1 < 0 then Bad(TOOMANYRP)
      else if Swallows(w[p]) && p + 1 < p2 && w[p + 1] == "&" then Shift(FindAmp(w[p + 2..p2], l), 2)
      else if First(w[p]) == '&' && l == 0 && Second(w[p]) != '&' then At(0)
      else Shift(FindAmp(w[p + 1..p2], l + Delta(w[p])), 1))
  {
    if p < p2 {
      Tail(w, p, p2);
    }
  }

  // The parts that syn0 goes on with, in words that have passed alias.
  lemma AmpParts(s: seq<Word>)
    requires NeverBelow(s, 0)
    ensures var a := FindAmp(s, 0);
      && a != Bad(TOOMANYRP)
      && (a.At? ==> Nested(s[..a.place], 0) && NeverBelow(s[a.place..], 0))
      && (a.Nowhere? ==> Nested(s, 0))
  {
    FindAmpNested(s, 0);
    FindAmpBelow(s, 0);
    var a := FindAmp(s, 0);
    if a.At? {
      assert s == s[..a.place] + s[a.place..];
      NestedIs(s[..a.place], 0);
      BelowConcat(s[..a.place], s[a.place..], 0);
    }
  }

  lemma BelowNext(w: seq<Word>, p: nat, p2: nat, l: int)
    requires p < p2 <= |w| && NeverBelow(w[p..p2], l)
    ensures l + Delta(w[p]) >= 0 && NeverBelow(w[p + 1..p2], l + Delta(w[p]))
  {
    Tail(w, p, p2);
  }

  // the scan of syn0; l never falls below 0, as alias has seen to
  method Ampersand(w: seq<Word>, p1: nat, p2: nat) returns (a: Amp)
    requires p1 <= p2 <= |w| && NeverBelow(w[p1..p2], 0)
    ensures a == FindAmp(w[p1..p2], 0)
  {
    hide FindAmp; hide Second; hide NeverBelow;
    var l, p := 0, p1;
    while p != p2
      invariant p1 <= p <= p2 && l >= 0 && NeverBelow(w[p..p2], l)
      invariant FindAmp(w[p1..p2], 0) == Shift(FindAmp(w[p..p2], l), p - p1)
      decreases p2 - p
    {
      AmpStep(w, p, p2, l);
      BelowNext(w, p, p2, l);
      if First(w[p]) == '(' {
        l := l + 1;
      } else if First(w[p]) == ')' {
        l := l - 1;
      } else if First(w[p]) == '>' || (First(w[p]) == '|' && Second(w[p]) != '|') {
        if p + 1 != p2 && w[p + 1] == "&" {
          p := p + 1;
          BelowNext(w, p, p2, l);
        }
      } else if First(w[p]) == '&' && l == 0 && Second(w[p]) != '&' {
        return At(p - p1);
      }
      p := p + 1;
    }
    AmpStep(w, p, p2, l);
    return if l == 0 then Nowhere else Bad(TOOMANYLP);
  }

  // the scans of syn1, syn1a, syn1b and syn2, which differ in the operator
  method Scanned(op: Op, w: seq<Word>, p1: nat, p2: nat) returns (p: nat)
    requires p1 <= p2 <= |w|
    ensures p1 <= p <= p2 && p - p1 == Find(op, w[p1..p2], 0)
  {
    var l := 0;
    p := p1;
    while p != p2
      invariant p1 <= p <= p2
      invariant Find(op, w[p1..p2], 0) == p - p1 + Find(op, w[p..p2], l)
      decreases p2 - p
    {
      Tail(w, p, p2);
      if First(w[p]) == '(' {
        l := l + 1;
      } else if First(w[p]) == ')' {
        l := l - 1;
      } else if Is(op, w[p]) && l == 0 {
        return;
      }
      p := p + 1;
    }
  }

  // the loop over the leading words of a command
  method IsSpecial(w: seq<Word>, p1: nat, p2: nat) returns (specp: bool)
    requires p1 <= p2 <= |w|
    ensures specp <==> Special(w[p1..p2])
  {
    var p := p1;
    while p != p2
      invariant p1 <= p <= p2 && (Special(w[p1..p2]) <==> Special(w[p..p2]))
      decreases p2 - p
    {
      Tail(w, p, p2);
      if w[p] != "else" {
        return w[p] in {"exit", "foreach", "if", "@", "set", "switch", "while"};
      }
      p := p + 1;
    }
    return false;
  }

  // the first scan of syn3
  method Counts(w: seq<Word>, p1: nat, p2: nat, specp: bool) returns (n: int)
    requires p1 <= p2 <= |w|
    ensures n == Count(w[p1..p2], 0, 0, specp)
  {
    n := 0;
    ghost var s := w[p1..p2];
    var l, p := 0, p1;
    while p != p2
      invariant p1 <= p <= p2
      invariant Count(s, 0, 0, specp) == n + Count(s, p - p1, l, specp)
      decreases p2 - p
    {
      Parts(w, p1, p, p2);
      if First(w[p]) == '(' {
        n := if specp then n + 1 else n;
        l := l + 1;
      } else if First(w[p]) == ')' {
        n := if specp then n + 1 else n;
        l := l - 1;
      } else if First(w[p]) == '>' || First(w[p]) == '<' {
        if l != 0 {
          n := if specp then n + 1 else n;
        } else if p + 1 != p2 && !Relpar(w[p + 1]) {
          n := n - 1;
        }
      } else if specp || l == 0 {
        n := n + 1;
      }
      p := p + 1;
    }
  }

  // While there is no error the second scan stands where `Scan` does, with room
  // for what is left; after one, that was the first error of `Scan`.
  ghost predicate OnTrack(s: seq<Word>, i: nat, l: int, st: State, n: nat, room: nat, specp: bool, cx: Context,
                          r: Result<State, Error>, before: Option<Error>, seterr: Option<Error>)
    requires i <= |s|
  {
    && (before.Some? ==> seterr == before)
    && (seterr == None ==> |st.words| == n && n + Count(s, i, l, specp) < room && Scan(s, i, l, st, specp, cx) == r)
    && (before == None && seterr.Some? ==> r == Err(seterr.value))
  }

  // The state of the scan behind a word that is no redirection.
  function Behold(s: seq<Word>, i: nat, l: int, st: State, specp: bool): State
    requires i < |s|
  {
    if First(s[i]) == '(' then Push(Open(st, i, l), s[i], specp)
    else if First(s[i]) == ')' then Push(Close(st, i, l), s[i], specp)
    else Push(st, s[i], l == 0 || specp)
  }

  lemma OnWord(s: seq<Word>, i: nat, l: int, st: State, n: nat, room: nat, specp: bool, cx: Context,
               r: Result<State, Error>, before: Option<Error>, seterr: Option<Error>)
    requires i < |s| && OnTrack(s, i, l, st, n, room, specp, cx, r, before, seterr)
    requires (First(s[i]) == '>' || First(s[i]) == '<') ==> l != 0
    ensures var keep := specp || (l == 0 && Delta(s[i]) == 0);
      && (seterr == None && keep ==> n < room)
      && OnTrack(s, i + 1, l + Delta(s[i]), Behold(s, i, l, st, specp), if keep then n + 1 else n, room, specp, cx, r,
           before, if seterr == None && First(s[i]) == '(' && l == 0 && st.lp.Some? && !specp then Some(BADPLP) else seterr)
  {
    ScanStep(s, i, l, st, specp, cx);
    CountNonneg(s, i + 1, l + Delta(s[i]), specp);
  }

  lemma OnStart(s: seq<Word>, st: State, room: nat, specp: bool, cx: Context, r: Result<State, Error>, seterr: Option<Error>)
    requires st.words == [] && Count(s, 0, 0, specp) < room && r == Scan(s, 0, 0, st, specp, cx)
    ensures OnTrack(s, 0, 0, st, 0, room, specp, cx, r, seterr, seterr)
  {
  }

  lemma OnEnd(s: seq<Word>, l: int, st: State, n: nat, room: nat, specp: bool, cx: Context,
              r: Result<State, Error>, before: Option<Error>, seterr: Option<Error>)
    requires OnTrack(s, |s|, l, st, n, room, specp, cx, r, before, seterr)
    ensures before.Some? ==> seterr == before
    ensures before == None ==> if r.Err? then seterr == Some(r.error) else seterr == None && r == Ok(st) && n < room
  {
    ScanEnd(s, l, st, specp, cx);
  }

  lemma OnRedirect(s: seq<Word>, i: nat, st: State, n: nat, room: nat, specp: bool, cx: Context,
                   r: Result<State, Error>, before: Option<Error>, seterr: Option<Error>, seterr': Option<Error>, io: Io, j: nat)
    requires i < |s| && (First(s[i]) == '>' || First(s[i]) == '<') && j < |s|
    requires OnTrack(s, i, 0, st, n, room, specp, cx, r, before, seterr)
    requires seterr.Some? ==> seterr' == seterr
    requires seterr == None ==>
      match Redirect(s, i, st, cx)
      case Err(error) => seterr' == Some(error)
      case Ok(q) => seterr' == None && io == q.0.io && j == q.1
    ensures OnTrack(s, j + 1, 0, st.(io := io), n, room, specp, cx, r, before, seterr')
  {
    ScanStep(s, i, 0, st, specp, cx);
  }

  class Parser {
    var seterr: Option<Error>

    constructor ()
      ensures seterr == None
    {
      seterr := None;
    }

    // seterror: only the first error counts
    method Seterror(e: Error)
      modifies this
      ensures seterr == if old(seterr).Some? then old(seterr) else Some(e)
    {
      if seterr == None {
        seterr := Some(e);
      }
    }

    method Syntax(w: seq<Word>, p1: nat, p2: nat, cx: Context) returns (t: Tree)
      requires p1 <= p2 <= |w| && NeverBelow(w[p1..p2], 0)
      modifies this
      ensures Reports(old(seterr), seterr, t, P.Syntax(w[p1..p2], Behind(w, p2), cx))
      decreases p2 - p1 - Skip(w[p1..p2]), 7
    {
      hide P.Syn0;
      var p := p1;
      SkipBelow(w[p1..p2]);
      while p != p2
        invariant p1 <= p <= p2 && Skip(w[p1..p2]) == p - p1 + Skip(w[p..p2]) && seterr == old(seterr)
        decreases p2 - p
      {
        Tail(w, p, p2);
        Parts(w, p1, p, p2);
        if First(w[p]) in {';', '&', '\n'} {
          p := p + 1;
        } else {
          t := Syn0(w, p, p2, cx);
          return;
        }
      }
      return Null;
    }

    method Syn0(w: seq<Word>, p1: nat, p2: nat, cx: Context) returns (t: Tree)
      requires p1 <= p2 <= |w| && NeverBelow(w[p1..p2], 0)
      modifies this
      ensures Reports(old(seterr), seterr, t, P.Syn0(w[p1..p2], Behind(w, p2), cx))
      decreases p2 - p1, 6
    {
      hide P.Syn1; hide P.Syntax; hide Nested; hide FindAmp; hide NeverBelow;
      AmpParts(w[p1..p2]);
      var a := Ampersand(w, p1, p2);
      match a
      case Bad(error) =>
        Seterror(error);
        t := Null;
      case Nowhere => t := Syn1(w, p1, p2, cx);
      case At(i) =>
        var p := p1 + i;
        Parts(w, p1, p, p2);
        var t1 := Syn1(w, p1, p, cx);
        t := Syntax(w, p, p2, cx);
        t := List(P.Background(t1), t);
    }

    method Syn1(w: seq<Word>, p1: nat, p2: nat, cx: Context) returns (t: Tree)
      requires p1 <= p2 <= |w| && Nested(w[p1..p2], 0)
      modifies this
      ensures Reports(old(seterr), seterr, t, P.Syn1(w[p1..p2], Behind(w, p2), cx)) && t != Null
      decreases p2 - p1, 5
    {
      hide P.Syn1a; hide P.Syntax; hide Nested; hide Find; hide Free; hide Is; hide NeverBelow;
      hide Reports; hide P.Both; hide P.Node;
      FindNested(SEMI, w[p1..p2], 0);
      var p := Scanned(SEMI, w, p1, p2);
      Parts(w, p1, p, p2);
      if p == p2 {
        t := Syn1a(w, p1, p2, cx);
        return;
      }
      NestedIs(w[p + 1..p2], 0);
      var car := Syn1a(w, p1, p, cx);
      ghost var mid := seterr;
      var cdr := Syntax(w, p + 1, p2, cx);
      BothReports(SEMI, old(seterr), mid, seterr, car, cdr,
        P.Syn1a(w[p1..p], w[p], cx), P.Syntax(w[p + 1..p2], Behind(w, p2), cx), false);
      t := P.Node(SEMI, car, cdr, false);
    }

    method Syn1a(w: seq<Word>, p1: nat, p2: nat, cx: Context) returns (t: Tree)
      requires p1 <= p2 <= |w| && Nested(w[p1..p2], 0)
      modifies this
      ensures Reports(old(seterr), seterr, t, P.Syn1a(w[p1..p2], Behind(w, p2), cx)) && t != Null
      decreases p2 - p1, 4
    {
      hide P.Syn1b; hide Nested; hide Find; hide Free; hide Is; hide Reports; hide P.Both; hide P.Node;
      FindNested(OR, w[p1..p2], 0);
      var p := Scanned(OR, w, p1, p2);
      Parts(w, p1, p, p2);
      if p == p2 {
        t := Syn1b(w, p1, p2, cx);
        return;
      }
      var car := Syn1b(w, p1, p, cx);
      ghost var mid := seterr;
      var cdr := Syn1a(w, p + 1, p2, cx);
      BothReports(OR, old(seterr), mid, seterr, car, cdr,
        P.Syn1b(w[p1..p], w[p], cx), P.Syn1a(w[p + 1..p2], Behind(w, p2), cx), false);
      t := P.Node(OR, car, cdr, false);
    }

    method Syn1b(w: seq<Word>, p1: nat, p2: nat, cx: Context) returns (t: Tree)
      requires p1 <= p2 <= |w| && Nested(w[p1..p2], 0)
      modifies this
      ensures Reports(old(seterr), seterr, t, P.Syn1b(w[p1..p2], Behind(w, p2), cx)) && t != Null
      decreases p2 - p1, 3
    {
      hide P.Syn2; hide Nested; hide Find; hide Free; hide Is; hide Reports; hide P.Both; hide P.Node;
      FindNested(AND, w[p1..p2], 0);
      var p := Scanned(AND, w, p1, p2);
      Parts(w, p1, p, p2);
      if p == p2 {
        t := Syn2(w, p1, p2, cx);
        return;
      }
      var car := Syn2(w, p1, p, cx);
      ghost var mid := seterr;
      var cdr := Syn1b(w, p + 1, p2, cx);
      BothReports(AND, old(seterr), mid, seterr, car, cdr,
        P.Syn2(w[p1..p], w[p], cx), P.Syn1b(w[p + 1..p2], Behind(w, p2), cx), false);
      t := P.Node(AND, car, cdr, false);
    }

    method Syn2(w: seq<Word>, p1: nat, p2: nat, cx: Context) returns (t: Tree)
      requires p1 <= p2 <= |w| && Nested(w[p1..p2], 0)
      modifies this
      ensures Reports(old(seterr), seterr, t, P.Syn2(w[p1..p2], Behind(w, p2), cx)) && t != Null
      decreases p2 - p1, 2
    {
      hide P.Syn3; hide Find; hide Free; hide Nested; hide Is; hide Reports; hide P.Both; hide P.Node;
      FindNested(BAR, w[p1..p2], 0);
      var p := Scanned(BAR, w, p1, p2);
      Parts(w, p1, p, p2);
      if p == p2 {
        t := Syn3(w, p1, p2, cx);
        return;
      }
      var diag := p + 1 != p2 && First(w[p + 1]) == '&';
      if diag {
        NestedOver(w[p + 1..p2], 0, 1, 0);
      }
      var f := cx.(pout := true, pdiag := cx.pdiag || diag);
      var car := Syn3(w, p1, p, f);
      ghost var mid, left := seterr, P.Syn3(w[p1..p], w[p], f);
      if diag {
        p := p + 1;
      }
      var cdr := Syn2(w, p + 1, p2, cx.(pin := true));
      BothReports(BAR, old(seterr), mid, seterr, car, cdr,
        left, P.Syn2(w[p + 1..p2], Behind(w, p2), cx.(pin := true)), diag);
      t := P.Node(BAR, car, cdr, diag);
    }

    // one redirection, at p: the place of its last word, or of the last that
    // is swallowed where it is in error
    method Redirected(w: seq<Word>, p1: nat, p: nat, p2: nat, ghost st: State, io: Io, cx: Context)
      returns (io': Io, q: nat)
      requires p1 <= p < p2 <= |w| && (First(w[p]) == '>' || First(w[p]) == '<')
      requires seterr == None ==> io == st.io
      modifies this
      ensures p <= q < p2 && (old(seterr).Some? ==> seterr == old(seterr))
      ensures old(seterr) == None ==>
        match Redirect(w[p1..p2], p - p1, st, cx)
        case Err(error) => seterr == Some(error)
        case Ok(r) => seterr == None && io' == r.0.io && q == p1 + r.1
    {
      q := p;
      var f := io.flags;
      if First(w[p]) == '>' {
        if Second(w[p]) == '>' {
          f := f + {APPEND};
        }
        if q + 1 != p2 && w[q + 1] == "&" {
          f, q := f + {STDERR}, q + 1;
          if cx.pout || cx.pdiag {
            Seterror(OUTRED);
            return io.(flags := f), q;
          }
        }
        if q + 1 != p2 && w[q + 1] == "!" {
          f, q := f + {OVERWRITE}, q + 1;
        }
        if q + 1 == p2 {
          Seterror(MISRED);
          return io.(flags := f), q;
        }
        q := q + 1;
        if Relpar(w[q]) {
          Seterror(MISRED);
          return io.(flags := f), q;
        }
        if (cx.pout && !cx.pdiag) || io.rit.Some? {
          Seterror(OUTRED);
          return io.(flags := f), q;
        }
        return Io(io.lef, Some(w[q]), f), q;
      }
      if Second(w[p]) == '<' {
        f := f + {READ};
      }
      if q + 1 == p2 {
        Seterror(MISRED);
        return io.(flags := f), q;
      }
      q := q + 1;
      if Relpar(w[q]) {
        Seterror(MISRED);
        return io.(flags := f), q;
      }
      if cx.here && READ in f {
        Seterror(REDPAR);
        return io.(flags := f), q;
      }
      if cx.pin || io.lef.Some? {
        Seterror(INRED);
        return io.(flags := f), q;
      }
      return Io(Some(w[q]), io.rit, f), q;
    }

    // the cases of the parentheses
    method Bracket(w: Word, place: nat, l: int, lp: Option<nat>, rp: Option<nat>, specp: bool)
      returns (l': int, lp': Option<nat>, rp': Option<nat>)
      modifies this
      ensures l' == l + Delta(w)
      ensures lp' == if First(w) == '(' && l == 0 then Some(place + 1) else lp
      ensures rp' == if First(w) == ')' && l == 1 then Some(place) else rp
      ensures seterr == if old(seterr) == None && First(w) == '(' && l == 0 && lp.Some? && !specp then Some(BADPLP)
                        else old(seterr)
    {
      l', lp', rp' := l, lp, rp;
      if First(w) == '(' {
        if l' == 0 {
          if lp.Some? && !specp {
            Seterror(BADPLP);
          }
          lp' := Some(place + 1);
        }
        l' := l' + 1;
      } else if First(w) == ')' {
        l' := l' - 1;
        if l' == 0 {
          rp' := Some(place);
        }
      }
    }

    // a word that is counted, and stored unless there is an error
    method Store(av: array<Word>, n: nat, w: Word)
      requires seterr == None ==> n < av.Length
      modifies av
      ensures seterr.Some? ==> av[..] == old(av[..])
      ensures seterr == None ==> av[..n + 1] == old(av[..n]) + [w]
    {
      if seterr == None {
        av[n] := w;
      }
    }

    // a word that is no redirection, at p
    method KeepWord(w: seq<Word>, p1: nat, p: nat, p2: nat, specp: bool, cx: Context, av: array<Word>,
                    n: nat, l: int, lp: Option<nat>, rp: Option<nat>, io: Io,
                    ghost st: State, ghost m: int, ghost r: Result<State, Error>, ghost before: Option<Error>)
      returns (n': nat, l': int, lp': Option<nat>, rp': Option<nat>, ghost st': State, ghost m': int)
      requires p1 <= p < p2 <= |w| && ((First(w[p]) == '>' || First(w[p]) == '<') ==> l != 0)
      requires Tracks(w[p1..p2], p - p1, l, m, lp, rp)
      requires OnTrack(w[p1..p2], p - p1, l, st, n, av.Length, specp, cx, r, before, seterr)
      requires seterr == None ==> n <= av.Length && st == State(av[..n], lp, rp, io)
      modifies this, av
      ensures Tracks(w[p1..p2], p + 1 - p1, l', m', lp', rp')
      ensures OnTrack(w[p1..p2], p + 1 - p1, l', st', n', av.Length, specp, cx, r, before, seterr)
      ensures seterr == None ==> n' <= av.Length && st' == State(av[..n'], lp', rp', io)
    {
      hide Tracks; hide OnTrack;
      ghost var s := w[p1..p2];
      assert s[p - p1] == w[p];
      OnWord(s, p - p1, l, st, n, av.Length, specp, cx, r, before, seterr);
      TracksWord(s, p - p1, l, m, lp, rp);
      m', st' := m + Delta(w[p]), Behold(s, p - p1, l, st, specp);
      var keep := specp || (l == 0 && Delta(w[p]) == 0);
      l', lp', rp' := Bracket(w[p], p - p1, l, lp, rp, specp);
      n' := n;
      if keep {
        Store(av, n, w[p]);
        n' := n + 1;
      }
    }

    // the second scan of syn3, into a vector with room for an end mark
    method Fill(w: seq<Word>, p1: nat, p2: nat, specp: bool, cx: Context, av: array<Word>)
      returns (n: nat, lp: Option<nat>, rp: Option<nat>, io: Io)
      requires p1 <= p2 <= |w| && Nested(w[p1..p2], 0) && av.Length > Count(w[p1..p2], 0, 0, specp)
      modifies this, av
      ensures old(seterr).Some? ==> seterr == old(seterr)
      ensures old(seterr) == None ==>
        match Scan(w[p1..p2], 0, 0, P.Start(Behind(w, p2)), specp, cx)
        case Err(error) => seterr == Some(error)
        case Ok(st) => seterr == None && n < av.Length && st == State(av[..n], lp, rp, io)
      ensures Delimits(w[p1..p2], p2 - p1, lp, rp)
    {
      hide Scan; hide Count; hide Redirect; hide Tracks; hide Delimits; hide Nested; hide OnTrack;
      ghost var s := w[p1..p2];
      ghost var st, r := P.Start(Behind(w, p2)), Scan(s, 0, 0, P.Start(Behind(w, p2)), specp, cx);
      ghost var m: int := 0;
      OnStart(s, st, av.Length, specp, cx, r, seterr);
      TracksFrom(s);
      lp, rp := None, None;
      io := Io(None, None, if First(Behind(w, p2)) == ')' then {NOFORK} else {});
      n := 0;
      var l: int, p := 0, p1;
      while p != p2
        invariant p1 <= p <= p2 && Tracks(s, p - p1, l, m, lp, rp)
        invariant OnTrack(s, p - p1, l, st, n, av.Length, specp, cx, r, old(seterr), seterr)
        invariant seterr == None ==> n <= av.Length && st == State(av[..n], lp, rp, io)
        decreases p2 - p
      {
        Parts(w, p1, p, p2);
        if (First(w[p]) == '>' || First(w[p]) == '<') && l == 0 {
          var q;
          ghost var e := seterr;
          io, q := Redirected(w, p1, p, p2, st, io, cx);
          m := TracksPast(s, p - p1, q + 1 - p1, m, lp, rp);
          OnRedirect(s, p - p1, st, n, av.Length, specp, cx, r, old(seterr), e, seterr, io, q - p1);
          st := st.(io := io);
          p := q + 1;
        } else {
          n, l, lp, rp, st, m := KeepWord(w, p1, p, p2, specp, cx, av, n, l, lp, rp, io, st, m, r, old(seterr));
          p := p + 1;
        }
      }
      OnEnd(s, l, st, n, av.Length, specp, cx, r, old(seterr), seterr);
      TracksEnd(s, l, m, lp, rp);
    }

    method Syn3(w: seq<Word>, p1: nat, p2: nat, cx: Context) returns (t: Tree)
      requires p1 <= p2 <= |w| && Nested(w[p1..p2], 0)
      modifies this
      ensures Reports(old(seterr), seterr, t, P.Syn3(w[p1..p2], Behind(w, p2), cx)) && t != Null
      decreases p2 - p1, 1
    {
      hide P.Syn0; hide Nested; hide Scan; hide Count; hide Special; hide NeverBelow;
      ghost var s := w[p1..p2];
      var specp := IsSpecial(w, p1, p2);
      var count := Counts(w, p1, p2, specp);
      CountNonneg(s, 0, 0, specp);
      if count < 0 {
        count := 0;
      }
      var av := new Word[count + 1](i => "");
      var n, lp, rp, io := Fill(w, p1, p2, specp, cx, av);
      if lp.Some? && !specp {
        if n != 0 {
          Seterror(BADPLPS);
        }
        Slices(w, p1, p2, lp.value, rp.value);
        NestedIs(s[lp.value..rp.value], 0);
        var sub := Syn0(w, p1 + lp.value, p1 + rp.value, Context(true, false, false, false));
        t := Paren(sub, io);
      } else {
        if n == 0 {
          Seterror(NULLCOM);
        }
        t := Command(if seterr == None then av[..n] else [], io);
      }
    }
  }

  // --------------------------------------------------- from words to a tree

  datatype Parsed = Tree(tree: Tree) | Syntax(error: Error) | Before(trouble: Trouble)

  // process: aliases, then the parser. This ends for every list of words, every
  // table of aliases and whatever errors there are, with the tree of the words
  // that the aliases make of them or with the first error in these.
  method Process(w0: seq<Word>, aliased: Word -> bool, expand: Expansion) returns (r: Parsed)
    ensures r == match Aliased(w0, aliased, expand, ALEFT)
      case Trouble(e) => Before(e)
      case Ready(w) =>
        match P.Syntax(w, "", Context(false, false, false, false))
        case Ok(t) => Parsed.Tree(t)
        case Err(e) => Parsed.Syntax(e)
    ensures !r.Before? ==> Settled(Aliased(w0, aliased, expand, ALEFT).words, aliased)
  {
    hide P.Syntax; hide Aliased; hide NeverBelow; hide Settled;
    var a := Alias(w0, aliased, expand);
    match a
    case Trouble(e) => r := Before(e);
    case Ready(w) =>
      assert w[0..|w|] == w;
      var parser := new Parser();
      var t := parser.Syntax(w, 0, |w|, Context(false, false, false, false));
      r := if parser.seterr == None then Parsed.Tree(t) else Parsed.Syntax(parser.seterr.value);
  }
}
