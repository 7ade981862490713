// Gmatch, the glob patterns of csh, and the language a pattern denotes.
module CshMatch {
  import opened CshName

  const ANY: Char := 63     // ?
  const STAR: Char := 42    // *
  const LBRK: Char := 91    // [
  const RBRK: Char := 93    // ]
  const DASH: Char := 45    // -

  type Text = seq<Char>

  // The character without its quote bit, the sign of a short.
  function Trim(c: Char): int {
    if c < 0 then c as int + 32768 else c as int
  }

  // No NUL, quoted or not.
  predicate Proper(s: Text) {
    forall i :: 0 <= i < |s| ==> Trim(s[i]) != 0
  }

  // ------------------------------------------------------- what a class holds

  // cls[i] is a dash between two characters, which then stands for what lies
  // between them, unless the first of them is a bracket.
  predicate Range(cls: Text, i: nat)
    requires i < |cls|
  {
    cls[i] == DASH && i > 0 && cls[i - 1] != LBRK && i + 1 < |cls|
  }

  // What a bracket class denotes from cls[i] on: ranges, and characters, quoted
  // or not.
  predicate Denotes(cls: Text, i: nat, c: int)
    decreases |cls| - i
  {
    if i >= |cls| then false
    else if Range(cls, i) then Trim(cls[i - 1]) <= c <= Trim(cls[i + 1]) || Denotes(cls, i + 2, c)
    else c == Trim(cls[i]) || Denotes(cls, i + 1, c)
  }

  // What Gmatch takes it to hold: it compares without the quote bit only at the
  // ends of a range, so that another quoted character stands for nothing.
  predicate Holds(cls: Text, i: nat, c: int)
    decreases |cls| - i
  {
    if i >= |cls| then false
    else if Range(cls, i) then Trim(cls[i - 1]) <= c <= Trim(cls[i + 1]) || Holds(cls, i + 2, c)
    else c == cls[i] as int || Holds(cls, i + 1, c)
  }

  // The place of the first ] of p from p[i] on.
  function Close(p: Text, i: nat): (j: nat)
    ensures i <= |p| ==> i <= j <= |p| && (j < |p| ==> p[j] == RBRK)
    ensures forall h :: i <= h < j && h < |p| ==> p[h] != RBRK
    decreases |p| - i
  {
    if i >= |p| || p[i] == RBRK then i else Close(p, i + 1)
  }

  // How many characters of p its first element takes.
  function Width(p: Text): (n: nat)
    requires p != []
    ensures n >= 1
  {
    if p[0] == LBRK then Close(p, 1) + 1 else 1
  }

  // Every bracket has its partner.
  predicate Closed(p: Text)
    decreases |p|
  {
    p == [] || (Width(p) <= |p| && Closed(p[Width(p)..]))
  }

  // The first element of p, not a star, stands for the character c: as it is
  // meant, or as Gmatch takes it.
  predicate Element(p: Text, c: Char, meant: bool)
    requires p != [] && p[0] != STAR && Width(p) <= |p|
  {
    if p[0] == ANY then true
    else if p[0] == LBRK then
      var cls := p[1..Width(p) - 1];
      if meant then Denotes(cls, 0, Trim(c)) else Holds(cls, 0, Trim(c))
    else Trim(p[0]) == Trim(c)
  }

  // -------------------------------------------------------------- languages

  // The text s is in the language of the pattern p, with its classes as they
  // are meant or as Gmatch takes them.
  ghost predicate Lang(p: Text, s: Text, meant: bool)
    requires Closed(p)
    decreases |p|
  {
    if p == [] then s == []
    else if p[0] == STAR then exists k :: 0 <= k <= |s| && Lang(p[1..], s[k..], meant)
    else s != [] && Element(p, s[0], meant) && Lang(p[Width(p)..], s[1..], meant)
  }

  // What Gmatch says: a star in front of something tries it at every
  // character of the text, but not at its end.
  ghost predicate Says(p: Text, s: Text)
    requires Closed(p)
    decreases |p|
  {
    if p == [] then s == []
    else if p[0] == STAR then |p| == 1 || exists k :: 0 <= k < |s| && Says(p[1..], s[k..])
    else s != [] && Element(p, s[0], false) && Says(p[Width(p)..], s[1..])
  }

  predicate AllStars(p: Text) {
    forall i :: 0 <= i < |p| ==> p[i] == STAR
  }

  // The last elements of p are two or more stars.
  predicate EndsInStars(p: Text)
    requires Closed(p)
    decreases |p|
  {
    (AllStars(p) && |p| >= 2) || (p != [] && EndsInStars(p[Width(p)..]))
  }

  // The pattern with ?* for the stars in which it ends, where there are two
  // or more.
  function Strict(p: Text): (q: Text)
    requires Closed(p)
    ensures Closed(q)
    ensures AllStars(p) && |p| < 2 ==> q == p
    decreases |p|
  {
    if AllStars(p) && |p| >= 2 then StrictClosed(); [ANY, STAR]
    else if p == [] then []
    else
      var n, r := Width(p), Strict(p[Width(p)..]);
      Glued(p, r);
      p[..n] + r
  }

  lemma StrictClosed()
    ensures Closed([ANY, STAR])
  {
    assert [ANY, STAR][1..] == [STAR] && [STAR][1..] == [];
  }

  // An element in front of another rest.
  lemma Glued(p: Text, r: Text)
    requires p != [] && Width(p) <= |p| && Closed(r)
    ensures var q := p[..Width(p)] + r;
      q != [] && q[0] == p[0] && Width(q) == Width(p) && q[Width(q)..] == r && Closed(q)
    ensures p[0] != STAR ==> forall c, m :: Element(p[..Width(p)] + r, c, m) <==> Element(p, c, m)
  {
    var q := p[..Width(p)] + r;
    if p[0] == LBRK {
      CloseSame(p, q, 1);
      assert q[1..Width(p) - 1] == p[1..Width(p) - 1];
    }
    assert q[Width(q)..] == r;
  }

  lemma {:induction false} CloseSame(p: Text, q: Text, i: nat)
    requires i <= Close(p, i) < |p| && Close(p, i) < |q| && forall h :: i <= h <= Close(p, i) ==> q[h] == p[h]
    ensures Close(q, i) == Close(p, i)
    decreases |p| - i
  {
    if p[i] != RBRK {
      CloseSame(p, q, i + 1);
    }
  }

  // ---------------------------------------------------------- the comparison

  // Only stars match the empty text.
  lemma {:induction false} EmptyText(p: Text)
    requires Closed(p)
    ensures Lang(p, [], false) <==> AllStars(p)
    decreases |p|
  {
    if p != [] && p[0] == STAR {
      EmptyText(p[1..]);
      var e: Text := [];
      assert e[0..] == e;
    }
  }

  lemma {:induction false} StarsSay(p: Text, s: Text)
    requires AllStars(p) && |p| >= 1 && Closed(p)
    ensures Says(p, s) <==> |p| == 1 || s != []
    decreases |p|
  {
    if |p| > 1 {
      StarsSay(p[1..], s);
      if s != [] {
        assert s[0..] == s;
        assert Says(p[1..], s[0..]);
      }
    }
  }

  lemma StrictStars(p: Text)
    requires Closed(p)
    ensures AllStars(Strict(p)) <==> AllStars(p) && |p| < 2
  {
    if p != [] && !(AllStars(p) && |p| >= 2) && p[0] == STAR {
      StrictStars(p[1..]);
      var q := Strict(p[1..]);
      assert Strict(p) == [STAR] + q;
      assert !AllStars(p[1..]) || |p[1..]| == 0;
      assert forall i :: 0 <= i < |q| ==> q[i] == Strict(p)[i + 1];
    }
  }

  lemma AnyStar(s: Text)
    ensures Closed([ANY, STAR]) && (Lang([ANY, STAR], s, false) <==> s != [])
  {
    StrictClosed();
    var p: Text := [ANY, STAR];
    assert p[1..] == [STAR] && [STAR][1..] == [];
    if s != [] {
      var t := s[1..];
      assert t[|t|..] == [];
      assert Lang([], t[|t|..], false);
      assert Lang([STAR], t, false);
    }
  }

  // For every pattern with closed brackets: Gmatch decides the language of
  // the strict pattern.
  lemma {:induction false} SaysStrict(p: Text, s: Text)
    requires Closed(p)
    ensures Says(p, s) <==> Lang(Strict(p), s, false)
    decreases |p|
  {
    if p == [] {
    } else if AllStars(p) {
      StarsSay(p, s);
      AnyStar(s);
      if |p| == 1 {
        assert p[1..] == [] && s[|s|..] == [];
        assert Lang(p[1..], s[|s|..], false);
      }
    } else {
      var n := Width(p);
      var r := Strict(p[n..]);
      Glued(p, r);
      if p[0] == STAR {
        forall k | 0 <= k <= |s| ensures Says(p[1..], s[k..]) <==> Lang(r, s[k..], false) {
          SaysStrict(p[1..], s[k..]);
        }
        StrictStars(p[1..]);
        EmptyText(r);
        assert s[|s|..] == [];
      } else if s != [] {
        SaysStrict(p[n..], s[1..]);
      }
    }
  }

  // A pattern that does not end in two stars is strict.
  lemma {:induction false} AlreadyStrict(p: Text)
    requires Closed(p) && !EndsInStars(p)
    ensures Strict(p) == p
    decreases |p|
  {
    if p != [] {
      AlreadyStrict(p[Width(p)..]);
    }
  }

  lemma LangStar(p: Text, s: Text, k: nat, meant: bool)
    requires Closed(p) && p != [] && p[0] == STAR && k <= |s| && Lang(p[1..], s[k..], meant)
    ensures Lang(p, s, meant)
  {
  }

  // What a pattern that ends in two stars lets Gmatch find has a shorter text
  // beside it in the language.
  lemma {:induction false} Shorter(p: Text, s: Text) returns (t: Text)
    requires Closed(p) && EndsInStars(p) && Lang(Strict(p), s, false)
    ensures |t| < |s| && Lang(p, t, false)
    decreases |p|
  {
    if AllStars(p) {
      AnyStar(s);
      EmptyText(p);
      return [];
    }
    var n := Width(p);
    var r := Strict(p[n..]);
    Glued(p, r);
    assert EndsInStars(p[n..]);
    if p[0] == STAR {
      var k :| 0 <= k <= |s| && Lang(r, s[k..], false);
      t := Shorter(p[1..], s[k..]);
      assert t[0..] == t;
      LangStar(p, t, 0, false);
    } else {
      var u := Shorter(p[n..], s[1..]);
      t := [s[0]] + u;
      assert t[1..] == u;
    }
  }

  lemma {:induction false} Missed(p: Text, s: Text) returns (t: Text)
    requires Closed(p) && EndsInStars(p) && Lang(p, s, false)
    ensures Lang(p, t, false) && !Says(p, t)
    decreases |s|
  {
    SaysStrict(p, s);
    if !Says(p, s) {
      return s;
    }
    var u := Shorter(p, s);
    t := Missed(p, u);
  }

  // Gmatch is true only of texts in the language of the pattern.
  lemma {:induction false} SaysSound(p: Text, s: Text)
    requires Closed(p) && Says(p, s)
    ensures Lang(p, s, false)
    decreases |p|
  {
    if p == [] {
    } else if p[0] == STAR {
      if |p| == 1 {
        assert p[1..] == [] && s[|s|..] == [];
        LangStar(p, s, |s|, false);
      } else {
        var k :| 0 <= k < |s| && Says(p[1..], s[k..]);
        SaysSound(p[1..], s[k..]);
        LangStar(p, s, k, false);
      }
    } else {
      SaysSound(p[Width(p)..], s[1..]);
    }
  }

  // Gmatch answers right for every text.
  ghost predicate Decides(p: Text)
    requires Closed(p)
  {
    forall s: Text :: Lang(p, s, true) ==> Says(p, s)
  }

  // Every character that stands alone in the class, from cls[i] on, is not
  // quoted, or is one that Gmatch takes the class to hold all the same.
  predicate Covered(cls: Text, i: nat)
    decreases |cls| - i
  {
    if i >= |cls| then true
    else if Range(cls, i) then Covered(cls, i + 2)
    else Holds(cls, 0, Trim(cls[i])) && Covered(cls, i + 1)
  }

  lemma {:induction false} HoldsDenotes(cls: Text, i: nat, c: int)
    requires Holds(cls, i, c) && c >= 0
    ensures Denotes(cls, i, c)
    decreases |cls| - i
  {
    var j := if Range(cls, i) then i + 2 else i + 1;
    if Holds(cls, j, c) {
      HoldsDenotes(cls, j, c);
    }
  }

  lemma {:induction false} CoveredHolds(cls: Text, i: nat, c: int)
    requires Covered(cls, i) && Denotes(cls, i, c) && (Holds(cls, i, c) ==> Holds(cls, 0, c))
    ensures Holds(cls, 0, c)
    decreases |cls| - i
  {
    var j := if Range(cls, i) then i + 2 else i + 1;
    if Denotes(cls, j, c) {
      CoveredHolds(cls, j, c);
    }
  }

  lemma {:induction false} Uncovered(cls: Text, i: nat) returns (c: Char)
    requires !Covered(cls, i) && forall d :: Denotes(cls, i, d) ==> Denotes(cls, 0, d)
    ensures Trim(c) == c as int && Denotes(cls, 0, c as int) && !Holds(cls, 0, c as int)
    decreases |cls| - i
  {
    if Range(cls, i) {
      c := Uncovered(cls, i + 2);
    } else if Holds(cls, 0, Trim(cls[i])) {
      c := Uncovered(cls, i + 1);
    } else {
      c := Trim(cls[i]) as Char;
    }
  }

  // Some class of the pattern has nothing in it.
  predicate Barren(p: Text)
    requires Closed(p)
    decreases |p|
  {
    p != [] && ((p[0] == LBRK && Width(p) == 2) || Barren(p[Width(p)..]))
  }

  // Gmatch takes every class to hold what it denotes.
  predicate Plain(p: Text)
    requires Closed(p)
    decreases |p|
  {
    p == [] || ((p[0] == LBRK ==> Covered(p[1..Width(p) - 1], 0)) && Plain(p[Width(p)..]))
  }

  lemma {:induction false} LangMeant(p: Text, s: Text)
    requires Closed(p)
    ensures Lang(p, s, false) ==> Lang(p, s, true)
    ensures Plain(p) && Lang(p, s, true) ==> Lang(p, s, false)
    decreases |p|
  {
    if p == [] {
    } else if p[0] == STAR {
      forall k | 0 <= k <= |s|
        ensures Lang(p[1..], s[k..], false) ==> Lang(p[1..], s[k..], true)
        ensures Plain(p) && Lang(p[1..], s[k..], true) ==> Lang(p[1..], s[k..], false)
      {
        LangMeant(p[1..], s[k..]);
      }
    } else if s != [] {
      ElementMeant(p, s[0]);
      LangMeant(p[Width(p)..], s[1..]);
    }
  }

  lemma ElementMeant(p: Text, c: Char)
    requires p != [] && p[0] != STAR && Closed(p)
    ensures Element(p, c, false) ==> Element(p, c, true)
    ensures Plain(p) && Element(p, c, true) ==> Element(p, c, false)
  {
    if p[0] == LBRK {
      var cls := p[1..Width(p) - 1];
      if Holds(cls, 0, Trim(c)) {
        HoldsDenotes(cls, 0, Trim(c));
      } else if Plain(p) && Denotes(cls, 0, Trim(c)) {
        CoveredHolds(cls, 0, Trim(c));
      }
    }
  }

  // A pattern with an empty class matches no text.
  lemma {:induction false} BarrenLang(p: Text, s: Text)
    requires Closed(p) && Barren(p)
    ensures !Lang(p, s, true)
    decreases |p|
  {
    if p[0] == STAR {
      forall k | 0 <= k <= |s| ensures !Lang(p[1..], s[k..], true) {
        BarrenLang(p[1..], s[k..]);
      }
    } else if s != [] && !(p[0] == LBRK && Width(p) == 2) {
      BarrenLang(p[Width(p)..], s[1..]);
    }
  }

  // The characters that a text of the language has at least.
  function Count(p: Text): nat
    requires Closed(p)
    decreases |p|
  {
    if p == [] then 0 else (if p[0] == STAR then 0 else 1) + Count(p[Width(p)..])
  }

  lemma {:induction false} NotShorter(p: Text, s: Text)
    requires Closed(p) && Lang(p, s, false)
    ensures |s| >= Count(p)
    decreases |p|
  {
    if p == [] {
    } else if p[0] == STAR {
      var k :| 0 <= k <= |s| && Lang(p[1..], s[k..], false);
      NotShorter(p[1..], s[k..]);
    } else {
      NotShorter(p[Width(p)..], s[1..]);
    }
  }

  // Every other pattern matches one, with nothing for its stars.
  lemma {:induction false} Fertile(p: Text) returns (s: Text)
    requires Closed(p) && !Barren(p)
    ensures Lang(p, s, true) && |s| == Count(p)
    decreases |p|
  {
    if p == [] {
      return [];
    }
    var r := Fertile(p[Width(p)..]);
    if p[0] == STAR {
      s := r;
      assert r[0..] == r;
      LangStar(p, r, 0, true);
    } else {
      s := [if p[0] == LBRK then Trim(p[1]) as Char else p[0]] + r;
      assert s[1..] == r;
    }
  }

  // One that has a class with a character unknown to Gmatch matches a text so
  // short that the character must stand for the class: Gmatch misses the text.
  lemma {:induction false} Unknown(p: Text) returns (s: Text)
    requires Closed(p) && !Barren(p) && !Plain(p)
    ensures Lang(p, s, true) && !Lang(p, s, false) && |s| == Count(p)
    decreases |p|
  {
    if p[0] == LBRK && !Covered(p[1..Width(p) - 1], 0) {
      var c := Uncovered(p[1..Width(p) - 1], 0);
      var u := Fertile(p[Width(p)..]);
      s := [c] + u;
      assert s[1..] == u;
      return;
    }
    var r := Unknown(p[Width(p)..]);
    if p[0] == STAR {
      s := r;
      assert r[0..] == r;
      LangStar(p, r, 0, true);
      forall k | 0 < k <= |r| ensures !Lang(p[1..], r[k..], false) {
        if Lang(p[1..], r[k..], false) {
          NotShorter(p[1..], r[k..]);
        }
      }
    } else {
      s := [if p[0] == LBRK then Trim(p[1]) as Char else p[0]] + r;
      assert s[1..] == r;
    }
  }

  // Gmatch is never true outside the language of a pattern with closed
  // brackets, and decides it exactly if the pattern does not end in two stars
  // and has no class with a character unknown to Gmatch, or has an empty class.
  lemma GmatchExact(p: Text)
    requires Closed(p)
    ensures forall s: Text :: Says(p, s) ==> Lang(p, s, true)
    ensures Decides(p) <==> Barren(p) || (!EndsInStars(p) && Plain(p))
  {
    forall s: Text | Says(p, s) ensures Lang(p, s, true) {
      SaysSound(p, s);
      LangMeant(p, s);
    }
    if Barren(p) {
      forall s: Text ensures !Lang(p, s, true) {
        BarrenLang(p, s);
      }
    } else if !EndsInStars(p) && Plain(p) {
      forall s: Text | Lang(p, s, true) ensures Says(p, s) {
        LangMeant(p, s);
        AlreadyStrict(p);
        SaysStrict(p, s);
      }
    } else {
      var s := MissedText(p);
      assert Lang(p, s, true) && !Says(p, s);
    }
  }

  lemma MissedText(p: Text) returns (s: Text)
    requires Closed(p) && !Barren(p) && (EndsInStars(p) || !Plain(p))
    ensures Lang(p, s, true) && !Says(p, s)
  {
    if !Plain(p) {
      s := Unknown(p);
    } else {
      s := Fertile(p);
      LangMeant(p, s);
      s := Missed(p, s);
      LangMeant(p, s);
    }
    if Says(p, s) {
      SaysSound(p, s);
    }
  }

  // Two stars do not match the empty text.
  lemma TwoStars()
    ensures Closed([STAR, STAR]) && Lang([STAR, STAR], [], true) && !Says([STAR, STAR], [])
  {
    assert [STAR, STAR][1..] == [STAR] && [STAR][1..] == [];
    EmptyText([STAR, STAR]);
    LangMeant([STAR, STAR], []);
  }

  // A class of one quoted character does not match the character.
  lemma QuotedOne(q: Char)
    requires q < 0
    ensures var p := [LBRK, q, RBRK];
      Closed(p) && Lang(p, [Trim(q) as Char], true) && !Says(p, [Trim(q) as Char])
  {
    var p: Text, s: Text := [LBRK, q, RBRK], [Trim(q) as Char];
    assert Close(p, 2) == 2;
    assert p[3..] == [] && p[1..2] == [q] && s[1..] == [];
    assert Closed(p[3..]) && Lang(p[3..], s[1..], true);
    assert Denotes([q], 0, Trim(s[0])) && !Holds([q], 0, Trim(s[0]));
  }

  // -------------------------------------------------------------- the loops

  // What *p reads in the C string p.
  function At(p: Text, i: nat): int {
    if i < |p| then p[i] as int else 0
  }

  // the loop over a class, from behind its [: whether it holds stringc, and
  // then the place behind its ]
  method Class(stringc: int, p: Text, start: nat) returns (ok: bool, q: nat)
    requires 1 <= start <= |p| && p[start - 1] == LBRK && Close(p, start) < |p|
    ensures ok <==> Holds(p[start..Close(p, start)], 0, stringc)
    ensures ok ==> q == Close(p, start) + 1
  {
    var found := false;
    ghost var cls := p[start..Close(p, start)];
    q := start;
    while true
      invariant start <= q <= Close(p, start)
      invariant Holds(cls, 0, stringc) <==> found || Holds(cls, q - start, stringc)
      decreases |p| - q
    {
      var rangec := p[q];
      q := q + 1;
      if rangec == RBRK {
        if found {
          break;
        } else {
          return false, q;
        }
      }
      if !found {
        if rangec == DASH && p[q - 2] != LBRK && p[q] != RBRK {
          found := stringc <= Trim(p[q]) && Trim(p[q - 2]) <= stringc;
          q := q + 1;
        } else {
          found := stringc == rangec as int;
        }
      }
    }
    ok := true;
  }

  // One element of the pattern, on pointers.
  lemma SaysStep(s: Text, p: Text, i: nat, j: nat)
    requires i <= |s| && j <= |p| && Closed(p[j..])
    ensures j == |p| ==> (Says(p[j..], s[i..]) <==> i == |s|)
    ensures j < |p| && p[j] == STAR ==>
      && Closed(p[j + 1..])
      && (Says(p[j..], s[i..]) <==> |p[j + 1..]| == 0 || exists k :: 0 <= k < |s[i..]| && Says(p[j + 1..], s[i..][k..]))
    ensures j < |p| && p[j] != STAR && p[j] != LBRK ==>
      && Closed(p[j + 1..])
      && (Says(p[j..], s[i..]) <==> i < |s| && (p[j] == ANY || Trim(p[j]) == Trim(s[i])) && Says(p[j + 1..], s[i + 1..]))
    ensures j < |p| && p[j] == LBRK ==> var n := Close(p, j + 1);
      n < |p| && Closed(p[n + 1..]) &&
      (Says(p[j..], s[i..]) <==> i < |s| && Holds(p[j + 1..n], 0, Trim(s[i])) && Says(p[n + 1..], s[i + 1..]))
  {
    if j < |p| {
      assert p[j..][Width(p[j..])..] == p[j + Width(p[j..])..];
      if p[j] == LBRK {
        CloseShift(p, j, 1);
        assert p[j..][1..Width(p[j..]) - 1] == p[j + 1..Close(p, j + 1)];
      }
      if i < |s| {
        assert s[i..][1..] == s[i + 1..];
      }
    }
  }

  lemma {:induction false} CloseShift(p: Text, j: nat, i: nat)
    requires j <= |p| && i <= |p| - j
    ensures Close(p[j..], i) == Close(p, j + i) - j
    decreases |p| - i
  {
    if i < |p| - j && p[j + i] != RBRK {
      CloseShift(p, j, i + 1);
    }
  }

  method Gmatch(s: Text, p: Text) returns (r: bool)
    requires Closed(p) && Proper(s) && Proper(p)
    ensures r <==> Says(p, s)
    decreases |p|, 0
  {
    hide Says; hide Closed; hide Holds; hide Close;
    var i, j := 0, 0;
    assert p[0..] == p && s[0..] == s;
    while true
      invariant 0 <= i <= |s| && 0 <= j <= |p|
      invariant Closed(p[j..]) && (Says(p, s) <==> Says(p[j..], s[i..]))
      decreases |p| - j
    {
      var stringc := if i < |s| then Trim(s[i]) else 0;
      SaysStep(s, p, i, j);
      if j == |p| {
        return stringc == 0;
      }
      var patternc := p[j];
      j := j + 1;
      if patternc == ANY {
        if stringc == 0 {
          return false;
        }
      } else if patternc == STAR {
        r := Star(s, p, i, j);
        return;
      } else if patternc == LBRK {
        NoNul(p[j..Close(p, j)], 0);
        var ok, q := Class(stringc, p, j);
        if !ok {
          return false;
        }
        j := q;
      } else if Trim(patternc) != stringc {
        return false;
      }
      i := i + 1;
    }
  }

  // No class of proper characters holds the NUL at the end of a text.
  lemma {:induction false} NoNul(cls: Text, i: nat)
    requires Proper(cls)
    ensures !Holds(cls, i, 0)
    decreases |cls| - i
  {
    if i < |cls| {
      NoNul(cls, i + 1);
      NoNul(cls, i + 2);
    }
  }

  // the case of a star in front of p[j]
  method Star(s: Text, p: Text, i: nat, j: nat) returns (r: bool)
    requires i <= |s| && j <= |p| && Closed(p[j..]) && Proper(s) && Proper(p) && j > 0
    ensures r <==> |p[j..]| == 0 || exists k :: 0 <= k < |s[i..]| && Says(p[j..], s[i..][k..])
    decreases |p| - j, 1
  {
    if j == |p| {
      return true;
    }
    var h := i;
    while h < |s|
      invariant i <= h <= |s|
      invariant forall k :: 0 <= k < h - i ==> !Says(p[j..], s[i..][k..])
    {
      assert s[i..][h - i..] == s[h..];
      r := Gmatch(s[h..], p[j..]);
      if r {
        assert Says(p[j..], s[i..][h - i..]);
        return;
      }
      h := h + 1;
    }
    return false;
  }
}
