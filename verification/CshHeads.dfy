// The commands of a list of words whose first words may be aliases.
module CshHeads {
  import opened Basics
  import opened CshSyntax

  // s[j] separates two commands: at depth 0, and not the & of a redirection.
  predicate Separates(s: seq<Word>, j: nat)
    requires j < |s|
  {
    && First(s[j]) in {'&', '|', ';', '\n'} && Run(s[..j], 0) == 0
    && !(j > 0 && s[j] == "&" && First(s[j - 1]) == '>')
  }

  // A command that the alias pass looks at, with its parentheses: it stands
  // between separators or the ends of the list. What is behind the last
  // separator is one only if all parentheses are closed.
  ghost predicate Segment(s: seq<Word>, a: nat, b: nat) {
    && a < b <= |s|
    && (a == 0 || Separates(s, a - 1))
    && (if b == |s| then Run(s, 0) == 0 else Separates(s, b))
    && forall j :: a <= j < b ==> !Separates(s, j)
  }

  // t[c] is the last closing parenthesis, and there is something in front.
  predicate LastParen(t: seq<Word>, c: nat) {
    1 < c < |t| && First(t[c]) == ')' && forall j :: c < j < |t| ==> First(t[j]) != ')'
  }

  // s[p..q] is a command of s without parentheses in front, at any depth.
  ghost predicate Head(s: seq<Word>, p: nat, q: nat)
    decreases |s|, 1
  {
    p < q <= |s| && exists a: nat, b: nat :: Segment(s, a, b) && a <= p && q <= b && Begins(s[a..b], p - a, q - a)
  }

  // The same for one command t, or those between its parentheses.
  ghost predicate Begins(t: seq<Word>, p: nat, q: nat)
    requires t != []
    decreases |t|, 0
  {
    if First(t[0]) != '(' then p == 0 && q == |t|
    else 0 < p < q && exists c: nat :: LastParen(t, c) && Head(t[1..c], p - 1, q - 1)
  }

  // Where the pass looks, a parenthesis is closed that is not open.
  ghost predicate Spills(s: seq<Word>)
    decreases |s|, 1
  {
    !NeverBelow(s, 0) || exists a: nat, b: nat :: Segment(s, a, b) && SpillsIn(s[a..b])
  }

  ghost predicate SpillsIn(t: seq<Word>)
    decreases |t|, 0
  {
    t != [] && First(t[0]) == '(' && exists c: nat :: LastParen(t, c) && Spills(t[1..c])
  }

  lemma SeparatesBehind(s: seq<Word>, i: nat, j: nat)
    requires i < |s| && Separates(s, i) && i + 1 + j < |s|
    ensures Separates(s[i + 1..], j) <==> Separates(s, i + 1 + j)
  {
    RunBehind(s, i, i + 1 + j);
    assert s[i + 1..][..j] == s[i + 1..i + 1 + j];
  }

  lemma RunBehind(s: seq<Word>, i: nat, k: nat)
    requires i < k <= |s| && Separates(s, i)
    ensures Run(s[..k], 0) == Run(s[i + 1..k], 0)
  {
    var a := s[..i];
    assert s[..k] == a + ([s[i]] + s[i + 1..k]);
    NestedRun(a, [s[i]] + s[i + 1..k], 0);
    assert ([s[i]] + s[i + 1..k])[1..] == s[i + 1..k];
  }

  // The commands behind a separator.
  lemma SegmentBehind(s: seq<Word>, i: nat, a: nat, b: nat)
    requires i < |s| && Separates(s, i)
    ensures Segment(s[i + 1..], a, b) <==> Segment(s, i + 1 + a, i + 1 + b)
  {
    hide Separates;
    var r := s[i + 1..];
    RunBehind(s, i, |s|);
    assert s[..|s|] == s && s[i + 1..|s|] == r;
    forall j: nat | j < |r| ensures Separates(r, j) <==> Separates(s, i + 1 + j) {
      SeparatesBehind(s, i, j);
    }
    if Segment(r, a, b) {
      forall j | i + 1 + a <= j < i + 1 + b ensures !Separates(s, j) {
        assert !Separates(r, j - i - 1);
      }
    }
    if Segment(s, i + 1 + a, i + 1 + b) {
      forall j | a <= j < b ensures !Separates(r, j) {
        assert !Separates(s, i + 1 + j);
      }
    }
  }

  ghost predicate NoneBefore(s: seq<Word>, i: nat)
    requires i <= |s|
  {
    forall j :: 0 <= j < i ==> !Separates(s, j)
  }

  // The commands of a list are the one in front of its first separator and
  // those behind it.
  lemma HeadSplit(s: seq<Word>, i: nat, p: nat, q: nat)
    requires i < |s| && Separates(s, i) && NoneBefore(s, i) && p < q
    ensures p <= i ==> (Head(s, p, q) <==> i > 0 && q <= i && Begins(s[..i], p, q))
    ensures p > i ==> (Head(s, p, q) <==> Head(s[i + 1..], p - i - 1, q - i - 1))
  {
    hide Begins; hide Separates;
    var r := s[i + 1..];
    assert s[0..i] == s[..i];
    if i > 0 {
      assert Segment(s, 0, i);
    }
    if Head(s, p, q) {
      var a: nat, b: nat :| Segment(s, a, b) && a <= p && q <= b && Begins(s[a..b], p - a, q - a);
      FirstSegment(s, i, a, b);
      if a > i {
        SegmentBehind(s, i, a - i - 1, b - i - 1);
        assert r[a - i - 1..b - i - 1] == s[a..b];
      }
    }
    if p > i && Head(r, p - i - 1, q - i - 1) {
      var a: nat, b: nat :| Segment(r, a, b) && a <= p - i - 1 && q - i - 1 <= b && Begins(r[a..b], p - i - 1 - a, q - i - 1 - a);
      SegmentBehind(s, i, a, b);
      assert r[a..b] == s[i + 1 + a..i + 1 + b];
    }
  }

  lemma FirstSegment(s: seq<Word>, i: nat, a: nat, b: nat)
    requires i < |s| && Separates(s, i) && NoneBefore(s, i) && Segment(s, a, b)
    ensures a > i || (a == 0 && b == i)
  {
    hide Separates;
  }

  // A list without separators is one command, if its parentheses are closed.
  lemma HeadWhole(s: seq<Word>, p: nat, q: nat)
    requires NoneBefore(s, |s|) && p < q
    ensures Head(s, p, q) <==> Run(s, 0) == 0 && q <= |s| && Begins(s, p, q)
  {
    hide Begins; hide Separates;
    assert s[0..|s|] == s;
    if Run(s, 0) == 0 && s != [] {
      assert Segment(s, 0, |s|);
    }
    if Head(s, p, q) {
      var a: nat, b: nat :| Segment(s, a, b) && a <= p && q <= b && Begins(s[a..b], p - a, q - a);
      OnlySegment(s, a, b);
    }
  }

  lemma OnlySegment(s: seq<Word>, a: nat, b: nat)
    requires NoneBefore(s, |s|) && Segment(s, a, b)
    ensures a == 0 && b == |s|
  {
    hide Separates;
  }

  lemma SpillsSplit(s: seq<Word>, i: nat)
    requires i < |s| && Separates(s, i) && NoneBefore(s, i) && NeverBelow(s[..i], 0)
    ensures Spills(s) <==> SpillsIn(s[..i]) || Spills(s[i + 1..])
  {
    hide SpillsIn; hide Separates; hide NeverBelow; hide NoneBefore;
    var r := s[i + 1..];
    BelowSplit(s, i);
    assert s[0..i] == s[..i];
    if SpillsIn(s[..i]) {
      FirstIs(s, i);
    }
    if a: nat, b: nat :| Segment(r, a, b) && SpillsIn(r[a..b]) {
      SegmentBehind(s, i, a, b);
      assert r[a..b] == s[i + 1 + a..i + 1 + b];
    }
    if a: nat, b: nat :| Segment(s, a, b) && SpillsIn(s[a..b]) {
      FirstSegment(s, i, a, b);
      if a > i {
        SegmentBehind(s, i, a - i - 1, b - i - 1);
        assert r[a - i - 1..b - i - 1] == s[a..b];
      }
    }
  }

  lemma FirstIs(s: seq<Word>, i: nat)
    requires i < |s| && Separates(s, i) && NoneBefore(s, i) && SpillsIn(s[..i])
    ensures Segment(s, 0, i)
  {
    hide Separates;
  }

  lemma BelowSplit(s: seq<Word>, i: nat)
    requires i < |s| && Separates(s, i) && NeverBelow(s[..i], 0)
    ensures NeverBelow(s, 0) <==> NeverBelow(s[i + 1..], 0)
  {
    assert s == s[..i] + s[i..] && s[i..][1..] == s[i + 1..];
    BelowConcat(s[..i], s[i..], 0);
  }

  lemma SpillsWhole(s: seq<Word>)
    requires NoneBefore(s, |s|)
    ensures Spills(s) <==> !NeverBelow(s, 0) || (Run(s, 0) == 0 && SpillsIn(s))
  {
    hide SpillsIn; hide Separates; hide NeverBelow;
    assert s[0..|s|] == s;
    if Run(s, 0) == 0 && SpillsIn(s) {
      assert s != [] by {
        SpillsSome(s);
      }
      assert Segment(s, 0, |s|);
    }
    if a: nat, b: nat :| Segment(s, a, b) && SpillsIn(s[a..b]) {
      OnlySegment(s, a, b);
    }
  }

  lemma SpillsSome(t: seq<Word>)
    requires SpillsIn(t)
    ensures t != []
  {
  }
}
