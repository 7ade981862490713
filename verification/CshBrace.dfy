// Brace expansion of csh words.
module CshBrace {
  import opened Basics
  import opened CshName
  import opened CshMatch

  const LBRC: Char := 123   // {
  const RBRC: Char := 125   // }
  const COMMA: Char := 44   // ,

  // ------------------------------------------------------------ one brace

  // Strchr: the first brace, or the length of s.
  function Brace(s: Text): (b: nat)
    ensures b <= |s| && (b < |s| ==> s[b] == LBRC) && forall i :: 0 <= i < b ==> s[i] != LBRC
  {
    if s == [] || s[0] == LBRC then 0 else 1 + Brace(s[1..])
  }

  // What the first scan of globbrace comes to: the closing brace, a missing
  // character, or the end of the word at depth 0, which it does not notice.
  datatype Match = Found(place: nat) | Missing(c: Char) | Open

  function Partner(s: Text, i: nat, d: nat): (m: Match)
    ensures m.Found? ==> i <= m.place < |s| && s[m.place] == RBRC
    decreases |s| - i
  {
    if i >= |s| then
      if d != 0 then Missing(LBRC) else Open
    else if s[i] == LBRK then
      if Close(s, i + 1) >= |s| then Missing(LBRK) else Partner(s, Close(s, i + 1) + 1, d)
    else if s[i] == LBRC then Partner(s, i + 1, d + 1)
    else if s[i] == RBRC then
      if d == 0 then Found(i) else Partner(s, i + 1, d - 1)
    else Partner(s, i + 1, d)
  }

  // The parts between the commas, from s[i] on; the present one began at pl.
  function Parts(s: Text, i: nat, d: nat, pl: nat): (r: seq<Text>)
    requires pl <= i && Partner(s, i, d).Found?
    ensures r != []
    decreases |s| - i
  {
    if s[i] == LBRK then Parts(s, Close(s, i + 1) + 1, d, pl)
    else if s[i] == LBRC then Parts(s, i + 1, d + 1, pl)
    else if s[i] == RBRC then
      if d == 0 then [s[pl..i]] else Parts(s, i + 1, d - 1, pl)
    else if s[i] == COMMA && d == 0 then [s[pl..i]] + Parts(s, i + 1, 0, i + 1)
    else Parts(s, i + 1, d, pl)
  }

  // How many braces open in s.
  function Braces(s: Text): nat {
    if s == [] then 0 else Braces(s[..|s| - 1]) + if s[|s| - 1] == LBRC then 1 else 0
  }

  lemma {:induction false} BracesConcat(a: Text, c: Text)
    ensures Braces(a + c) == Braces(a) + Braces(c)
    decreases |c|
  {
    if c == [] {
      assert a + c == a;
    } else {
      assert (a + c)[..|a + c| - 1] == a + c[..|c| - 1];
      BracesConcat(a, c[..|c| - 1]);
    }
  }

  ghost predicate Stretch(q: Text, s: Text, lo: nat, hi: nat) {
    exists a, b :: lo <= a <= b <= hi && hi <= |s| && q == s[a..b]
  }

  // Every part is a stretch of s up to the closing brace.
  lemma {:induction false} PartsWithin(s: Text, i: nat, d: nat, pl: nat)
    requires pl <= i && Partner(s, i, d).Found?
    ensures forall q :: q in Parts(s, i, d, pl) ==> Stretch(q, s, pl, Partner(s, i, d).place)
    decreases |s| - i
  {
    var pe := Partner(s, i, d).place;
    if s[i] == LBRK {
      PartsWithin(s, Close(s, i + 1) + 1, d, pl);
    } else if s[i] == LBRC {
      PartsWithin(s, i + 1, d + 1, pl);
    } else if s[i] == RBRC {
      if d > 0 {
        PartsWithin(s, i + 1, d - 1, pl);
      }
    } else if s[i] == COMMA && d == 0 {
      PartsWithin(s, i + 1, 0, i + 1);
    } else {
      PartsWithin(s, i + 1, d, pl);
    }
  }

  // The words that globbrace makes of s: what stands in front of the brace,
  // one of the parts, and what stands behind the closing brace.
  function Around(s: Text, b: nat, pe: nat, parts: seq<Text>): (r: seq<Text>)
    requires b <= pe < |s|
    ensures |r| == |parts| && forall h :: 0 <= h < |r| ==> r[h] == s[..b] + parts[h] + s[pe + 1..]
  {
    seq(|parts|, h requires 0 <= h < |parts| => s[..b] + parts[h] + s[pe + 1..])
  }

  datatype Split = Words(words: seq<Text>) | Fails(c: Char) | Undefined

  // globbrace
  function Globbrace(s: Text): (r: Split)
    requires Brace(s) < |s|
    ensures r.Words? ==> r.words != []
    ensures r.Words? ==> forall q :: q in r.words ==> Braces(q) < Braces(s) && |q| < |s|
  {
    var b := Brace(s);
    match Partner(s, b + 1, 0)
    case Missing(c) => Fails(c)
    case Open => Undefined
    case Found(pe) =>
      var r := Around(s, b, pe, Parts(s, b + 1, 0, b + 1));
      Fewer(s, b, pe);
      Words(r)
  }

  // How deep the scan that starts at s[i], d deep, is in braces when it comes to
  // place x; -1 if it does not come there, because x is in brackets.
  ghost function DeepAt(s: Text, i: nat, d: nat, x: nat): int
    decreases |s| - i
  {
    if i == x then d
    else if i >= |s| then -1
    else if s[i] == LBRK then DeepAt(s, Close(s, i + 1) + 1, d, x)
    else if s[i] == LBRC then DeepAt(s, i + 1, d + 1, x)
    else if s[i] == RBRC then if d == 0 then -1 else DeepAt(s, i + 1, d - 1, x)
    else DeepAt(s, i + 1, d, x)
  }

  // The commas that separate parts: those that are in no further braces.
  ghost predicate Divides(s: Text, i: nat, d: nat, pe: nat, x: nat) {
    i <= x < pe <= |s| && s[x] == COMMA && DeepAt(s, i, d, x) == 0
  }

  // The parts are cut at these commas and at the closing brace, from left to
  // right.
  ghost predicate CutAt(s: Text, i: nat, d: nat, pl: nat, pe: nat, cuts: seq<nat>, parts: seq<Text>) {
    && pl <= i && |cuts| == |parts| > 0 && cuts[|cuts| - 1] == pe < |s|
    && (forall h, k :: 0 <= h < k < |cuts| ==> cuts[h] < cuts[k])
    && (forall h :: 0 <= h < |cuts| - 1 ==> Divides(s, i, d, pe, cuts[h]))
    && (forall x :: Divides(s, i, d, pe, x) ==> x in cuts)
    && i <= cuts[0] && parts[0] == s[pl..cuts[0]]
    && (forall h :: 1 <= h < |parts| ==> cuts[h - 1] < cuts[h] <= pe && parts[h] == s[cuts[h - 1] + 1..cuts[h]])
  }

  // A step of the scan that meets no comma.
  lemma CutStep(s: Text, i: nat, d: nat, i': nat, d': nat, pl: nat, pe: nat, cuts: seq<nat>, parts: seq<Text>)
    requires CutAt(s, i', d', pl, pe, cuts, parts) && pl <= i < i'
    requires forall x: nat :: Divides(s, i, d, pe, x) <==> Divides(s, i', d', pe, x)
    ensures CutAt(s, i, d, pl, pe, cuts, parts)
  {
  }

  // A step that meets one.
  lemma CutHere(s: Text, i: nat, pl: nat, pe: nat, cuts: seq<nat>, parts: seq<Text>)
    requires CutAt(s, i + 1, 0, i + 1, pe, cuts, parts) && pl <= i < pe && s[i] == COMMA
    ensures CutAt(s, i, 0, pl, pe, [i] + cuts, [s[pl..i]] + parts)
  {
    var cuts', parts' := [i] + cuts, [s[pl..i]] + parts;
    forall x: nat ensures Divides(s, i, 0, pe, x) <==> x == i || Divides(s, i + 1, 0, pe, x) {
    }
    assert cuts'[0] == i;
    forall h | 1 <= h < |parts'| ensures cuts'[h - 1] < cuts'[h] <= pe && parts'[h] == s[cuts'[h - 1] + 1..cuts'[h]] {
      assert parts'[h] == parts[h - 1] && cuts'[h] == cuts[h - 1];
      assert h > 1 ==> cuts'[h - 1] == cuts[h - 2];
    }
  }

  lemma CutLast(s: Text, i: nat, pl: nat)
    requires pl <= i < |s| && s[i] == RBRC
    ensures CutAt(s, i, 0, pl, i, [i], [s[pl..i]])
  {
  }

  lemma {:induction false} PartsCut(s: Text, i: nat, d: nat, pl: nat) returns (cuts: seq<nat>)
    requires pl <= i && Partner(s, i, d).Found?
    ensures CutAt(s, i, d, pl, Partner(s, i, d).place, cuts, Parts(s, i, d, pl))
    decreases |s| - i
  {
    hide CutAt;
    var pe := Partner(s, i, d).place;
    if s[i] == RBRC && d == 0 {
      CutLast(s, i, pl);
      cuts := [i];
    } else if s[i] == COMMA && d == 0 {
      var c := PartsCut(s, i + 1, 0, i + 1);
      CutHere(s, i, pl, pe, c, Parts(s, i + 1, 0, i + 1));
      cuts := [i] + c;
    } else {
      var i' := if s[i] == LBRK then Close(s, i + 1) + 1 else i + 1;
      var d' := if s[i] == LBRC then d + 1 else if s[i] == RBRC then d - 1 else d;
      cuts := PartsCut(s, i', d', pl);
      forall x: nat ensures Divides(s, i, d, pe, x) <==> Divides(s, i', d', pe, x) {
        PassedOver(s, i, d, x, i', d');
      }
      CutStep(s, i, d, i', d', pl, pe, cuts, Parts(s, i, d, pl));
    }
  }

  // What a step passes over divides nothing.
  lemma PassedOver(s: Text, i: nat, d: nat, x: nat, i': nat, d': nat)
    requires i < |s| && !(s[i] == RBRC && d == 0) && !(s[i] == COMMA && d == 0)
    requires i' == if s[i] == LBRK then Close(s, i + 1) + 1 else i + 1
    requires d' == if s[i] == LBRC then d + 1 else if s[i] == RBRC then d - 1 else d
    ensures forall pe: nat :: Divides(s, i, d, pe, x) <==> Divides(s, i', d', pe, x)
  {
    if x < i' {
      NotReached(s, i', d', x);
    }
  }

  lemma {:induction false} NotReached(s: Text, i: nat, d: nat, x: nat)
    requires x < i
    ensures DeepAt(s, i, d, x) == -1
    decreases |s| - i
  {
    if i < |s| {
      if s[i] == LBRK {
        NotReached(s, Close(s, i + 1) + 1, d, x);
      } else if s[i] == LBRC {
        NotReached(s, i + 1, d + 1, x);
      } else if s[i] == RBRC {
        if d > 0 {
          NotReached(s, i + 1, d - 1, x);
        }
      } else {
        NotReached(s, i + 1, d, x);
      }
    }
  }

  // The words of globbrace, from left to right: each is s with one of the parts
  // for what stands from the first brace to its partner.
  lemma GlobbraceWords(s: Text) returns (cuts: seq<nat>, parts: seq<Text>)
    requires Brace(s) < |s| && Globbrace(s).Words?
    ensures var b, m, w := Brace(s), Partner(s, Brace(s) + 1, 0), Globbrace(s).words;
      && m.Found? && CutAt(s, b + 1, 0, b + 1, m.place, cuts, parts) && |w| == |parts|
      && forall h :: 0 <= h < |w| ==> w[h] == s[..b] + parts[h] + s[m.place + 1..]
  {
    hide CutAt;
    var b := Brace(s);
    parts := Parts(s, b + 1, 0, b + 1);
    cuts := PartsCut(s, b + 1, 0, b + 1);
  }

  // Every word of globbrace has fewer braces, and is shorter, so it fits in
  // the buffer if s does.
  lemma Fewer(s: Text, b: nat, pe: nat)
    requires b < |s| && s[b] == LBRC && Partner(s, b + 1, 0) == Found(pe)
    ensures b < pe < |s|
    ensures forall q :: q in Around(s, b, pe, Parts(s, b + 1, 0, b + 1)) ==> Braces(q) < Braces(s) && |q| < |s|
  {
    hide Braces; hide Partner; hide Parts; hide Around; hide Stretch;
    PartsWithin(s, b + 1, 0, b + 1);
    FewerAround(s, b, pe, Parts(s, b + 1, 0, b + 1));
  }

  lemma FewerAround(s: Text, b: nat, pe: nat, parts: seq<Text>)
    requires b < pe < |s| && s[b] == LBRC && forall r :: r in parts ==> Stretch(r, s, b + 1, pe)
    ensures forall q :: q in Around(s, b, pe, parts) ==> Braces(q) < Braces(s) && |q| < |s|
  {
    hide Braces; hide Around; hide Stretch;
    forall q | q in Around(s, b, pe, parts) ensures Braces(q) < Braces(s) && |q| < |s| {
      FewerOf(s, b, pe, parts, q);
    }
  }

  lemma FewerOf(s: Text, b: nat, pe: nat, parts: seq<Text>, q: Text)
    requires b < pe < |s| && s[b] == LBRC && q in Around(s, b, pe, parts)
    requires forall r :: r in parts ==> Stretch(r, s, b + 1, pe)
    ensures Braces(q) < Braces(s) && |q| < |s|
  {
    hide Braces; hide Around; hide Stretch;
    var h := AroundIndex(s, b, pe, parts, q);
    assert parts[h] in parts;
    FewerPart(s, b, pe, parts[h]);
  }

  lemma AroundIndex(s: Text, b: nat, pe: nat, parts: seq<Text>, q: Text) returns (h: nat)
    requires b <= pe < |s| && q in Around(s, b, pe, parts)
    ensures h < |parts| && q == s[..b] + parts[h] + s[pe + 1..]
  {
    h :| 0 <= h < |Around(s, b, pe, parts)| && Around(s, b, pe, parts)[h] == q;
  }

  lemma FewerPart(s: Text, b: nat, pe: nat, q: Text)
    requires b < pe < |s| && s[b] == LBRC && Stretch(q, s, b + 1, pe)
    ensures Braces(s[..b] + q + s[pe + 1..]) < Braces(s) && |s[..b] + q + s[pe + 1..]| < |s|
  {
    hide Braces;
    var i, j :| b + 1 <= i <= j <= pe && q == s[i..j];
    Replaced(s, b, i, j, pe);
  }

  lemma BracesAt(s: Text, x: nat, y: nat)
    requires x <= y <= |s|
    ensures Braces(s[..y]) == Braces(s[..x]) + Braces(s[x..y])
  {
    BracesConcat(s[..x], s[x..y]);
    assert s[..x] + s[x..y] == s[..y];
  }

  lemma Replaced(s: Text, b: nat, i: nat, j: nat, pe: nat)
    requires b < i <= j <= pe < |s| && s[b] == LBRC
    ensures Braces(s[..b] + s[i..j] + s[pe + 1..]) < Braces(s)
    ensures |s[..b] + s[i..j] + s[pe + 1..]| < |s|
  {
    hide Braces;
    BracesConcat(s[..b] + s[i..j], s[pe + 1..]);
    BracesConcat(s[..b], s[i..j]);
    OneBrace(s, b);
    BracesAt(s, b, b + 1);
    BracesAt(s, b + 1, i);
    BracesAt(s, i, j);
    BracesAt(s, j, pe + 1);
    BracesAt(s, pe + 1, |s|);
    assert s[..|s|] == s && s[pe + 1..|s|] == s[pe + 1..];
  }

  lemma OneBrace(s: Text, b: nat)
    requires b < |s| && s[b] == LBRC
    ensures Braces(s[b..b + 1]) == 1
  {
    assert s[b..b + 1] == [LBRC] && [LBRC][..0] == [];
    assert Braces([]) == 0;
  }

  // ------------------------------------------------------- the expansion

  // The words that a word stands for: those of every word that globbrace makes
  // of it, in order.
  function Expand(s: Text): Split
    decreases Braces(s)
  {
    if Brace(s) == |s| then Words([s]) else
    match Globbrace(s)
    case Fails(c) => Fails(c)
    case Undefined => Undefined
    case Words(w) => ExpandAll(w, Braces(s))
  }

  // The same for a list; the first failure counts.
  function ExpandAll(w: seq<Text>, n: nat): Split
    requires forall q :: q in w ==> Braces(q) < n
    decreases n, |w|
  {
    if w == [] then Words([]) else
    match Expand(w[0])
    case Fails(c) => Fails(c)
    case Undefined => Undefined
    case Words(a) =>
      match ExpandAll(w[1..], n)
      case Fails(c) => Fails(c)
      case Undefined => Undefined
      case Words(r) => Words(a + r)
  }

  // ------------------------------------------------- which words expand

  // Every bracket is closed and holds no opening brace. The code looks for the
  // first brace in brackets too.
  predicate Tidy(s: Text) {
    s != [] ==>
      if s[0] == LBRK then Close(s, 1) < |s| && LBRC !in s[1..Close(s, 1)] && Tidy(s[Close(s, 1) + 1..])
      else Tidy(s[1..])
  }

  // The braces that are open behind s, where d were open in front of it; what
  // is in brackets does not count.
  function Depth(s: Text, d: nat): nat {
    if s == [] then d
    else if s[0] == LBRK then if Close(s, 1) < |s| then Depth(s[Close(s, 1) + 1..], d) else d
    else Depth(s[1..], Step(s[0], d))
  }

  function Step(c: Char, d: nat): nat {
    if c == LBRC then d + 1 else if c == RBRC && d > 0 then d - 1 else d
  }

  lemma {:induction false} CloseConcat(a: Text, c: Text, i: nat)
    requires i <= |a| && Close(a, i) < |a|
    ensures Close(a + c, i) == Close(a, i)
    decreases |a| - i
  {
    if i < |a| && a[i] != RBRK {
      CloseConcat(a, c, i + 1);
    }
  }

  lemma {:induction false} TidyConcat(a: Text, c: Text, d: nat)
    requires Tidy(a)
    ensures Tidy(a + c) <==> Tidy(c)
    ensures Depth(a + c, d) == Depth(c, Depth(a, d))
    decreases |a|
  {
    if a == [] {
      assert a + c == c;
    } else if a[0] == LBRK {
      CloseConcat(a, c, 1);
      var k := Close(a, 1);
      assert (a + c)[1..k] == a[1..k] && (a + c)[k + 1..] == a[k + 1..] + c;
      TidyConcat(a[k + 1..], c, d);
    } else {
      assert (a + c)[1..] == a[1..] + c;
      TidyConcat(a[1..], c, Step(a[0], d));
    }
  }

  lemma {:induction false} CloseTail(s: Text, i: nat, j: nat)
    requires i <= j <= |s|
    ensures Close(s, j) == i + Close(s[i..], j - i)
    decreases |s| - j
  {
    if j < |s| && s[j] != RBRK {
      CloseTail(s, i, j + 1);
    }
  }

  lemma {:induction false} BraceConcat(a: Text, c: Text)
    requires LBRC !in a
    ensures Brace(a + c) == |a| + Brace(c)
  {
    if a == [] {
      assert a + c == c;
    } else {
      assert (a + c)[1..] == a[1..] + c && a[0] in a;
      BraceConcat(a[1..], c);
    }
  }

  // Nothing in front of the first brace of a tidy word counts.
  lemma {:induction false} TidyTail(s: Text)
    requires Tidy(s)
    ensures Tidy(s[Brace(s)..]) && Depth(s[Brace(s)..], 0) == Depth(s, 0)
    decreases |s|
  {
    if s == [] || s[0] == LBRC {
      assert s[0..] == s;
    } else {
      var k := if s[0] == LBRK then Close(s, 1) + 1 else 1;
      assert s == s[..k] + s[k..] && LBRC !in s[..k] by {
        assert s[..1] == [s[0]] && s[0] != LBRC;
        if s[0] == LBRK {
          assert s[..k] == [LBRK] + s[1..k - 1] + [RBRK];
        }
      }
      BraceConcat(s[..k], s[k..]);
      TidyTail(s[k..]);
      assert s[k..][Brace(s[k..])..] == s[Brace(s)..];
    }
  }

  // The word that starts with the first brace, and the braces that it leaves open.
  function Tail(s: Text): Text {
    s[Brace(s)..]
  }

  lemma TailConcat(a: Text, c: Text)
    requires LBRC !in a && Tidy(c)
    ensures Tidy(Tail(a + c)) && Depth(Tail(a + c), 0) == Depth(c, 0)
  {
    BraceConcat(a, c);
    assert (a + c)[|a| + Brace(c)..] == c[Brace(c)..];
    TidyTail(c);
  }

  lemma TidyStep(s: Text, i: nat, d: nat)
    requires i < |s| && Tidy(s[i..])
    ensures s[i] == LBRK ==> var k := Close(s, i + 1); k < |s| && Tidy(s[k + 1..]) && Depth(s[i..], d) == Depth(s[k + 1..], d)
    ensures s[i] != LBRK ==> Tidy(s[i + 1..]) && Depth(s[i..], d) == Depth(s[i + 1..], Step(s[i], d))
  {
    hide Step;
    var t := s[i..];
    assert t[1..] == s[i + 1..];
    CloseTail(s, i, i + 1);
    if s[i] == LBRK {
      assert t[Close(t, 1) + 1..] == s[Close(s, i + 1) + 1..];
    }
  }

  lemma TidyNone(s: Text, d: nat)
    requires s == []
    ensures Tidy(s) && Depth(s, d) == d
  {
  }

  // What the first scan comes to tells how many braces stay open.
  lemma {:induction false} PartnerDepth(s: Text, i: nat, d: nat)
    requires i <= |s| && Tidy(s[i..])
    ensures match Partner(s, i, d)
      case Found(pe) => Tidy(s[pe + 1..]) && Depth(s[i..], d + 1) == Depth(s[pe + 1..], 0)
      case Missing(c) => c == LBRC && Depth(s[i..], d + 1) >= 2
      case Open => Depth(s[i..], d + 1) == 1
    decreases |s| - i
  {
    hide Tidy; hide Depth; hide Close;
    if i == |s| {
      TidyNone(s[i..], d + 1);
    } else {
      TidyStep(s, i, d + 1);
      if s[i] == LBRK {
        PartnerDepth(s, Close(s, i + 1) + 1, d);
      } else if s[i] == LBRC {
        PartnerDepth(s, i + 1, d + 1);
      } else if s[i] == RBRC {
        if d > 0 {
          PartnerDepth(s, i + 1, d - 1);
        }
      } else {
        PartnerDepth(s, i + 1, d);
      }
    }
  }

  lemma TidyOne(c: Char, d: nat)
    requires c != LBRK
    ensures Tidy([c]) && Depth([c], d) == Step(c, d)
  {
    assert [c][1..] == [];
  }

  // The stretch from pl on, and one more step of the scan.
  lemma StretchMore(s: Text, pl: nat, i: nat)
    requires pl <= i < |s| && Tidy(s[pl..i]) && Tidy(s[i..])
    ensures var d := Depth(s[pl..i], 0);
      if s[i] == LBRK then var k := Close(s, i + 1); k < |s| && Tidy(s[pl..k + 1]) && Depth(s[pl..k + 1], 0) == d
      else Tidy(s[pl..i + 1]) && Depth(s[pl..i + 1], 0) == Step(s[i], d)
  {
    hide Tidy; hide Depth; hide Close; hide Step;
    var d := Depth(s[pl..i], 0);
    if s[i] == LBRK {
      TidyClass(s, i, d);
      var k := Close(s, i + 1);
      assert s[pl..k + 1] == s[pl..i] + s[i..k + 1];
      TidyConcat(s[pl..i], s[i..k + 1], 0);
    } else {
      assert s[pl..i + 1] == s[pl..i] + [s[i]];
      TidyOne(s[i], d);
      TidyConcat(s[pl..i], [s[i]], 0);
    }
  }

  lemma TidyClass(s: Text, i: nat, d: nat)
    requires i < |s| && s[i] == LBRK && Tidy(s[i..])
    ensures var k := Close(s, i + 1); k < |s| && Tidy(s[i..k + 1]) && Depth(s[i..k + 1], d) == d
  {
    hide Step;
    CloseTail(s, i, i + 1);
    var k := Close(s, i + 1);
    CloseIn(s, i, i + 1, k);
    ClassTidy(s[i..], s[i..k + 1], k - i, d);
  }

  lemma ClassTidy(t: Text, c: Text, k: nat, d: nat)
    requires 0 < k < |t| && c == t[..k + 1] && t[0] == LBRK && Close(t, 1) == Close(c, 1) == k && LBRC !in t[1..k]
    ensures Tidy(c) && Depth(c, d) == d
  {
    hide Step;
    assert c[1..k] == t[1..k] && c[k + 1..] == [];
  }

  lemma {:induction false} CloseIn(s: Text, i: nat, j: nat, k: nat)
    requires i <= j <= k < |s| && Close(s, j) == k
    ensures Close(s[i..k + 1], j - i) == k - i
    decreases k - j
  {
    if s[j] != RBRK {
      CloseIn(s, i, j + 1, k);
    }
  }

  // The parts are tidy, and each closes the braces that it opens.
  lemma {:induction false} PartsClosed(s: Text, i: nat, d: nat, pl: nat)
    requires pl <= i <= |s| && Partner(s, i, d).Found? && Tidy(s[pl..i]) && Depth(s[pl..i], 0) == d && Tidy(s[i..])
    ensures forall q :: q in Parts(s, i, d, pl) ==> Tidy(q) && Depth(q, 0) == 0
    decreases |s| - i
  {
    hide Tidy; hide Depth; hide Close;
    TidyStep(s, i, 0);
    StretchMore(s, pl, i);
    if s[i] == LBRK {
      PartsClosed(s, Close(s, i + 1) + 1, d, pl);
    } else if s[i] == LBRC {
      PartsClosed(s, i + 1, d + 1, pl);
    } else if s[i] == RBRC {
      if d > 0 {
        PartsClosed(s, i + 1, d - 1, pl);
      }
    } else if s[i] == COMMA && d == 0 {
      TidyNone(s[i + 1..i + 1], 0);
      PartsClosed(s, i + 1, 0, i + 1);
    } else {
      PartsClosed(s, i + 1, d, pl);
    }
  }

  // Every word that globbrace makes leaves as many braces open as the word it
  // is made of.
  lemma SameDepth(s: Text)
    requires Brace(s) < |s| && Tidy(Tail(s))
    ensures match Globbrace(s)
      case Words(w) => w != [] && forall q :: q in w ==> SameAs(q, Depth(Tail(s), 0))
      case Fails(c) => c == LBRC && Depth(Tail(s), 0) >= 2
      case Undefined => Depth(Tail(s), 0) == 1
  {
    hide Braces; hide Parts; hide Around; hide Tidy; hide Depth; hide Partner; hide Tail; hide Brace; hide Close; hide SameAs;
    TailStep(s);
    PartnerDepth(s, Brace(s) + 1, 0);
    if Partner(s, Brace(s) + 1, 0).Found? {
      AroundDepth(s, Brace(s), Partner(s, Brace(s) + 1, 0).place);
    }
  }

  predicate SameAs(q: Text, d: nat) {
    Tidy(Tail(q)) && Depth(Tail(q), 0) == d
  }

  lemma TailStep(s: Text)
    requires Brace(s) < |s| && Tidy(Tail(s))
    ensures Tidy(s[Brace(s) + 1..]) && Depth(Tail(s), 0) == Depth(s[Brace(s) + 1..], 1) && LBRC !in s[..Brace(s)]
  {
    TidyStep(s, Brace(s), 0);
  }

  lemma AroundDepth(s: Text, b: nat, pe: nat)
    requires b < |s| && LBRC !in s[..b] && Tidy(s[b + 1..]) && Partner(s, b + 1, 0) == Found(pe) && Tidy(s[pe + 1..])
    ensures var w, d := Around(s, b, pe, Parts(s, b + 1, 0, b + 1)), Depth(s[pe + 1..], 0);
      forall q :: q in w ==> SameAs(q, d)
  {
    hide Parts; hide Around; hide Tidy; hide Depth; hide Tail; hide Partner; hide Close;
    var parts := Parts(s, b + 1, 0, b + 1);
    TidyNone(s[b + 1..b + 1], 0);
    PartsClosed(s, b + 1, 0, b + 1);
    var w, d := Around(s, b, pe, parts), Depth(s[pe + 1..], 0);
    forall q | q in w ensures SameAs(q, d) {
      var h := AroundIndex(s, b, pe, parts, q);
      assert parts[h] in parts;
      TidyConcat(parts[h], s[pe + 1..], 0);
      TailConcat(s[..b], parts[h] + s[pe + 1..]);
      assert s[..b] + parts[h] + s[pe + 1..] == s[..b] + (parts[h] + s[pe + 1..]);
    }
  }

  // What the number of braces left open says of a word or a list.
  predicate Comes(r: Split, d: nat) {
    match r
    case Words(_) => d == 0
    case Undefined => d == 1
    case Fails(c) => c == LBRC && d >= 2
  }

  // A word whose brackets are closed behind its first brace, and hold no
  // brace, expands exactly if every brace is closed. Where one brace stays open
  // the scan does not notice; where two do, a brace is reported missing.
  lemma {:induction false} ExpandIff(s: Text)
    requires Tidy(Tail(s))
    ensures Comes(Expand(s), Depth(Tail(s), 0))
    decreases Braces(s)
  {
    hide Tidy; hide Depth; hide Globbrace;
    if Brace(s) == |s| {
      TidyNone(Tail(s), 0);
    } else {
      SameDepth(s);
      if Globbrace(s).Words? {
        FewerWords(s);
        ExpandAllIff(Globbrace(s).words, Braces(s), Depth(Tail(s), 0));
      }
    }
  }

  lemma FewerWords(s: Text)
    requires Brace(s) < |s| && Globbrace(s).Words?
    ensures Globbrace(s).words != [] && forall q :: q in Globbrace(s).words ==> Braces(q) < Braces(s)
  {
  }

  lemma {:induction false} ExpandAllIff(w: seq<Text>, n: nat, d: nat)
    requires w != [] && forall q :: q in w ==> Braces(q) < n && SameAs(q, d)
    ensures Comes(ExpandAll(w, n), d)
    decreases n, |w|
  {
    hide Tidy; hide Depth; hide Tail;
    assert w[0] in w;
    ExpandIff(w[0]);
    if |w| > 1 {
      ExpandAllIff(w[1..], n, d);
    } else {
      assert w[1..] == [];
    }
  }

  // For a word without a brace in its brackets, all of which are closed, that
  // is a matter of the whole word; in particular for one without brackets.
  lemma TidyExpandIff(s: Text)
    requires Tidy(s)
    ensures Comes(Expand(s), Depth(s, 0))
  {
    TidyTail(s);
    ExpandIff(s);
  }

  lemma {:induction false} NoBracket(s: Text)
    requires LBRK !in s
    ensures Tidy(s)
  {
    if s != [] {
      assert s[0] in s;
      NoBracket(s[1..]);
    }
  }

  // A first brace in brackets opens, though they are closed: the word expands
  // exactly if what stands behind the brackets closes one brace too many.
  lemma BraceInBrackets(a: Text, x: Text, y: Text, z: Text)
    requires LBRC !in a + [LBRK] + x && LBRC !in y && RBRC !in y && LBRK !in y && Tidy(z)
    ensures Comes(Expand(a + [LBRK] + x + ([LBRC] + y + [RBRK] + z)), Depth(z, 1))
  {
    hide Tidy; hide Depth; hide Expand; hide Brace;
    var p, t := a + [LBRK] + x, [LBRC] + y + [RBRK] + z;
    BraceConcat(p, t);
    assert (p + t)[|p|..] == t;
    NoBracket(y);
    PlainDepth(y, 1);
    TidyOne(LBRC, 0);
    TidyOne(RBRK, 1);
    assert t == [LBRC] + (y + ([RBRK] + z));
    TidyConcat([LBRC], y + ([RBRK] + z), 0);
    TidyConcat(y, [RBRK] + z, 1);
    TidyConcat([RBRK], z, 1);
    BraceFirst(t);
    ExpandIff(p + t);
  }

  lemma BraceFirst(t: Text)
    requires t != [] && t[0] == LBRC
    ensures Brace(t) == 0
  {
  }

  lemma {:induction false} PlainDepth(s: Text, d: nat)
    requires LBRC !in s && RBRC !in s && LBRK !in s
    ensures Depth(s, d) == d
  {
    if s != [] {
      assert s[0] in s;
      PlainDepth(s[1..], d);
    }
  }

  // The stretch s has only closed brackets, without a closing brace in them,
  // and its braces outside brackets lead from depth d to depth e, never below 0.
  predicate Steps(s: Text, d: nat, e: nat) {
    if s == [] then d == e
    else if s[0] == LBRK then
      Close(s, 1) < |s| && RBRC !in s[1..Close(s, 1)] && Steps(s[Close(s, 1) + 1..], d, e)
    else if s[0] == LBRC then Steps(s[1..], d + 1, e)
    else if s[0] == RBRC then d > 0 && Steps(s[1..], d - 1, e)
    else Steps(s[1..], d, e)
  }

  lemma {:induction false} StepsConcat(a: Text, c: Text, d: nat, e: nat, f: nat)
    requires Steps(a, d, e)
    ensures Steps(a + c, d, f) <==> Steps(c, e, f)
    ensures Tidy(a + c) <==> Tidy(a) && Tidy(c)
    decreases |a|
  {
    if a == [] {
      assert a + c == c;
    } else if a[0] == LBRK {
      CloseConcat(a, c, 1);
      var k := Close(a, 1);
      assert (a + c)[1..k] == a[1..k] && (a + c)[k + 1..] == a[k + 1..] + c;
      StepsConcat(a[k + 1..], c, d, e, f);
    } else {
      assert (a + c)[1..] == a[1..] + c;
      StepsConcat(a[1..], c, Step(a[0], d), e, f);
    }
  }

  lemma StepsNone(s: Text, d: nat)
    requires s == []
    ensures Steps(s, d, d) && Tidy(s)
  {
  }

  lemma StepsOne(s: Text, i: nat, d: nat, f: nat)
    requires i < |s| && Steps(s[i..], d, f)
    ensures s[i] == LBRK ==> var k := Close(s, i + 1); k < |s| && Steps(s[k + 1..], d, f) && RBRC !in s[i + 1..k]
    ensures s[i] != LBRK ==> Steps(s[i + 1..], Step(s[i], d), f)
    ensures s[i] == RBRC ==> d > 0
  {
    hide Close;
    assert s[i..][1..] == s[i + 1..];
    if s[i] == LBRK {
      StepsBracket(s, i, s[i..], d, f);
    }
  }

  lemma StepsBracket(s: Text, i: nat, t: Text, d: nat, f: nat)
    requires i < |s| && t == s[i..] && Steps(t, d, f) && t[0] == LBRK
    ensures var k := Close(s, i + 1); k < |s| && Steps(s[k + 1..], d, f) && RBRC !in s[i + 1..k]
  {
    hide Close; hide Step;
    CloseTail(s, i, i + 1);
    Shifted(s, i, Close(t, 1));
  }

  lemma Shifted(s: Text, i: nat, k: nat)
    requires 1 <= k && i + k < |s|
    ensures s[i..][k + 1..] == s[i + k + 1..] && s[i..][1..k] == s[i + 1..i + k]
  {
  }

  lemma StepsClass(s: Text, i: nat, d: nat)
    requires i < |s| && s[i] == LBRK && Close(s, i + 1) < |s| && RBRC !in s[i + 1..Close(s, i + 1)]
    ensures Steps(s[i..Close(s, i + 1) + 1], d, d)
  {
    hide Close;
    var k := Close(s, i + 1);
    CloseIn(s, i, i + 1, k);
    Bracketed(s, i, k);
    StepsNone(s[k + 1..k + 1], d);
  }

  // A pair of brackets, taken out of a word.
  lemma Bracketed(s: Text, i: nat, k: nat)
    requires i < k < |s|
    ensures var c := s[i..k + 1]; c[0] == s[i] && c[1..k - i] == s[i + 1..k] && c[k - i + 1..] == s[k + 1..k + 1]
  {
    Slices(s, i, k + 1, 1, k - i);
    Slices(s, i, k + 1, k - i + 1, k - i + 1);
  }

  lemma NotInside(s: Text, c: Char, i: nat, p: nat, q: nat, j: nat)
    requires i <= p <= q <= j <= |s| && c !in s[i..j]
    ensures c !in s[p..q]
  {
    Slices(s, i, j, p - i, q - i);
  }

  // A brace that such a stretch closes is found.
  lemma {:induction false} PartnerFound(s: Text, i: nat, d: nat)
    requires i <= |s| && Steps(s[i..], d + 1, 0)
    ensures Partner(s, i, d).Found? && Steps(s[Partner(s, i, d).place + 1..], 0, 0)
    decreases |s| - i
  {
    hide Steps; hide Close;
    if i == |s| {
      assert s[i..] == [];
      NoSteps(d + 1);
    } else {
      StepsOne(s, i, d + 1, 0);
      if s[i] == LBRK {
        PartnerFound(s, Close(s, i + 1) + 1, d);
      } else if s[i] == LBRC {
        PartnerFound(s, i + 1, d + 1);
      } else if s[i] == RBRC {
        if d > 0 {
          PartnerFound(s, i + 1, d - 1);
        }
      } else {
        PartnerFound(s, i + 1, d);
      }
    }
  }

  lemma NoSteps(d: nat)
    ensures Steps([], d, 0) <==> d == 0
  {
  }

  // One that is open beside it is not: e are open when the stretch starts.
  lemma {:induction false} PartnerLost(s: Text, i: nat, e: nat, f: nat)
    requires i <= |s| && Steps(s[i..], f, 0)
    ensures !Partner(s, i, e + f).Found?
    decreases |s| - i
  {
    hide Steps; hide Close;
    if i < |s| {
      StepsOne(s, i, f, 0);
      if s[i] == LBRK {
        PartnerLost(s, Close(s, i + 1) + 1, e, f);
      } else {
        PartnerLost(s, i + 1, e, Step(s[i], f));
      }
    }
  }

  // In brackets without a closing brace, the scan comes to their end.
  lemma {:induction false} PartnerIn(s: Text, i: nat, k: nat, d: nat) returns (e: nat)
    requires i <= k < |s| && s[k] == RBRK && Close(s, i) == k && RBRC !in s[i..k]
    ensures Partner(s, i, d) == Partner(s, k + 1, e)
    decreases k - i
  {
    if i == k {
      return d;
    }
    assert s[i] in s[i..k];
    NotInside(s, RBRC, i, i + 1, k, k);
    if s[i] == LBRK {
      return d;
    }
    e := PartnerIn(s, i + 1, k, if s[i] == LBRC then d + 1 else d);
  }

  // The parts of a tidy stretch are tidy, and only of one.
  lemma {:induction false} PartsSteps(s: Text, i: nat, d: nat, pl: nat)
    requires pl <= i <= |s| && Partner(s, i, d).Found? && Steps(s[pl..i], 0, d) && Steps(s[i..], d + 1, 0)
    ensures forall q :: q in Parts(s, i, d, pl) ==> Steps(q, 0, 0)
    ensures (forall q :: q in Parts(s, i, d, pl) ==> Tidy(q)) ==>
      Tidy(s[pl..i]) && Tidy(s[i..Partner(s, i, d).place])
    decreases |s| - i
  {
    hide Steps; hide Close; hide Tidy;
    var pe := Partner(s, i, d).place;
    StepsOne(s, i, d + 1, 0);
    if s[i] == LBRK {
      var k := Close(s, i + 1);
      StepsClass(s, i, d);
      StepsOver(s, pl, i, k + 1, pe, d, d);
      PartsSteps(s, k + 1, d, pl);
    } else if s[i] == RBRC && d == 0 {
      assert s[i..pe] == [];
      StepsNone(s[i..pe], 0);
      assert s[pl..i] in Parts(s, i, d, pl);
    } else {
      assert s[i..i + 1] == [s[i]];
      OneDown(s[i], d);
      TidyOne(s[i], d);
      if s[i] == COMMA && d == 0 {
        StepsNone(s[i + 1..i + 1], 0);
        StepsNone(s[i..i], 0);
        PartsSteps(s, i + 1, 0, i + 1);
        StepsOver(s, i, i, i + 1, pe, 0, 0);
        assert s[pl..i] in Parts(s, i, d, pl);
        assert forall q :: q in Parts(s, i + 1, 0, i + 1) ==> q in Parts(s, i, d, pl);
      } else {
        StepsOver(s, pl, i, i + 1, pe, d, Step(s[i], d));
        PartsSteps(s, i + 1, Step(s[i], d), pl);
      }
    }
  }

  // A step that is possible at depth d + 1, and does not close the last brace.
  lemma OneDown(c: Char, d: nat)
    requires c != LBRK && (c == RBRC ==> d > 0)
    ensures Step(c, d + 1) == Step(c, d) + 1 && Steps([c], d, Step(c, d))
  {
    assert [c][1..] == [];
  }

  lemma StepsOver(s: Text, pl: nat, i: nat, j: nat, pe: nat, d: nat, e: nat)
    requires pl <= i <= j <= pe <= |s| && Steps(s[pl..i], 0, d) && Steps(s[i..j], d, e)
    ensures Steps(s[pl..j], 0, e) && (Tidy(s[pl..j]) <==> Tidy(s[pl..i]) && Tidy(s[i..j]))
    ensures Tidy(s[i..pe]) <==> Tidy(s[i..j]) && Tidy(s[j..pe])
  {
    hide Steps; hide Tidy;
    assert s[pl..j] == s[pl..i] + s[i..j] && s[i..pe] == s[i..j] + s[j..pe];
    StepsConcat(s[pl..i], s[i..j], 0, d, e);
    StepsConcat(s[i..j], s[j..pe], d, e, 0);
  }

  // Where the first brace is in brackets it is never closed.
  lemma {:induction false} LostInBrackets(s: Text, i: nat)
    requires i <= Brace(s) < |s| && Steps(s[i..], 0, 0)
    ensures !Partner(s, Brace(s) + 1, 0).Found? ||
      (Tidy(s[i..Brace(s)]) && Steps(s[i..Brace(s)], 0, 0) && Steps(s[Brace(s) + 1..], 1, 0))
    decreases |s| - i
  {
    hide Steps; hide Tidy; hide Brace; hide Partner; hide Close;
    var b := Brace(s);
    StepsOne(s, i, 0, 0);
    if i == b {
      StepsNone(s[i..b], 0);
    } else if s[i] == LBRK {
      var k := Close(s, i + 1);
      if b < k {
        BracketRest(s, i, b, k);
      } else {
        CloseEnds(s, i + 1);
        StepsClass(s, i, 0);
        BareClass(s, i, k);
        LostInBrackets(s, k + 1);
        StepsBefore(s, i, k + 1, b);
      }
    } else {
      assert s[i..i + 1] == [s[i]];
      OneDown(s[i], 0);
      TidyOne(s[i], 0);
      LostInBrackets(s, i + 1);
      StepsBefore(s, i, i + 1, b);
    }
  }

  lemma StepsBefore(s: Text, i: nat, j: nat, b: nat)
    requires i <= j <= b <= |s| && Steps(s[i..j], 0, 0) && Tidy(s[i..j])
    ensures Steps(s[j..b], 0, 0) && Tidy(s[j..b]) ==> Steps(s[i..b], 0, 0) && Tidy(s[i..b])
  {
    hide Steps; hide Tidy;
    assert s[i..b] == s[i..j] + s[j..b];
    StepsConcat(s[i..j], s[j..b], 0, 0, 0);
  }

  lemma {:induction false} CloseSame(s: Text, i: nat, j: nat)
    requires i <= j <= Close(s, i)
    ensures Close(s, j) == Close(s, i)
    decreases j - i
  {
    if i < j {
      CloseSame(s, i + 1, j);
    }
  }

  lemma BracketRest(s: Text, i: nat, b: nat, k: nat)
    requires i < b < k < |s| && Close(s, i + 1) == k && RBRC !in s[i + 1..k] && s[b] == LBRC && Steps(s[k + 1..], 0, 0)
    ensures !Partner(s, b + 1, 0).Found?
  {
    hide Steps; hide Partner; hide Close;
    CloseSame(s, i + 1, b + 1);
    CloseEnds(s, i + 1);
    NotInside(s, RBRC, i + 1, b + 1, k, k);
    var e := PartnerIn(s, b + 1, k, 0);
    PartnerLost(s, k + 1, e, 0);
  }

  lemma CloseEnds(s: Text, i: nat)
    ensures i <= Close(s, i) < |s| ==> s[Close(s, i)] == RBRK
  {
  }

  lemma BareClass(s: Text, i: nat, k: nat)
    requires i < k < Brace(s) && s[i] == LBRK && Close(s, i + 1) == k
    ensures Tidy(s[i..k + 1])
  {
    hide Close;
    BraceFree(s);
    NotInside(s, LBRC, 0, i + 1, k, Brace(s));
    CloseIn(s, i, i + 1, k);
    Bracketed(s, i, k);
    hide Brace;
    TidyNone(s[k + 1..k + 1], 0);
  }

  lemma {:induction false} BraceFree(s: Text)
    ensures LBRC !in s[0..Brace(s)]
  {
    if s != [] && s[0] != LBRC {
      BraceFree(s[1..]);
      assert s[0..Brace(s)] == [s[0]] + s[1..][0..Brace(s[1..])];
    }
  }

  // What every word of the list has, where the word that it is made of has it:
  // braces that match outside brackets, and a brace in brackets somewhere.
  lemma WordSteps(s: Text, b: nat, pe: nat, part: Text)
    requires b < pe < |s| && Steps(s[..b], 0, 0) && Steps(part, 0, 0) && Steps(s[pe + 1..], 0, 0)
    ensures var q := s[..b] + part + s[pe + 1..];
      Steps(q, 0, 0) && (Tidy(q) <==> Tidy(s[..b]) && Tidy(part) && Tidy(s[pe + 1..]))
  {
    hide Steps; hide Tidy;
    StepsConcat(s[..b], part, 0, 0, 0);
    StepsConcat(s[..b] + part, s[pe + 1..], 0, 0, 0);
  }

  // The scan of a word whose braces match, when it finds a partner.
  lemma FirstBrace(s: Text)
    requires Steps(s, 0, 0) && Brace(s) < |s| && Partner(s, Brace(s) + 1, 0).Found?
    ensures var b := Brace(s); var pe := Partner(s, b + 1, 0).place;
      && Tidy(s[..b]) && Steps(s[..b], 0, 0) && Steps(s[pe + 1..], 0, 0)
      && (forall q :: q in Parts(s, b + 1, 0, b + 1) ==> Steps(q, 0, 0))
      && ((forall q :: q in Parts(s, b + 1, 0, b + 1) ==> Tidy(q)) && Tidy(s[pe + 1..]) ==> Tidy(s))
  {
    hide Steps; hide Tidy; hide Brace; hide Partner; hide Parts; hide Close;
    var b := Brace(s);
    var pe := Partner(s, b + 1, 0).place;
    assert s[0..] == s && s[0..b] == s[..b];
    LostInBrackets(s, 0);
    PartnerFound(s, b + 1, 0);
    StepsNone(s[b + 1..b + 1], 0);
    PartsSteps(s, b + 1, 0, b + 1);
    WholeTidy(s, b, pe);
  }

  lemma WholeTidy(s: Text, b: nat, pe: nat)
    requires b < pe < |s| && s[b] == LBRC && s[pe] == RBRC && Steps(s[..b], 0, 0) && Steps(s, 0, 0)
    requires Steps(s[b + 1..], 1, 0) && Steps(s[pe + 1..], 0, 0)
    ensures Tidy(s[..b]) && Tidy(s[b + 1..pe]) && Tidy(s[pe + 1..]) ==> Tidy(s)
  {
    hide Steps; hide Tidy;
    if Tidy(s[..b]) && Tidy(s[b + 1..pe]) && Tidy(s[pe + 1..]) {
      TidyOne(s[b], 0);
      TidyOne(s[pe], 0);
      TidyConcat(s[..b], [s[b]], 0);
      TidyConcat(s[..b] + [s[b]], s[b + 1..pe], 0);
      TidyConcat(s[..b] + [s[b]] + s[b + 1..pe], [s[pe]], 0);
      TidyConcat(s[..b] + [s[b]] + s[b + 1..pe] + [s[pe]], s[pe + 1..], 0);
      assert s == s[..b] + [s[b]] + s[b + 1..pe] + [s[pe]] + s[pe + 1..];
    }
  }

  // A word with closed brackets, without a closing brace in them, whose braces
  // outside brackets match expands exactly if no bracket holds an opening brace.
  lemma {:induction false} MatchedExpandIff(s: Text)
    requires Steps(s, 0, 0)
    ensures Expand(s).Words? <==> Tidy(s)
    decreases Braces(s)
  {
    hide Steps; hide Tidy; hide Globbrace; hide Around; hide Depth;
    if Tidy(s) {
      StepsDepth(s, 0, 0);
      TidyExpandIff(s);
    } else {
      BareTidy(s, 0);
      var q := Untidy(s);
      if Globbrace(s).Words? {
        FewerWords(s);
        MatchedExpandIff(q);
        SomeFails(Globbrace(s).words, Braces(s), q);
      }
    }
  }

  // A word in the list that does not expand keeps the list from expanding.
  lemma {:induction false} SomeFails(w: seq<Text>, n: nat, q: Text)
    requires q in w && !Expand(q).Words? && forall r :: r in w ==> Braces(r) < n
    ensures !ExpandAll(w, n).Words?
    decreases |w|
  {
    if w[0] != q {
      SomeFails(w[1..], n, q);
    }
  }

  // One of the words that are made of an untidy word is untidy.
  lemma Untidy(s: Text) returns (q: Text)
    requires Steps(s, 0, 0) && !Tidy(s) && Brace(s) < |s|
    ensures Globbrace(s).Words? ==> q in Globbrace(s).words && Steps(q, 0, 0) && !Tidy(q)
  {
    hide Steps; hide Tidy; hide Parts; hide Partner; hide Brace; hide Braces;
    q := [];
    if Globbrace(s).Words? {
      var b := Brace(s);
      var pe := Partner(s, b + 1, 0).place;
      var parts := Parts(s, b + 1, 0, b + 1);
      FirstBrace(s);
      var h := 0;
      if !Tidy(s[pe + 1..]) {
        assert parts[0] in parts;
      } else {
        var r :| r in parts && !Tidy(r);
        h :| 0 <= h < |parts| && parts[h] == r;
      }
      WordSteps(s, b, pe, parts[h]);
      q := Globbrace(s).words[h];
    }
  }

  lemma {:induction false} StepsDepth(s: Text, d: nat, e: nat)
    requires Steps(s, d, e)
    ensures Depth(s, d) == e
    decreases |s|
  {
    if s != [] {
      if s[0] == LBRK {
        StepsDepth(s[Close(s, 1) + 1..], d, e);
      } else {
        StepsDepth(s[1..], Step(s[0], d), e);
      }
    }
  }

  // Without an opening brace anywhere such a word is tidy.
  lemma {:induction false} BareTidy(s: Text, d: nat)
    requires Steps(s, d, 0)
    ensures LBRC !in s ==> Tidy(s)
    ensures LBRC !in s ==> Brace(s) == |s|
    ensures !Tidy(s) ==> Brace(s) < |s|
    decreases |s|
  {
    if s != [] && LBRC !in s {
      assert s[0] in s;
      if s[0] == LBRK {
        var k := Close(s, 1);
        assert forall c :: c in s[k + 1..] || c in s[1..k] ==> c in s;
        BareTidy(s[k + 1..], d);
      } else {
        assert forall c :: c in s[1..] ==> c in s;
        BareTidy(s[1..], Step(s[0], d));
      }
    }
    BraceIn(s);
  }

  lemma BraceIn(s: Text)
    ensures Brace(s) == |s| ==> LBRC !in s
  {
  }

  // -------------------------------------------------------------- the loops

  // the loop over what is in brackets, from behind the [
  method SkipClass(s: Text, i: nat) returns (j: nat)
    requires i <= |s|
    ensures j == Close(s, i)
  {
    j := i;
    while j < |s| && s[j] != RBRK
      invariant i <= j <= |s| && Close(s, j) == Close(s, i)
    {
      j := j + 1;
    }
  }

  // the first scan of globbrace
  method FindPartner(s: Text, p: nat) returns (m: Match)
    requires p <= |s|
    ensures m == Partner(s, p, 0)
  {
    var i, pe := 0, p;
    while pe < |s|
      invariant p <= pe <= |s| && i >= 0 && Partner(s, pe, i) == Partner(s, p, 0)
      decreases |s| - pe
    {
      if s[pe] == LBRK {
        pe := SkipClass(s, pe + 1);
        if pe == |s| {
          return Missing(LBRK);
        }
      } else if s[pe] == LBRC {
        i := i + 1;
      } else if s[pe] == RBRC {
        if i == 0 {
          return Found(pe);
        }
        i := i - 1;
      }
      pe := pe + 1;
    }
    return if i != 0 then Missing(LBRC) else Open;
  }

  // One step of the second scan.
  lemma PartsStep(s: Text, pm: nat, i: nat, pl: nat, pe: nat)
    requires pl <= pm && Partner(s, pm, i) == Found(pe)
    ensures pm <= pe < |s|
    ensures s[pm] == LBRK ==> Close(s, pm + 1) < pe && Partner(s, Close(s, pm + 1) + 1, i) == Found(pe)
    ensures s[pm] == LBRK ==> Parts(s, pm, i, pl) == Parts(s, Close(s, pm + 1) + 1, i, pl)
    ensures s[pm] == LBRC ==> Partner(s, pm + 1, i + 1) == Found(pe) && Parts(s, pm, i, pl) == Parts(s, pm + 1, i + 1, pl)
    ensures s[pm] == RBRC && i > 0 ==>
      Partner(s, pm + 1, i - 1) == Found(pe) && Parts(s, pm, i, pl) == Parts(s, pm + 1, i - 1, pl)
    ensures s[pm] == RBRC && i == 0 ==> pm == pe && Parts(s, pm, i, pl) == [s[pl..pm]]
    ensures s[pm] == COMMA && i == 0 ==>
      Partner(s, pm + 1, 0) == Found(pe) && Parts(s, pm, i, pl) == [s[pl..pm]] + Parts(s, pm + 1, 0, pm + 1)
    ensures s[pm] !in {LBRK, LBRC, RBRC} && (s[pm] != COMMA || i > 0) ==>
      Partner(s, pm + 1, i) == Found(pe) && Parts(s, pm, i, pl) == Parts(s, pm + 1, i, pl)
  {
  }

  lemma AroundMore(s: Text, b: nat, pe: nat, parts: seq<Text>, q: Text)
    requires b <= pe < |s|
    ensures Around(s, b, pe, parts + [q]) == Around(s, b, pe, parts) + [s[..b] + q + s[pe + 1..]]
  {
  }

  // the second scan of globbrace: the words around the parts
  method CutParts(s: Text, b: nat, pe: nat) returns (vl: seq<Text>)
    requires b < |s| && Partner(s, b + 1, 0) == Found(pe)
    ensures vl == Around(s, b, pe, Parts(s, b + 1, 0, b + 1))
  {
    hide Partner; hide Parts; hide Around;
    var i, pl, pm := 0, b + 1, b + 1;
    ghost var parts: seq<Text> := [];
    vl := [];
    AroundNone(s, b, pe);
    assert [] + Parts(s, b + 1, 0, b + 1) == Parts(s, b + 1, 0, b + 1);
    while pm <= pe
      invariant b + 1 <= pl <= pm <= pe + 1 && i >= 0 && vl == Around(s, b, pe, parts)
      invariant pm <= pe ==> Partner(s, pm, i) == Found(pe)
      invariant pm <= pe ==> Parts(s, b + 1, 0, b + 1) == parts + Parts(s, pm, i, pl)
      invariant pm > pe ==> Parts(s, b + 1, 0, b + 1) == parts
      decreases pe + 1 - pm
    {
      PartsStep(s, pm, i, pl, pe);
      if s[pm] == LBRK {
        pm := SkipClass(s, pm + 1);
      } else if s[pm] == LBRC {
        i := i + 1;
      } else if s[pm] == RBRC && i > 0 {
        i := i - 1;
      } else if s[pm] == RBRC || (s[pm] == COMMA && i == 0) {
        AroundMore(s, b, pe, parts, s[pl..pm]);
        vl := vl + [s[..b] + s[pl..pm] + s[pe + 1..]];
        if pm < pe {
          ghost var more := Parts(s, pm + 1, 0, pm + 1);
          assert parts + ([s[pl..pm]] + more) == (parts + [s[pl..pm]]) + more;
        }
        parts := parts + [s[pl..pm]];
        pl := pm + 1;
      }
      pm := pm + 1;
    }
  }

  lemma AroundNone(s: Text, b: nat, pe: nat)
    requires b <= pe < |s|
    ensures Around(s, b, pe, []) == []
  {
  }

  method GlobBrace(s: Text) returns (r: Split)
    requires Brace(s) < |s|
    ensures r == Globbrace(s)
  {
    var b := 0;
    while s[b] != LBRC
      invariant 0 <= b <= Brace(s)
      decreases |s| - b
    {
      b := b + 1;
    }
    var m := FindPartner(s, b + 1);
    match m
    case Missing(c) => r := Fails(c);
    case Open => r := Undefined;
    case Found(pe) =>
      var vl := CutParts(s, b, pe);
      r := Words(vl);
  }

  // ------------------------------------------------- the list, in its place

  function Join(a: Split, c: Split): Split {
    if !a.Words? then a else if !c.Words? then c else Words(a.words + c.words)
  }

  // The expansion of a list of words.
  function All(w: seq<Text>): Split {
    if w == [] then Words([]) else Join(Expand(w[0]), All(w[1..]))
  }

  lemma {:induction false} AllIs(w: seq<Text>, n: nat)
    requires forall q :: q in w ==> Braces(q) < n
    ensures ExpandAll(w, n) == All(w)
    decreases |w|
  {
    if w != [] {
      AllIs(w[1..], n);
    }
  }

  lemma {:induction false} AllConcat(a: seq<Text>, c: seq<Text>)
    ensures All(a + c) == Join(All(a), All(c))
    decreases |a|
  {
    if a == [] {
      assert a + c == c;
      assert All(c).Words? ==> [] + All(c).words == All(c).words;
    } else {
      assert (a + c)[1..] == a[1..] + c;
      AllConcat(a[1..], c);
      JoinAssociates(Expand(a[0]), All(a[1..]), All(c));
    }
  }

  lemma JoinAssociates(a: Split, b: Split, c: Split)
    ensures Join(Join(a, b), c) == Join(a, Join(b, c))
  {
    if a.Words? && b.Words? && c.Words? {
      assert (a.words + b.words) + c.words == a.words + (b.words + c.words);
    }
  }

  // How often the loop of globexpand comes round for a word and a list.
  function Rounds(s: Text): nat
    decreases Braces(s)
  {
    if Brace(s) == |s| || !Globbrace(s).Words? then 1 else 1 + RoundsAll(Globbrace(s).words, Braces(s))
  }

  function RoundsAll(w: seq<Text>, n: nat): nat
    requires forall q :: q in w ==> Braces(q) < n
    decreases n, |w|
  {
    if w == [] then 0 else Rounds(w[0]) + RoundsAll(w[1..], n)
  }

  function Cost(w: seq<Text>): nat {
    if w == [] then 0 else Rounds(w[0]) + Cost(w[1..])
  }

  lemma {:induction false} CostIs(w: seq<Text>, n: nat)
    requires forall q :: q in w ==> Braces(q) < n
    ensures RoundsAll(w, n) == Cost(w)
    decreases |w|
  {
    if w != [] {
      CostIs(w[1..], n);
    }
  }

  lemma {:induction false} CostConcat(a: seq<Text>, c: seq<Text>)
    ensures Cost(a + c) == Cost(a) + Cost(c)
    decreases |a|
  {
    if a == [] {
      assert a + c == c;
    } else {
      assert (a + c)[1..] == a[1..] + c;
      CostConcat(a[1..], c);
    }
  }

  // One round of the loop: the first word of w stays, or its words take its place.
  lemma Round(w: seq<Text>)
    requires w != []
    ensures Brace(w[0]) == |w[0]| ==> All(w) == Join(Words([w[0]]), All(w[1..])) && Cost(w) == 1 + Cost(w[1..])
    ensures Brace(w[0]) < |w[0]| && !Globbrace(w[0]).Words? ==> All(w) == Globbrace(w[0])
    ensures Brace(w[0]) < |w[0]| && Globbrace(w[0]).Words? ==>
      var bl := Globbrace(w[0]).words; All(w) == All(bl + w[1..]) && Cost(bl + w[1..]) < Cost(w)
  {
    hide Globbrace; hide Braces; hide Brace;
    if Brace(w[0]) < |w[0]| && Globbrace(w[0]).Words? {
      var bl := Globbrace(w[0]).words;
      AllIs(bl, Braces(w[0]));
      AllConcat(bl, w[1..]);
      CostIs(bl, Braces(w[0]));
      CostConcat(bl, w[1..]);
    }
  }

  // moves the end of the list from nv[first] on up by len
  method MoveUp(nv: array<Text>, el: nat, first: nat, len: nat)
    requires first <= el && el + len <= nv.Length
    modifies nv
    ensures nv[..first] == old(nv[..first]) && nv[first + len..el + len] == old(nv[first..el])
  {
    var bp := el;
    while bp > first
      invariant first <= bp <= el
      invariant forall j :: 0 <= j < bp ==> nv[j] == old(nv[j])
      invariant forall j :: bp + len <= j < el + len ==> nv[j] == old(nv[j - len])
    {
      bp := bp - 1;
      nv[bp + len] := nv[bp];
    }
  }

  method CopyIn(nv: array<Text>, vl: nat, bl: seq<Text>)
    requires vl + |bl| <= nv.Length
    modifies nv
    ensures nv[..vl] == old(nv[..vl]) && nv[vl..vl + |bl|] == bl && nv[vl + |bl|..] == old(nv[vl + |bl|..])
  {
    var h := 0;
    while h < |bl|
      invariant 0 <= h <= |bl|
      invariant forall j :: vl <= j < vl + h ==> nv[j] == bl[j - vl]
      invariant forall j :: 0 <= j < nv.Length && !(vl <= j < vl + h) ==> nv[j] == old(nv[j])
    {
      nv[vl + h] := bl[h];
      h := h + 1;
    }
  }

  // puts the words bl in the place of nv[vl]
  method Splice(nv: array<Text>, el: nat, vl: nat, bl: seq<Text>) returns (end: nat)
    requires vl < el && bl != [] && el + |bl| - 1 <= nv.Length
    modifies nv
    ensures end == el + |bl| - 1
    ensures nv[..vl] == old(nv[..vl]) && nv[vl..end] == bl + old(nv[vl..el][1..])
  {
    assert nv[vl..el][1..] == nv[vl + 1..el];
    ghost var front, back := nv[..vl], nv[vl + 1..el];
    var len := |bl| - 1;
    MoveUp(nv, el, vl + 1, len);
    assert nv[..vl + 1][..vl] == nv[..vl];
    end := el + len;
    assert nv[vl + |bl|..][..el - vl - 1] == back;
    CopyIn(nv, vl, bl);
    assert nv[vl + |bl|..][..el - vl - 1] == nv[vl + |bl|..end];
    assert nv[vl..end] == nv[vl..vl + |bl|] + nv[vl + |bl|..end];
  }

  // the brace step of globexpand
  method Globexpand(v: seq<Text>) returns (r: Split)
    ensures r == All(v)
  {
    hide All; hide Cost; hide Join; hide Globbrace; hide Brace; hide Braces;
    var nv := new Text[|v| + 1](i => if 0 <= i < |v| then v[i] else []);
    var el, vl := |v|, 0;
    assert nv[..el] == v && nv[..0] == [] && nv[0..el] == v;
    Prepended([], All(v));
    while vl < el
      invariant 0 <= vl <= el < nv.Length && fresh(nv)
      invariant Join(Words(nv[..vl]), All(nv[vl..el])) == All(v)
      decreases Cost(nv[vl..el])
    {
      ghost var front, w := nv[..vl], nv[vl..el];
      Round(w);
      var s := nv[vl];
      if HasBrace(s) {
        var g := GlobBrace(s);
        if !g.Words? {
          JoinFails(front, g);
          return g;
        }
        if el + |g.words| >= nv.Length {
          nv := Grow(nv, el, vl, el + |g.words| + 1);
        }
        el := Splice(nv, el, vl, g.words);
      } else {
        assert nv[..vl + 1] == front + [s] && nv[vl + 1..el] == w[1..];
        Prepends(front, s, All(w[1..]));
        vl := vl + 1;
      }
    }
    assert nv[vl..el] == [];
    JoinEnd(nv[..el]);
    r := Words(nv[..el]);
  }

  predicate HasBrace(s: Text)
    ensures HasBrace(s) <==> Brace(s) < |s|
  {
    Brace(s) < |s|
  }

  lemma JoinFails(a: seq<Text>, g: Split)
    requires !g.Words?
    ensures Join(Words(a), g) == g
  {
  }

  lemma JoinEnd(a: seq<Text>)
    ensures Join(Words(a), All([])) == Words(a)
  {
    assert a + [] == a;
  }

  lemma Prepended(a: seq<Text>, r: Split)
    ensures a == [] ==> Join(Words(a), r) == r
  {
    if r.Words? {
      assert [] + r.words == r.words;
    }
  }

  lemma Prepends(a: seq<Text>, s: Text, r: Split)
    ensures Join(Words(a), Join(Words([s]), r)) == Join(Words(a + [s]), r)
  {
    JoinAssociates(Words(a), Words([s]), r);
  }

  // xrealloc: a longer vector with the same list
  method Grow(nv: array<Text>, el: nat, ghost vl: nat, size: nat) returns (r: array<Text>)
    requires vl <= el < nv.Length <= size
    ensures fresh(r) && r.Length == size && r[..vl] == nv[..vl] && r[vl..el] == nv[vl..el]
  {
    r := new Text[size](i => []);
    var i := 0;
    while i < el
      invariant 0 <= i <= el && r[..i] == nv[..i]
      invariant fresh(r)
    {
      r[i] := nv[i];
      i := i + 1;
    }
    assert r[..el][..vl] == r[..vl] && r[..el][vl..] == r[vl..el];
  }
}
