// The words that padd prints for a command tree, and that parsing them gives
// the tree back.
module CshPrint {
  import opened Basics
  import opened CshSyntax
  import opened CshParse

  function PrintIo(io: Io): seq<Word> {
    (if io.lef.Some? then [if READ in io.flags then "<<" else "<", io.lef.value] else []) +
    (if io.rit.Some? then
       [if APPEND in io.flags then ">>" else ">"] + (if STDERR in io.flags then ["&"] else []) + [io.rit.value]
     else [])
  }

  function Print(t: Tree): seq<Word> {
    match t
    case Null => []
    case Command(words, io) => words + PrintIo(io)
    case Paren(sub, io) => ["("] + Print(sub) + [")"] + PrintIo(io)
    case Pipe(car, cdr, _) => Print(car) + ["|"] + Print(cdr)
    case List(car, cdr) => Print(car) + [";"] + Print(cdr)
    case Or(car, cdr, _) => Print(car) + ["||"] + Print(cdr)
    case And(car, cdr, _) => Print(car) + ["&&"] + Print(cdr)
  }

  // ------------------------------------------------------- faithful trees

  // A word without a meaning of its own.
  predicate Plain(w: Word) {
    First(w) !in {'(', ')', '<', '>', '|', '&', ';', '\n'}
  }

  // The words of a command: plain at depth 0 but for the parentheses that a
  // builtin takes as words.
  predicate Good(s: seq<Word>, l: int, specp: bool) {
    s != [] ==>
      && (l == 0 ==> Plain(s[0]) || (specp && First(s[0]) == '('))
      && Good(s[1..], l + Delta(s[0]), specp)
  }

  // Redirections that the context allows and that padd prints in full.
  predicate IoOk(io: Io, cx: Context, last: bool) {
    && io.flags <= {READ, APPEND, STDERR, NOFORK}
    && (NOFORK in io.flags <==> last)
    && (READ in io.flags ==> io.lef.Some? && !cx.here)
    && (APPEND in io.flags || STDERR in io.flags ==> io.rit.Some?)
    && (io.lef.Some? ==> Plain(io.lef.value) && !cx.pin)
    && (io.rit.Some? ==> Plain(io.rit.value) && io.rit.value != "!" && (cx.pout ==> cx.pdiag))
    && (STDERR in io.flags ==> !cx.pout && !cx.pdiag)
  }

  function Level(t: Tree): int {
    match t
    case Null => -1
    case Command(_, _) => 0
    case Paren(_, _) => 0
    case Pipe(_, _, _) => 1
    case And(_, _, _) => 2
    case Or(_, _, _) => 3
    case List(_, _) => 4
  }

  function OpLevel(op: Op): int {
    match op
    case BAR => 1
    case AND => 2
    case OR => 3
    case SEMI => 4
  }

  // The trees the parser builds, right-nested, without a background command,
  // a null side, |& or >!; `last` for a tree in front of a closing parenthesis.
  predicate Faithful(t: Tree, cx: Context, last: bool) {
    match t
    case Null => false
    case Command(words, io) =>
      words != [] && Nested(words, 0) && Good(words, 0, Special(words)) && IoOk(io, cx, last)
    case Paren(sub, io) => Faithful(sub, Context(true, false, false, false), true) && IoOk(io, cx, last)
    case Pipe(car, cdr, flags) =>
      && flags == {} && Level(car) == 0 && Level(cdr) <= 1
      && Faithful(car, cx.(pout := true), false) && Faithful(cdr, cx.(pin := true), last)
    case And(car, cdr, flags) =>
      && flags == {} && Level(car) <= 1 && Level(cdr) <= 2
      && Faithful(car, cx, false) && Faithful(cdr, cx, last)
    case Or(car, cdr, flags) =>
      && flags == {} && Level(car) <= 2 && Level(cdr) <= 3
      && Faithful(car, cx, false) && Faithful(cdr, cx, last)
    case List(car, cdr) =>
      Level(car) <= 3 && Faithful(car, cx, false) && Faithful(cdr, cx, last)
  }

  predicate Files(io: Io) {
    (io.lef.Some? ==> Plain(io.lef.value)) && (io.rit.Some? ==> Plain(io.rit.value))
  }

  // The trees that the parser builds, with whatever padd does not print: a
  // list may lack a side.
  predicate Shaped(t: Tree) {
    match t
    case Null => true
    case Command(words, io) => words != [] && Nested(words, 0) && Good(words, 0, Special(words)) && Files(io)
    case Paren(sub, io) => sub != Null && Shaped(sub) && Files(io)
    case Pipe(car, cdr, _) => Level(car) == 0 && 0 <= Level(cdr) <= 1 && Shaped(car) && Shaped(cdr)
    case And(car, cdr, flags) =>
      flags == {} && 0 <= Level(car) <= 1 && 0 <= Level(cdr) <= 2 && Shaped(car) && Shaped(cdr)
    case Or(car, cdr, flags) =>
      flags == {} && 0 <= Level(car) <= 2 && 0 <= Level(cdr) <= 3 && Shaped(car) && Shaped(cdr)
    case List(car, cdr) =>
      Level(car) <= 3 && (car == Null ==> 0 <= Level(cdr) <= 3) && Shaped(car) && Shaped(cdr)
  }

  lemma {:induction false} FaithfulShaped(t: Tree, cx: Context, last: bool)
    requires Faithful(t, cx, last)
    ensures Shaped(t) && Level(t) >= 0
  {
    match t
    case Command(_, _) =>
    case Paren(sub, _) => FaithfulShaped(sub, Context(true, false, false, false), true);
    case Pipe(car, cdr, _) =>
      FaithfulShaped(car, cx.(pout := true), false);
      FaithfulShaped(cdr, cx.(pin := true), last);
    case And(car, cdr, _) =>
      FaithfulShaped(car, cx, false);
      FaithfulShaped(cdr, cx, last);
    case Or(car, cdr, _) =>
      FaithfulShaped(car, cx, false);
      FaithfulShaped(cdr, cx, last);
    case List(car, cdr) =>
      FaithfulShaped(car, cx, false);
      FaithfulShaped(cdr, cx, last);
  }

  // --------------------------------------------- the shape of what is printed

  // Parentheses match, no & stands alone, and every operator is of level m at
  // the highest.
  predicate Tame(s: seq<Word>, m: int) {
    Nested(s, 0) && AmpFree(s, 0) && forall op: Op :: OpLevel(op) > m ==> Free(op, s, 0)
  }

  lemma TameConcat(a: seq<Word>, c: seq<Word>, m: int)
    requires Tame(a, m) && Tame(c, m)
    ensures Tame(a + c, m)
  {
    NestedRun(a, c, 0);
    FindAmpFree(a, c, 0);
    forall op: Op | OpLevel(op) > m ensures Free(op, a + c, 0) {
      FindFree(op, a, c, 0);
    }
  }

  lemma {:induction false} TameWords(s: seq<Word>, l: int, specp: bool)
    requires Good(s, l, specp) && Nested(s, l) && l >= 0
    ensures AmpFree(s, l) && forall op: Op :: Free(op, s, l)
    decreases |s|
  {
    if s != [] {
      TameWords(s[1..], l + Delta(s[0]), specp);
      if Swallows(s[0]) {
        // l > 0, so s goes on with the closing parenthesis at the least
        if s[1] == "&" {
          TameWords(s[2..], l, specp);
          assert s[1..][1..] == s[2..];
        }
      }
    }
  }

  // One plain word, or an operator of level m at the highest.
  lemma TameOne(w: Word, m: int)
    requires Plain(w) || (w in {"||", "&&", ";", "<", "<<"} && forall op: Op :: OpLevel(op) > m ==> !Is(op, w))
    ensures Tame([w], m)
  {
    assert [w][1..] == [];
  }

  lemma TameIo(io: Io)
    requires Files(io)
    ensures Tame(PrintIo(io), 0)
  {
    var a := if io.lef.Some? then [if READ in io.flags then "<<" else "<", io.lef.value] else [];
    assert Tame(a, 0) by {
      if io.lef.Some? {
        TameOne(a[0], 0);
        TameOne(a[1], 0);
        TameConcat([a[0]], [a[1]], 0);
        assert a == [a[0]] + [a[1]];
      }
    }
    if io.rit.Some? {
      var r := if APPEND in io.flags then ">>" else ">";
      var c := [r] + (if STDERR in io.flags then ["&"] else []) + [io.rit.value];
      TameRight(r, STDERR in io.flags, io.rit.value);
      TameConcat(a, c, 0);
      assert PrintIo(io) == a + c;
    } else {
      assert PrintIo(io) == a;
    }
  }

  lemma TameRight(r: Word, both: bool, f: Word)
    requires r == ">" || r == ">>"
    requires Plain(f)
    ensures Tame([r] + (if both then ["&"] else []) + [f], 0)
  {
    var c := [r] + (if both then ["&"] else []) + [f];
    TameOne(f, 0);
    if both {
      assert c[1..] == ["&", f] && c[2..] == [f] && c[1..][1..] == [f];
      assert Nested(["&", f], 0) && AmpFree([f], 0);
      assert forall op: Op :: Free(op, [f], 0);
      assert forall op: Op :: OpLevel(op) > 0 ==> Free(op, ["&", f], 0);
    } else {
      assert c[1..] == [f];
    }
  }

  // Parentheses around it make anything tame.
  lemma TameParen(s: seq<Word>, m: int)
    requires Tame(s, 4)
    ensures Tame(["("] + s + [")"], 0)
  {
    var p := ["("] + s + [")"];
    assert p[1..] == s + [")"];
    Inside(s, 1);
    NestedClose(s, 1);
    assert [")"][1..] == [];
    NestedRun(s, [")"], 1);
    FindAmpFree(s, [")"], 1);
    forall op: Op ensures Free(op, p, 0) {
      FindFree(op, s, [")"], 1);
      assert Free(op, [")"], 1);
    }
  }

  lemma {:induction false} NestedClose(s: seq<Word>, l: int)
    requires Nested(s, l - 1)
    ensures Nested(s + [")"], l)
  {
    if s == [] {
      assert s + [")"] == [")"] && [")"][1..] == [];
    } else {
      assert (s + [")"])[1..] == s[1..] + [")"];
      NestedClose(s[1..], l + Delta(s[0]));
    }
  }

  // What is nested at depth 0 has no operator at depth 0 inside parentheses.
  lemma {:induction false} Inside(s: seq<Word>, l: int)
    requires Nested(s, l - 1) && AmpFree(s, l - 1) && l >= 1
    ensures Run(s, l) == 1 && AmpFree(s, l) && forall op: Op :: Free(op, s, l)
    decreases |s|
  {
    if s != [] {
      if Swallows(s[0]) && s[1] == "&" {
        Inside(s[2..], l);
        assert s[1..][1..] == s[2..];
        assert forall op: Op :: Free(op, s[1..], l);
      } else {
        Inside(s[1..], l + Delta(s[0]));
      }
    }
  }

  // The tree does not start with a separator.
  predicate Leads(t: Tree) {
    t != Null && !(t.List? && t.car == Null)
  }

  lemma {:induction false} TameShaped(t: Tree)
    requires Shaped(t)
    ensures Tame(Print(t), Level(t))
    ensures Leads(t) ==> Print(t) != [] && First(Print(t)[0]) !in {';', '&', '\n'}
    decreases t
  {
    hide Tame; hide Nested; hide Files;
    match t
    case Null => TameNone(-1);
    case Command(words, io) =>
      TameCommand(words);
      TameIo(io);
      TameConcat(words, PrintIo(io), 0);
    case Paren(sub, io) =>
      TameShaped(sub);
      TameUp(Print(sub), Level(sub), 4);
      TameParen(Print(sub), 0);
      TameIo(io);
      TameConcat(["("] + Print(sub) + [")"], PrintIo(io), 0);
    case Pipe(car, cdr, _) =>
      TameShaped(car);
      TameShaped(cdr);
      TameBar(Print(car), Print(cdr), Level(car), Level(cdr));
    case And(car, cdr, _) =>
      TameShaped(car);
      TameShaped(cdr);
      TameOne("&&", 2);
      TameNode(Print(car), "&&", Print(cdr), Level(car), Level(cdr), 2);
    case Or(car, cdr, _) =>
      TameShaped(car);
      TameShaped(cdr);
      TameOne("||", 3);
      TameNode(Print(car), "||", Print(cdr), Level(car), Level(cdr), 3);
    case List(car, cdr) =>
      TameShaped(car);
      TameShaped(cdr);
      TameOne(";", 4);
      TameNode(Print(car), ";", Print(cdr), Level(car), Level(cdr), 4);
  }

  lemma TameNone(m: int)
    ensures Tame([], m)
  {
  }

  lemma TamePrint(t: Tree, cx: Context, last: bool)
    requires Faithful(t, cx, last)
    ensures Tame(Print(t), Level(t))
    ensures Print(t) != [] && First(Print(t)[0]) !in {';', '&', '\n'}
  {
    hide Tame;
    FaithfulShaped(t, cx, last);
    FaithfulLeads(t, cx, last);
    TameShaped(t);
  }

  lemma FaithfulLeads(t: Tree, cx: Context, last: bool)
    requires Faithful(t, cx, last)
    ensures Leads(t)
  {
  }

  lemma TameUp(s: seq<Word>, m: int, n: int)
    requires Tame(s, m) && m <= n
    ensures Tame(s, n)
  {
  }

  lemma TameCommand(words: seq<Word>)
    requires words != [] && Nested(words, 0) && Good(words, 0, Special(words))
    ensures Tame(words, 0) && First(words[0]) !in {';', '&', '\n'}
  {
    TameWords(words, 0, Special(words));
  }

  lemma TameNode(a: seq<Word>, w: Word, c: seq<Word>, m: int, n: int, k: int)
    requires Tame(a, m) && Tame([w], k) && Tame(c, n) && m <= k && n <= k
    ensures Tame(a + [w] + c, k)
  {
    hide Tame;
    TameUp(a, m, k);
    TameUp(c, n, k);
    TameConcat(a, [w], k);
    TameConcat(a + [w], c, k);
  }

  // A bar is not followed by an &.
  lemma TameBar(a: seq<Word>, c: seq<Word>, m: int, n: int)
    requires Tame(a, m) && Tame(c, n) && m <= 1 && n <= 1 && c != [] && First(c[0]) != '&'
    ensures Tame(a + ["|"] + c, 1)
  {
    var b := ["|"] + c;
    assert b[1..] == c && Tame(b, 1);
    TameConcat(a, b, 1);
    assert a + ["|"] + c == a + b;
  }

  // ----------------------------------------- what the scans of syn3 make of it

  // The scan keeps the words of a command.
  lemma {:induction false} ScanWords(a: seq<Word>, c: seq<Word>, i: nat, l: int, st: State, specp: bool, cx: Context)
    returns (r: State)
    requires i <= |a| && l >= 0 && Nested(a[i..], l) && Good(a[i..], l, specp) && (!specp ==> l == 0)
    ensures Scan(a + c, i, l, st, specp, cx) == Scan(a + c, |a|, 0, r, specp, cx)
    ensures r.words == st.words + a[i..] && r.io == st.io && (!specp ==> r.lp == st.lp)
    decreases |a| - i
  {
    if i == |a| {
      return st;
    }
    var w := a[i];
    assert (a + c)[i] == w && a[i..][0] == w && a[i..][1..] == a[i + 1..];
    var st1 := Push(if First(w) == '(' then Open(st, i, l) else if First(w) == ')' then Close(st, i, l) else st, w, true);
    r := ScanWords(a, c, i + 1, l + Delta(w), st1, specp, cx);
  }

  // The scan passes over what is in parentheses.
  lemma {:induction false} ScanInside(s: seq<Word>, i: nat, j: nat, l: int, st: State, cx: Context)
    requires i <= j <= |s| && l >= 1 && Nested(s[i..j], l - 1)
    ensures Scan(s, i, l, st, false, cx) == Scan(s, j, 1, st, false, cx)
    decreases j - i
  {
    if i < j {
      assert s[i..j][1..] == s[i + 1..j];
      ScanInside(s, i + 1, j, l + Delta(s[i]), st, cx);
    }
  }

  // The scan takes the redirections as they were.
  lemma ScanLeft(s: seq<Word>, k: nat, io: Io, st: State, specp: bool, cx: Context)
    requires k + 1 < |s| && s[k] == (if READ in io.flags then "<<" else "<") && io.lef == Some(s[k + 1])
    requires Plain(s[k + 1]) && !cx.pin && (READ in io.flags ==> !cx.here)
    requires st.io.lef == None && st.io.rit == None && st.io.flags <= {NOFORK}
    ensures var st1 := st.(io := Io(io.lef, None, if READ in io.flags then st.io.flags + {READ} else st.io.flags));
      Scan(s, k, 0, st, specp, cx) == Scan(s, k + 2, 0, st1, specp, cx)
  {
  }

  lemma ScanRight(s: seq<Word>, k: nat, io: Io, st: State, specp: bool, cx: Context)
    requires io.rit.Some? && Plain(io.rit.value) && io.rit.value != "!" && (cx.pout ==> cx.pdiag)
    requires STDERR in io.flags ==> !cx.pout && !cx.pdiag
    requires k < |s| && s[k..] == [if APPEND in io.flags then ">>" else ">"] +
      (if STDERR in io.flags then ["&"] else []) + [io.rit.value]
    requires st.io.rit == None && st.io.lef == io.lef && st.io.flags == io.flags - {APPEND, STDERR}
    ensures Scan(s, k, 0, st, specp, cx) == Ok(st.(io := io))
  {
    assert forall j :: 0 <= j < |s| - k ==> s[k + j] == s[k..][j];
    var m: nat := if STDERR in io.flags then k + 2 else k + 1;
    assert m + 1 == |s| && s[m] == io.rit.value;
    var f := if APPEND in io.flags then st.io.flags + {APPEND} else st.io.flags;
    var g := if STDERR in io.flags then f + {STDERR} else f;
    assert g == io.flags;
    assert k + 1 < |s| && (s[k + 1] == "&" <==> STDERR in io.flags);
    assert Redirect(s, k, st, cx) == Ok((st.(io := io), m));
    assert Scan(s, m + 1, 0, st.(io := io), specp, cx) == Ok(st.(io := io));
  }

  lemma ScanIo(s: seq<Word>, k: nat, io: Io, st: State, specp: bool, cx: Context, last: bool)
    requires k <= |s| && s[k..] == PrintIo(io) && IoOk(io, cx, last)
    requires st.io == Io(None, None, if last then {NOFORK} else {})
    ensures Scan(s, k, 0, st, specp, cx) == Ok(st.(io := io))
  {
    hide Scan;
    var f := if READ in io.flags then st.io.flags + {READ} else st.io.flags;
    assert f == io.flags - {APPEND, STDERR};
    assert forall j :: 0 <= j < |s| - k ==> s[k + j] == s[k..][j];
    if io.lef.Some? {
      ScanLeft(s, k, io, st, specp, cx);
      assert s[k + 2..] == s[k..][2..];
    }
    var n: nat, st1 := if io.lef.Some? then k + 2 else k, st.(io := Io(io.lef, None, f));
    assert io.lef == None ==> st1 == st;
    if io.rit.Some? {
      ScanRight(s, n, io, st1, specp, cx);
    } else {
      assert f == io.flags;
      ScanEnd(s, 0, st1, specp, cx);
    }
  }

  lemma {:induction false} SpecialIo(words: seq<Word>, io: Io)
    ensures Special(words + PrintIo(io)) == Special(words)
  {
    if words == [] {
      assert words + PrintIo(io) == PrintIo(io);
    } else {
      assert (words + PrintIo(io))[1..] == words[1..] + PrintIo(io);
      SpecialIo(words[1..], io);
    }
  }

  // ------------------------------------------------------------ round trip

  // At every level the parser gives back the tree whose words it is given.

  lemma CommandAgain(words: seq<Word>, io: Io, e: Word, cx: Context)
    requires Faithful(Command(words, io), cx, First(e) == ')')
    requires Nested(words + PrintIo(io), 0)
    ensures Syn3(words + PrintIo(io), e, cx) == Ok(Command(words, io))
  {
    hide Scan; hide Special; hide Nested; hide Good;
    var s, specp := words + PrintIo(io), Special(words);
    SpecialIo(words, io);
    assert words[0..] == words;
    var st := ScanWords(words, PrintIo(io), 0, 0, Start(e), specp, cx);
    assert s[|words|..] == PrintIo(io);
    ScanIo(s, |words|, io, st, specp, cx, First(e) == ')');
    assert Start(e).words == [] && st.words == words;
  }

  lemma ParenWords(inner: seq<Word>, tail: seq<Word>)
    ensures var s, k := ["("] + inner + [")"] + tail, |inner|;
      s[0] == "(" && s[1..1 + k] == inner && s[1 + k] == ")" && s[2 + k..] == tail
  {
  }

  lemma ParenAgain(sub: Tree, io: Io, e: Word, cx: Context)
    requires Faithful(Paren(sub, io), cx, First(e) == ')')
    requires Nested(Print(Paren(sub, io)), 0)
    requires Syn0(Print(sub), ")", Context(true, false, false, false)) == Ok(sub)
    ensures Syn3(Print(Paren(sub, io)), e, cx) == Ok(Paren(sub, io))
  {
    hide Scan; hide Nested; hide Syn0; hide Tame;
    var s, inner := Print(Paren(sub, io)), Print(sub);
    TamePrint(sub, Context(true, false, false, false), true);
    TameNested(inner, Level(sub));
    var k := |inner|;
    ParenWords(inner, PrintIo(io));
    var st0 := Start(e);
    var st1 := st0.(lp := Some(1));
    var st2 := st1.(rp := Some(1 + k));
    ScanStep(s, 0, 0, st0, false, cx);
    ScanInside(s, 1, 1 + k, 1, st1, cx);
    ScanStep(s, 1 + k, 1, st1, false, cx);
    ScanIo(s, 2 + k, io, st2, false, cx, First(e) == ')');
  }

  lemma TameNested(s: seq<Word>, m: int)
    requires Tame(s, m)
    ensures Nested(s, 0)
  {
  }

  // The first operator of a level between two parts is found.
  lemma Split(op: Op, a: seq<Word>, w: Word, c: seq<Word>, m: int)
    requires Tame(a, m) && OpLevel(op) > m && Is(op, w)
    ensures var s := a + [w] + c; var i := Find(op, s, 0);
      i == |a| < |s| && s[..i] == a && s[i] == w && s[i + 1..] == c
  {
    NestedRun(a, [], 0);
    assert a + [] == a;
    FindFree(op, a, [w] + c, 0);
    assert a + [w] + c == a + ([w] + c);
  }

  // No operator of a level above that of the tree is found.
  lemma NoSplit(op: Op, s: seq<Word>, m: int)
    requires Tame(s, m) && OpLevel(op) > m
    ensures Find(op, s, 0) == |s|
  {
    FindNested(op, s, 0);
  }

  lemma {:induction false} Again3(t: Tree, e: Word, cx: Context)
    requires Faithful(t, cx, First(e) == ')') && Level(t) == 0
    requires Nested(Print(t), 0)
    ensures Syn3(Print(t), e, cx) == Ok(t)
    decreases t, 1
  {
    hide Syn3; hide Nested;
    match t
    case Command(words, io) => CommandAgain(words, io, e, cx);
    case Paren(sub, io) =>
      Again0(sub, ")", Context(true, false, false, false));
      ParenAgain(sub, io, e, cx);
  }

  lemma {:induction false} Again2(t: Tree, e: Word, cx: Context)
    requires Faithful(t, cx, First(e) == ')') && Level(t) <= 1
    requires Nested(Print(t), 0)
    ensures Syn2(Print(t), e, cx) == Ok(t)
    decreases t, 2
  {
    hide Syn3; hide Nested; hide Tame; hide Find;
    TamePrint(t, cx, First(e) == ')');
    if t.Pipe? {
      var car, cdr := t.car, t.cdr;
      var cx1, cx2 := cx.(pout := true), cx.(pin := true);
      TamePrint(car, cx1, false);
      TamePrint(cdr, cx2, First(e) == ')');
      TameNested(Print(car), Level(car));
      TameNested(Print(cdr), Level(cdr));
      Split(BAR, Print(car), "|", Print(cdr), Level(car));
      Again3(car, "|", cx1);
      Again2(cdr, e, cx2);
    } else {
      NoSplit(BAR, Print(t), 0);
      Again3(t, e, cx);
    }
  }

  lemma {:induction false} Again1b(t: Tree, e: Word, cx: Context)
    requires Faithful(t, cx, First(e) == ')') && Level(t) <= 2
    requires Nested(Print(t), 0)
    ensures Syn1b(Print(t), e, cx) == Ok(t)
    decreases t, 3
  {
    hide Syn2; hide Nested; hide Tame; hide Find;
    TamePrint(t, cx, First(e) == ')');
    if t.And? {
      var car, cdr := t.car, t.cdr;
      TamePrint(car, cx, false);
      TamePrint(cdr, cx, First(e) == ')');
      TameNested(Print(car), Level(car));
      TameNested(Print(cdr), Level(cdr));
      Split(AND, Print(car), "&&", Print(cdr), Level(car));
      Again2(car, "&&", cx);
      Again1b(cdr, e, cx);
    } else {
      NoSplit(AND, Print(t), Level(t));
      Again2(t, e, cx);
    }
  }

  lemma {:induction false} Again1a(t: Tree, e: Word, cx: Context)
    requires Faithful(t, cx, First(e) == ')') && Level(t) <= 3
    requires Nested(Print(t), 0)
    ensures Syn1a(Print(t), e, cx) == Ok(t)
    decreases t, 4
  {
    hide Syn1b; hide Nested; hide Tame; hide Find;
    TamePrint(t, cx, First(e) == ')');
    if t.Or? {
      var car, cdr := t.car, t.cdr;
      TamePrint(car, cx, false);
      TamePrint(cdr, cx, First(e) == ')');
      TameNested(Print(car), Level(car));
      TameNested(Print(cdr), Level(cdr));
      Split(OR, Print(car), "||", Print(cdr), Level(car));
      Again1b(car, "||", cx);
      Again1a(cdr, e, cx);
    } else {
      NoSplit(OR, Print(t), Level(t));
      Again1b(t, e, cx);
    }
  }

  lemma {:induction false} Again1(t: Tree, e: Word, cx: Context)
    requires Faithful(t, cx, First(e) == ')')
    requires Nested(Print(t), 0)
    ensures Syn1(Print(t), e, cx) == Ok(t)
    decreases t, 5
  {
    hide Syn1a; hide Nested; hide Tame; hide Find; hide Syn0;
    TamePrint(t, cx, First(e) == ')');
    if t.List? {
      var car, cdr := t.car, t.cdr;
      TamePrint(car, cx, false);
      TamePrint(cdr, cx, First(e) == ')');
      TameNested(Print(car), Level(car));
      Split(SEMI, Print(car), ";", Print(cdr), Level(car));
      Again1a(car, ";", cx);
      Again0(cdr, e, cx);
      assert Print(cdr)[0..] == Print(cdr);
    } else {
      NoSplit(SEMI, Print(t), Level(t));
      Again1a(t, e, cx);
    }
  }

  lemma {:induction false} Again0(t: Tree, e: Word, cx: Context)
    requires Faithful(t, cx, First(e) == ')')
    ensures Syn0(Print(t), e, cx) == Ok(t)
    decreases t, 6
  {
    hide Syn1; hide FindAmp; hide Nested;
    TamePrint(t, cx, First(e) == ')');
    FindAmpFree(Print(t), [], 0);
    assert Print(t) + [] == Print(t);
    NestedRun(Print(t), [], 0);
    AmpEnd();
    Again1(t, e, cx);
  }

  lemma AmpEnd()
    ensures FindAmp([], 0) == Nowhere
  {
  }

  // Parsing the words that padd prints for a tree gives the tree back.
  lemma RoundTrip(t: Tree)
    requires Faithful(t, Context(false, false, false, false), false)
    ensures Syntax(Print(t), "", Context(false, false, false, false)) == Ok(t)
  {
    hide Syn0; hide Tame;
    TamePrint(t, Context(false, false, false, false), false);
    Again0(t, "", Context(false, false, false, false));
    assert Print(t)[0..] == Print(t);
  }

  // ---------------------------------------------------------- precedence

  predicate Simple(s: seq<Word>) {
    s != [] && Nested(s, 0) && Good(s, 0, Special(s))
  }

  function Cmd(s: seq<Word>): Tree {
    Command(s, Io(None, None, {}))
  }

  lemma PrintCmd(s: seq<Word>, cx: Context)
    requires Simple(s)
    ensures Print(Cmd(s)) == s && Faithful(Cmd(s), cx, false)
  {
    assert PrintIo(Io(None, None, {})) == [];
    assert s + [] == s;
  }

  // Two commands side by side.
  lemma PrintPair(a: seq<Word>, b: seq<Word>, cx: Context)
    requires Simple(a) && Simple(b) && cx == Context(false, false, false, false)
    ensures var t := Pipe(Cmd(a), Cmd(b), {}); Print(t) == a + ["|"] + b && Faithful(t, cx, false)
    ensures var t := And(Cmd(a), Cmd(b), {}); Print(t) == a + ["&&"] + b && Faithful(t, cx, false)
    ensures var t := Or(Cmd(a), Cmd(b), {}); Print(t) == a + ["||"] + b && Faithful(t, cx, false)
  {
    hide Simple; hide PrintIo; hide IoOk; hide Good;
    PrintCmd(a, cx);
    PrintCmd(b, cx);
    PrintCmd(a, cx.(pout := true));
    PrintCmd(b, cx.(pin := true));
  }

  // What a list of words stands for at the top.
  function Parsed(s: seq<Word>): Result<Tree, Error> {
    Syntax(s, "", Context(false, false, false, false))
  }

  // | binds tighter than &&, which binds tighter than ||, which binds tighter
  // than ;, on either side.
  lemma BindsTighter(a: seq<Word>, b: seq<Word>, c: seq<Word>)
    requires Simple(a) && Simple(b) && Simple(c)
    ensures Parsed(a + ["|"] + (b + ["&&"] + c)) == Ok(And(Pipe(Cmd(a), Cmd(b), {}), Cmd(c), {}))
    ensures Parsed(a + ["&&"] + (b + ["|"] + c)) == Ok(And(Cmd(a), Pipe(Cmd(b), Cmd(c), {}), {}))
    ensures Parsed(a + ["&&"] + (b + ["||"] + c)) == Ok(Or(And(Cmd(a), Cmd(b), {}), Cmd(c), {}))
    ensures Parsed(a + ["||"] + (b + ["&&"] + c)) == Ok(Or(Cmd(a), And(Cmd(b), Cmd(c), {}), {}))
    ensures Parsed(a + ["||"] + (b + [";"] + c)) == Ok(List(Or(Cmd(a), Cmd(b), {}), Cmd(c)))
    ensures Parsed(a + [";"] + (b + ["||"] + c)) == Ok(List(Cmd(a), Or(Cmd(b), Cmd(c), {})))
  {
    hide Syntax; hide Faithful; hide Simple;
    ThreeLeft(a, b, c);
    ThreeRight(a, b, c);
    forall o: Word, p: Word ensures a + [o] + (b + [p] + c) == (a + [o] + b) + [p] + c {
    }
  }

  lemma ThreeLeft(a: seq<Word>, b: seq<Word>, c: seq<Word>)
    requires Simple(a) && Simple(b) && Simple(c)
    ensures Parsed((a + ["|"] + b) + ["&&"] + c) == Ok(And(Pipe(Cmd(a), Cmd(b), {}), Cmd(c), {}))
    ensures Parsed((a + ["&&"] + b) + ["||"] + c) == Ok(Or(And(Cmd(a), Cmd(b), {}), Cmd(c), {}))
    ensures Parsed((a + ["||"] + b) + [";"] + c) == Ok(List(Or(Cmd(a), Cmd(b), {}), Cmd(c)))
  {
    hide Syntax; hide Simple;
    var cx := Context(false, false, false, false);
    PrintPair(a, b, cx);
    PrintCmd(c, cx);
    RoundTrip(And(Pipe(Cmd(a), Cmd(b), {}), Cmd(c), {}));
    RoundTrip(Or(And(Cmd(a), Cmd(b), {}), Cmd(c), {}));
    RoundTrip(List(Or(Cmd(a), Cmd(b), {}), Cmd(c)));
  }

  lemma ThreeRight(a: seq<Word>, b: seq<Word>, c: seq<Word>)
    requires Simple(a) && Simple(b) && Simple(c)
    ensures Parsed(a + ["&&"] + (b + ["|"] + c)) == Ok(And(Cmd(a), Pipe(Cmd(b), Cmd(c), {}), {}))
    ensures Parsed(a + ["||"] + (b + ["&&"] + c)) == Ok(Or(Cmd(a), And(Cmd(b), Cmd(c), {}), {}))
    ensures Parsed(a + [";"] + (b + ["||"] + c)) == Ok(List(Cmd(a), Or(Cmd(b), Cmd(c), {})))
  {
    hide Syntax; hide Simple;
    var cx := Context(false, false, false, false);
    PrintCmd(a, cx);
    PrintPair(b, c, cx);
    RoundTrip(And(Cmd(a), Pipe(Cmd(b), Cmd(c), {}), {}));
    RoundTrip(Or(Cmd(a), And(Cmd(b), Cmd(c), {}), {}));
    RoundTrip(List(Cmd(a), Or(Cmd(b), Cmd(c), {})));
  }
}
