// Expression trees: printed as words they evaluate to their value, with all
// words consumed.
module CshExprTree {
  import opened Basics
  import opened CshNumber
  import opened CshExpr

  datatype Tree = Num(n: int) | Not(e: Tree) | Compl(e: Tree) | Group(e: Tree) | Bin(op: Op, l: Tree, r: Tree)

  // The level at which the tree stands; a group stands at the highest.
  function Rank(t: Tree): nat {
    if t.Bin? then Level(t.op) else 10
  }

  // The lowest level of a right side: operators associate to the right, and
  // comparisons for equality do not associate.
  function RightLevel(op: Op): nat {
    if Level(op) == 5 then 6 else Level(op)
  }

  // A tree of numbers with groups where the levels ask for them; =~ and !~
  // take patterns and are no part of it.
  predicate Formed(t: Tree) {
    match t
    case Num(n) => InInt(n)
    case Not(e) => Formed(e) && Rank(e) == 10
    case Compl(e) => Formed(e) && Rank(e) == 10
    case Group(e) => Formed(e)
    case Bin(op, l, r) =>
      op != Match && op != NoMatch && Formed(l) && Formed(r) && Rank(l) > Level(op) && Rank(r) >= RightLevel(op)
  }

  function Show(t: Tree): (s: seq<Word>)
    requires Formed(t)
    ensures s != []
  {
    match t
    case Num(n) => [Putn(n)]
    case Not(e) => ["!"] + Show(e)
    case Compl(e) => ["~"] + Show(e)
    case Group(e) => ["("] + Show(e) + [")"]
    case Bin(op, l, r) => Show(l) + Tokens(op) + Show(r)
  }

  // The value of a tree in C: ints that wrap round, division towards zero, and
  // a right side that is not looked at where the left one decides.
  function Eval(t: Tree, env: Env): (r: Result<int, Error>)
    requires Formed(t)
    ensures r.Ok? ==> InInt(r.value)
  {
    match t
    case Num(n) => Ok(n)
    case Not(e) =>
      (match Eval(e, env) case Ok(n) => Ok(Truth(n == 0)) case Err(x) => Err(x))
    case Compl(e) =>
      (match Eval(e, env) case Ok(n) => Ok(-n - 1) case Err(x) => Err(x))
    case Group(e) => Eval(e, env)
    case Bin(op, l, r) =>
      match Eval(l, env)
      case Err(x) => Err(x)
      case Ok(a) =>
        if (op == OrOr && a != 0) || (op == AndAnd && a == 0) then Ok(Truth(op == OrOr)) else
        match Eval(r, env)
        case Err(x) => Err(x)
        case Ok(b) => ApplyInt(op, a, b, env); Apply(op, a, b, env)
  }

  lemma ApplyInt(op: Op, a: int, b: int, env: Env)
    requires InInt(a) && InInt(b)
    ensures Apply(op, a, b, env).Ok? ==> InInt(Apply(op, a, b, env).value)
  {
  }

  // A number as a pattern matches itself only.
  ghost predicate Globs(env: Env) {
    forall n :: InInt(n) ==> env.glob(Putn(n)) == Some(Putn(n))
  }

  // No function of level k or above goes on at v[j].
  predicate Stop(k: nat, v: seq<Word>, j: nat) {
    forall h: nat :: k <= h <= 9 ==> OpAt(h, v, j) == None
  }

  // Where a number stands for a value: as an int up to level 5, then as the
  // string that putn makes of it.
  function Value(k: nat, n: int): Val
    requires InInt(n)
  {
    if k <= 5 then I(n) else S(Putn(n))
  }

  // The result r of the function of level k is right for the tree, which ends
  // at j; of an ignored tree only the place matters, and that it is a number.
  predicate Gives(k: nat, r: Result<(Val, nat), Error>, j: nat, t: Tree, m: Mode, env: Env)
    requires Formed(t)
  {
    if m.ignore then
      && r.Ok? && r.value.1 == j && (r.value.0.I? <==> k <= 5)
      && (r.value.0.S? ==> Egetn(r.value.0.s).Ok?)
    else
      match Eval(t, env)
      case Ok(n) => r == Ok((Value(k, n), j))
      case Err(e) => r == Err(e)
  }

  // ------------------------------------------------------------ small facts

  lemma EgetnPutn(n: int)
    requires InInt(n)
    ensures Egetn(Putn(n)) == Ok(n)
  {
    GetnPutn(n);
  }

  lemma NumberWord(n: int)
    requires InInt(n)
    ensures Putn(n) !in {"!", "~", "(", "{"} && !AnyOp(Putn(n))
    ensures !(Char(Putn(n), 0) == '-' && Char(Putn(n), 1) in {'e', 'r', 'w', 'x', 'f', 'd', 'z', 'o', 'p', 'l', 's'})
  {
    var s := Digits(if n < 0 then -n else n);
    assert IsDigit(s[0]);
    assert Putn(n) == if n < 0 then "-" + s else s;
  }

  lemma PutnInjective(a: int, b: int)
    requires InInt(a) && InInt(b) && Putn(a) == Putn(b)
    ensures a == b
  {
    GetnPutn(a);
    GetnPutn(b);
  }

  // The first word of a tree is no operator that could lengthen another one.
  lemma {:induction false} FirstWord(t: Tree)
    requires Formed(t)
    ensures Show(t)[0] != "="
  {
    match t
    case Num(n) =>
      NumberWord(n);
      assert IsDigit(Digits(if n < 0 then -n else n)[0]);
    case Not(_) =>
    case Compl(_) =>
    case Group(_) =>
    case Bin(_, l, _) => FirstWord(l);
  }

  // Behind the left side stands its operator, and no function above stops it.
  lemma OperatorAt(op: Op, v: seq<Word>, j: nat)
    requires j + |Tokens(op)| < |v| && v[j..j + |Tokens(op)|] == Tokens(op) && v[j + |Tokens(op)|] != "="
    ensures OpAt(Level(op), v, j) == Some((op, |Tokens(op)|))
    ensures Stop(Level(op) + 1, v, j)
  {
    assert v[j] == v[j..j + |Tokens(op)|][0];
    assert |Tokens(op)| == 2 ==> v[j + 1] == v[j..j + |Tokens(op)|][1];
  }

  // What the sides give is combined to what the operator gives.
  lemma Combined(op: Op, a: int, b: int, env: Env)
    requires InInt(a) && InInt(b) && op != Match && op != NoMatch
    ensures var k := Level(op); var r := Combine(op, Value(if k <= 4 then k else 6, a), Value(if k <= 4 then k else 6, b), false, env);
      match Apply(op, a, b, env)
      case Ok(n) => InInt(n) && r == Ok(Value(k, n))
      case Err(e) => r == Err(e)
  {
    hide Putn; hide Egetn; hide Wrap; hide Apply;
    EgetnPutn(a);
    EgetnPutn(b);
    ApplyInt(op, a, b, env);
    if Apply(op, a, b, env).Ok? {
      WrapSame(Apply(op, a, b, env).value);
    }
    if Level(op) == 5 {
      Equality(op, a, b, env);
    }
  }

  lemma Equality(op: Op, a: int, b: int, env: Env)
    requires InInt(a) && InInt(b) && (op == Eq || op == Ne)
    ensures Apply(op, a, b, env) == Ok(Truth((Putn(a) == Putn(b)) == (op == Eq)))
  {
    hide Putn;
    if Putn(a) == Putn(b) {
      PutnInjective(a, b);
    }
  }

  lemma CombinedIgnored(op: Op, p1: Val, p2: Val, env: Env)
    requires (p1.I? <==> Level(op) <= 4) && (p2.I? <==> Level(op) <= 4)
    requires p1.S? ==> Egetn(p1.s).Ok?
    requires p2.S? ==> Egetn(p2.s).Ok?
    ensures var r := Combine(op, p1, p2, true, env);
      r.Ok? && (r.value.S? ==> Egetn(r.value.s).Ok?)
  {
    hide Putn; hide Egetn; hide Wrap; hide Bits; hide Quot; hide Rem;
    if Level(op) >= 6 {
      WrapSame(Code(op));
      EgetnPutn(Code(op));
      if op == Shl || op == Shr {
        var n := Apply(op, Egetn(p1.s).value, Egetn(p2.s).value, env).value;
        EgetnPutn(Wrap(n));
      }
    }
  }

  // ------------------------------------------------------------- the theorem

  lemma GivesLeaf(n: int, v: seq<Word>, i: nat, m: Mode, env: Env)
    requires InInt(n) && i < |v| && v[i] == Putn(n) && Globs(env)
    ensures Exp6(v, i, m, env) == Ok((S(Putn(n)), i + 1))
  {
    hide Putn; hide AnyOp;
    NumberWord(n);
  }

  // A tree that is followed by no operator of its level or above: the function
  // of level k stops behind it with its value.
  lemma {:induction false} Shown(k: nat, t: Tree, v: seq<Word>, i: nat, m: Mode, env: Env)
    requires Formed(t) && k <= Rank(t) && Globs(env)
    requires i + |Show(t)| <= |v| && v[i..i + |Show(t)|] == Show(t) && Stop(k, v, i + |Show(t)|)
    ensures Gives(k, Exp(k, v, i, m, env), i + |Show(t)|, t, m, env)
    decreases t, 12 - k
  {
    hide Globs; hide Stop; hide Exp6; hide Eval; hide Show;
    if k == 10 {
      Shown6(t, v, i, m, env);
    } else if k < Rank(t) {
      StopAbove(k, v, i + |Show(t)|);
      Shown(k + 1, t, v, i, m, env);
      Raised(k, t, v, i, m, env);
    } else {
      ShownBin(t, v, i, m, env);
    }
  }

  lemma StopAbove(k: nat, v: seq<Word>, j: nat)
    requires Stop(k, v, j) && k <= 9
    ensures Stop(k + 1, v, j) && OpAt(k, v, j) == None
  {
  }

  // A tree of a higher level passes through the functions below.
  lemma Raised(k: nat, t: Tree, v: seq<Word>, i: nat, m: Mode, env: Env)
    requires Formed(t) && k < 10 && i + |Show(t)| <= |v| && OpAt(k, v, i + |Show(t)|) == None
    requires Gives(k + 1, Exp(k + 1, v, i, m, env), i + |Show(t)|, t, m, env)
    ensures Gives(k, Exp(k, v, i, m, env), i + |Show(t)|, t, m, env)
  {
    hide Show; hide Eval; hide Egetn; hide Putn; hide OpAt; hide Exp6;
    var r := Exp(k + 1, v, i, m, env);
    if !m.ignore && Eval(t, env).Ok? {
      EgetnPutn(Eval(t, env).value);
    }
  }

  // The parts of what stands at v[i].
  lemma Part(v: seq<Word>, i: nat, a: seq<Word>, b: seq<Word>, c: seq<Word>)
    requires i + |a| + |b| + |c| <= |v| && v[i..i + |a| + |b| + |c|] == a + b + c
    ensures v[i..i + |a|] == a && v[i + |a|..i + |a| + |b|] == b
    ensures v[i + |a| + |b|..i + |a| + |b| + |c|] == c
    ensures c != [] ==> v[i + |a| + |b|] == c[0]
  {
    var s := v[i..i + |a| + |b| + |c|];
    assert forall h :: 0 <= h < |a| ==> v[i + h] == s[h] == a[h];
    assert forall h :: 0 <= h < |b| ==> v[i + |a| + h] == s[|a| + h] == b[h];
    assert forall h :: 0 <= h < |c| ==> v[i + |a| + |b| + h] == s[|a| + |b| + h] == c[h];
  }

  lemma ShowIs(t: Tree)
    requires Formed(t)
    ensures match t
      case Num(n) => Show(t) == [Putn(n)]
      case Not(e) => Show(t) == ["!"] + Show(e) + []
      case Compl(e) => Show(t) == ["~"] + Show(e) + []
      case Group(e) => Show(t) == ["("] + Show(e) + [")"]
      case Bin(op, l, r) => Show(t) == Show(l) + Tokens(op) + Show(r)
  {
  }

  lemma {:induction false} Shown6(t: Tree, v: seq<Word>, i: nat, m: Mode, env: Env)
    requires Formed(t) && Rank(t) == 10 && Globs(env)
    requires i + |Show(t)| <= |v| && v[i..i + |Show(t)|] == Show(t)
    ensures Gives(10, Exp6(v, i, m, env), i + |Show(t)|, t, m, env)
    decreases t, 1
  {
    hide Globs; hide Exp6; hide Exp; hide Gives; hide Eval; hide Putn; hide Show;
    match t
    case Num(n) =>
      ShowIs(t);
      assert v[i..i + |Show(t)|][0] == v[i];
      GivesLeaf(n, v, i, m, env);
      NumGives(n, v, i, m, env);
    case Not(e) =>
      ShownUnary(t, e, "!", v, i, m, env);
    case Compl(e) =>
      ShownUnary(t, e, "~", v, i, m, env);
    case Group(e) =>
      ShownGroup(e, v, i, m, env);
  }

  lemma {:induction false} ShownUnary(t: Tree, e: Tree, w: Word, v: seq<Word>, i: nat, m: Mode, env: Env)
    requires Formed(t) && (t == Not(e) || t == Compl(e)) && w == (if t.Not? then "!" else "~") && Globs(env)
    requires i + |Show(t)| <= |v| && v[i..i + |Show(t)|] == Show(t)
    ensures Gives(10, Exp6(v, i, m, env), i + |Show(t)|, t, m, env)
    decreases t, 0
  {
    hide Globs; hide Exp6; hide Exp; hide Gives; hide Eval; hide Show;
    ShowIs(t);
    Part(v, i, [w], Show(e), []);
    assert v[i..i + 1][0] == v[i];
    Shown6(e, v, i + 1, m, env);
    UnaryGives(t, e, v, i, m, env);
  }

  lemma {:induction false} ShownGroup(e: Tree, v: seq<Word>, i: nat, m: Mode, env: Env)
    requires Formed(e) && Globs(env)
    requires i + |Show(Group(e))| <= |v| && v[i..i + |Show(Group(e))|] == Show(Group(e))
    ensures Gives(10, Exp6(v, i, m, env), i + |Show(Group(e))|, Group(e), m, env)
    decreases Group(e), 0
  {
    hide Globs; hide Exp6; hide Exp; hide Stop; hide Gives; hide Eval; hide Show;
    ShowIs(Group(e));
    Part(v, i, ["("], Show(e), [")"]);
    assert v[i..i + 1][0] == v[i];
    ParenStops(v, i + 1 + |Show(e)|);
    Shown(0, e, v, i + 1, m, env);
    GroupGives(e, v, i, m, env);
  }

  lemma NumGives(n: int, v: seq<Word>, i: nat, m: Mode, env: Env)
    requires InInt(n) && i < |v| && Exp6(v, i, m, env) == Ok((S(Putn(n)), i + 1))
    ensures Gives(10, Exp6(v, i, m, env), i + |Show(Num(n))|, Num(n), m, env)
  {
    hide Exp6; hide Putn; hide Egetn;
    EgetnPutn(n);
  }

  lemma UnaryGives(t: Tree, e: Tree, v: seq<Word>, i: nat, m: Mode, env: Env)
    requires Formed(t) && (t == Not(e) || t == Compl(e))
    requires i + |Show(t)| <= |v| && v[i] == (if t.Not? then "!" else "~")
    requires Gives(10, Exp6(v, i + 1, m, env), i + 1 + |Show(e)|, e, m, env)
    ensures Gives(10, Exp6(v, i, m, env), i + |Show(t)|, t, m, env)
  {
    hide Putn; hide Egetn; hide Wrap; hide AnyOp; hide Leaf; hide Exp;
    var r := Exp6(v, i + 1, m, env);
    if m.ignore {
      var n := Egetn(r.value.0.s).value;
      EgetnPutn(Wrap(if t.Not? then Truth(n == 0) else -n - 1));
    } else if Eval(e, env).Ok? {
      var n := Eval(e, env).value;
      EgetnPutn(n);
      WrapSame(if t.Not? then Truth(n == 0) else -n - 1);
    }
  }

  lemma ParenStops(v: seq<Word>, j: nat)
    requires j < |v| && v[j] == ")"
    ensures Stop(0, v, j)
  {
  }

  lemma ExpGroup(v: seq<Word>, i: nat, m: Mode, env: Env)
    requires i < |v| && v[i] == "("
    ensures match Exp(0, v, i + 1, m, env)
      case Err(e) => Exp6(v, i, m, env) == Err(e)
      case Ok((p, j)) => j < |v| && v[j] == ")" ==> Exp6(v, i, m, env) == Ok((S(Putn(Wrap(p.n))), j + 1))
  {
    hide Putn; hide Egetn; hide Wrap; hide AnyOp; hide Leaf; hide Exp;
  }

  lemma GroupValue(e: Tree, j: nat, r0: Result<(Val, nat), Error>, m: Mode, env: Env)
    requires Formed(e) && Gives(0, r0, j, e, m, env)
    ensures Gives(10, if r0.Err? then r0 else Ok((S(Putn(Wrap(r0.value.0.n))), j + 1)), j + 1, Group(e), m, env)
  {
    hide Putn; hide Egetn; hide Wrap;
    if m.ignore {
      EgetnPutn(Wrap(r0.value.0.n));
    } else if Eval(e, env).Ok? {
      WrapSame(Eval(e, env).value);
    }
  }

  lemma GroupGives(e: Tree, v: seq<Word>, i: nat, m: Mode, env: Env)
    requires Formed(e) && i + 1 + |Show(e)| < |v| && v[i] == "(" && v[i + 1 + |Show(e)|] == ")"
    requires Gives(0, Exp(0, v, i + 1, m, env), i + 1 + |Show(e)|, e, m, env)
    ensures Gives(10, Exp6(v, i, m, env), i + |Show(Group(e))|, Group(e), m, env)
  {
    hide Exp; hide Exp6; hide Show; hide Eval; hide Gives;
    ShowIs(Group(e));
    ExpGroup(v, i, m, env);
    GivesPlace(0, Exp(0, v, i + 1, m, env), i + 1 + |Show(e)|, e, m, env);
    GroupValue(e, i + 1 + |Show(e)|, Exp(0, v, i + 1, m, env), m, env);
  }

  lemma GivesPlace(k: nat, r: Result<(Val, nat), Error>, j: nat, t: Tree, m: Mode, env: Env)
    requires Formed(t) && Gives(k, r, j, t, m, env)
    ensures r.Ok? ==> r.value.1 == j
  {
  }

  lemma StopRight(op: Op, v: seq<Word>, j: nat)
    requires Stop(Level(op), v, j)
    ensures Stop(RightLevel(op), v, j)
  {
    hide OpAt;
  }

  lemma BinRanks(op: Op, l: Tree, r: Tree)
    requires Formed(Bin(op, l, r))
    ensures Formed(l) && Formed(r) && Level(op) < Rank(l) && RightLevel(op) <= Rank(r)
    ensures Level(op) <= 9 && RightLevel(op) <= 10
  {
  }

  // The parts of a tree with an operator, and what follows them.
  lemma BinParts(op: Op, l: Tree, r: Tree, v: seq<Word>, i: nat)
    requires Formed(Bin(op, l, r)) && i + |Show(Bin(op, l, r))| <= |v|
    requires v[i..i + |Show(Bin(op, l, r))|] == Show(Bin(op, l, r)) && Stop(Level(op), v, i + |Show(Bin(op, l, r))|)
    ensures var j := i + |Show(l)|; var h := j + |Tokens(op)|;
      && h <= |v| && v[i..j] == Show(l) && OpAt(Level(op), v, j) == Some((op, |Tokens(op)|)) && Stop(Level(op) + 1, v, j)
      && h + |Show(r)| == i + |Show(Bin(op, l, r))| && v[h..h + |Show(r)|] == Show(r)
      && Stop(RightLevel(op), v, h + |Show(r)|)
  {
    hide OpAt; hide Tokens; hide Show; hide Stop; hide Level; hide RightLevel; hide Rank;
    ShowIs(Bin(op, l, r));
    StopRight(op, v, i + |Show(Bin(op, l, r))|);
    Part(v, i, Show(l), Tokens(op), Show(r));
    FirstWord(r);
    OperatorAt(op, v, i + |Show(l)|);
  }

  lemma {:induction false} ShownBin(t: Tree, v: seq<Word>, i: nat, m: Mode, env: Env)
    requires Formed(t) && t.Bin? && Globs(env)
    requires i + |Show(t)| <= |v| && v[i..i + |Show(t)|] == Show(t) && Stop(Level(t.op), v, i + |Show(t)|)
    ensures Gives(Level(t.op), Exp(Level(t.op), v, i, m, env), i + |Show(t)|, t, m, env)
    decreases t, 0
  {
    hide Globs; hide Exp; hide Gives; hide Eval; hide OpAt; hide Tokens; hide Show; hide Stop; hide Inner; hide Rank; hide Level; hide RightLevel;
    var op, l, r := t.op, t.l, t.r;
    BinRanks(op, l, r);
    BinParts(op, l, r, v, i);
    var h := i + |Show(l)| + |Tokens(op)|;
    Shown(Level(op) + 1, l, v, i, m, env);
    var p := Exp(Level(op) + 1, v, i, m, env);
    if p.Ok? {
      Shown(RightLevel(op), r, v, h, Inner(op, p.value.0, m), env);
    }
    BinGives(op, l, r, v, i, m, env);
  }

  // One step of the function of the level of op.
  lemma BinStep(op: Op, v: seq<Word>, i: nat, m: Mode, env: Env)
    requires i <= |v| && Exp(Level(op) + 1, v, i, m, env).Ok?
    requires OpAt(Level(op), v, Exp(Level(op) + 1, v, i, m, env).value.1) == Some((op, |Tokens(op)|))
    ensures var (p, j) := Exp(Level(op) + 1, v, i, m, env).value;
      var q := Exp(RightLevel(op), v, j + |Tokens(op)|, Inner(op, p, m), env);
      Exp(Level(op), v, i, m, env) ==
        if q.Err? then Err(q.error) else
        match Combine(op, p, q.value.0, m.ignore, env)
        case Err(e) => Err(e)
        case Ok(x) => Ok((x, q.value.1))
  {
    hide OpAt; hide Exp6; hide Combine; hide Inner; hide Tokens;
  }

  lemma ErrStep(op: Op, v: seq<Word>, i: nat, m: Mode, env: Env)
    requires i <= |v|
    ensures var p := Exp(Level(op) + 1, v, i, m, env); p.Err? ==> Exp(Level(op), v, i, m, env) == p
  {
    hide OpAt; hide Exp6; hide Combine; hide Inner;
  }

  lemma BinGives(op: Op, l: Tree, r: Tree, v: seq<Word>, i: nat, m: Mode, env: Env)
    requires Formed(Bin(op, l, r)) && i + |Show(Bin(op, l, r))| <= |v|
    requires OpAt(Level(op), v, i + |Show(l)|) == Some((op, |Tokens(op)|))
    requires Gives(Level(op) + 1, Exp(Level(op) + 1, v, i, m, env), i + |Show(l)|, l, m, env)
    requires var p := Exp(Level(op) + 1, v, i, m, env); p.Ok? ==>
      Gives(RightLevel(op), Exp(RightLevel(op), v, i + |Show(l)| + |Tokens(op)|, Inner(op, p.value.0, m), env),
        i + |Show(Bin(op, l, r))|, r, Inner(op, p.value.0, m), env)
    ensures Gives(Level(op), Exp(Level(op), v, i, m, env), i + |Show(Bin(op, l, r))|, Bin(op, l, r), m, env)
  {
    hide OpAt; hide Tokens; hide Exp; hide Combine; hide Show; hide Gives; hide Inner; hide Eval; hide Level; hide RightLevel;
    BinRanks(op, l, r);
    ErrStep(op, v, i, m, env);
    var p := Exp(Level(op) + 1, v, i, m, env);
    GivesPlace(Level(op) + 1, p, i + |Show(l)|, l, m, env);
    if p.Ok? {
      BinStep(op, v, i, m, env);
      var q := Exp(RightLevel(op), v, i + |Show(l)| + |Tokens(op)|, Inner(op, p.value.0, m), env);
      BinResult(op, l, r, p, i + |Show(l)|, q, i + |Show(Bin(op, l, r))|, m, env);
    } else {
      LeftError(op, l, r, p, i + |Show(l)|, i + |Show(Bin(op, l, r))|, m, env);
    }
  }

  lemma LeftError(op: Op, l: Tree, r: Tree, p: Result<(Val, nat), Error>, i: nat, j: nat, m: Mode, env: Env)
    requires Formed(Bin(op, l, r)) && Gives(Level(op) + 1, p, i, l, m, env) && p.Err?
    ensures Gives(Level(op), p, j, Bin(op, l, r), m, env)
  {
    hide Egetn; hide Putn;
  }

  // What the operator makes of the results of its two sides.
  lemma BinResult(op: Op, l: Tree, r: Tree, p: Result<(Val, nat), Error>, i: nat, q: Result<(Val, nat), Error>, j: nat,
                  m: Mode, env: Env)
    requires Formed(Bin(op, l, r)) && Gives(Level(op) + 1, p, i, l, m, env) && p.Ok?
    requires Gives(RightLevel(op), q, j, r, Inner(op, p.value.0, m), env)
    requires q.Ok? ==> (q.value.0.I? <==> RightLevel(op) <= 5)
    requires p.value.0.I? <==> Level(op) <= 4
    ensures Gives(Level(op),
      if q.Err? then Err(q.error) else
      match Combine(op, p.value.0, q.value.0, m.ignore, env)
      case Err(e) => Err(e)
      case Ok(x) => Ok((x, q.value.1)), j, Bin(op, l, r), m, env)
  {
    hide Putn; hide Egetn; hide Combine; hide Apply;
    if m.ignore {
      CombinedIgnored(op, p.value.0, q.value.0, env);
    } else {
      BinValue(op, l, r, p.value.0, q, j, m, env);
    }
  }

  lemma BinValue(op: Op, l: Tree, r: Tree, p: Val, q: Result<(Val, nat), Error>, j: nat, m: Mode, env: Env)
    requires Formed(Bin(op, l, r)) && !m.ignore
    requires Eval(l, env).Ok? && p == Value(Level(op) + 1, Eval(l, env).value)
    requires Gives(RightLevel(op), q, j, r, Inner(op, p, m), env)
    ensures match Eval(Bin(op, l, r), env)
      case Ok(n) => q.Ok? && q.value.1 == j && Combine(op, p, q.value.0, false, env) == Ok(Value(Level(op), n))
      case Err(e) => q == Err(e) || (q.Ok? && Combine(op, p, q.value.0, false, env) == Err(e))
  {
    hide Putn; hide Egetn; hide Wrap; hide Combine; hide Apply;
    var a := Eval(l, env).value;
    if (op == OrOr && a != 0) || (op == AndAnd && a == 0) {
      Shortcut(op, a, q.value.0, env);
    } else if Eval(r, env).Ok? {
      Combined(op, a, Eval(r, env).value, env);
    }
  }

  lemma Shortcut(op: Op, a: int, q: Val, env: Env)
    requires InInt(a) && q.I? && ((op == OrOr && a != 0) || (op == AndAnd && a == 0))
    ensures Combine(op, I(a), q, false, env) == Ok(I(Truth(op == OrOr)))
  {
  }

  // The words of a tree: exp reads all of them and returns the value of the
  // tree, or the error of a division by zero in it.
  lemma ExpOfTree(t: Tree, env: Env)
    requires Formed(t) && Globs(env)
    ensures var r := Exp(0, Show(t), 0, Mode(false, false), env);
      match Eval(t, env)
      case Ok(n) => r == Ok((I(n), |Show(t)|))
      case Err(e) => r == Err(e)
  {
    hide Globs; hide Exp;
    assert Show(t)[0..0 + |Show(t)|] == Show(t);
    EndStops(Show(t));
    Shown(0, t, Show(t), 0, Mode(false, false), env);
  }

  lemma EndStops(v: seq<Word>)
    ensures Stop(0, v, |v|)
  {
  }

  // ---------------------------------------------------------- precedence

  // The operators, those that bind tighter further back.
  const ORDER: seq<seq<Op>> := [
    [OrOr], [AndAnd], [BitOr], [BitXor], [BitAnd], [Eq, Ne], [Lt, Le, Gt, Ge], [Shl, Shr], [Add, Sub], [Mul, Div, Mod]
  ]

  // o stands in front of p in that list.
  ghost predicate Looser(o: Op, p: Op) {
    exists i, j :: 0 <= i < j < |ORDER| && o in ORDER[i] && p in ORDER[j]
  }

  // Beside it: the two are interchangeable.
  ghost predicate AsTight(o: Op, p: Op) {
    exists i :: 0 <= i < |ORDER| && o in ORDER[i] && p in ORDER[i]
  }

  lemma OrderLevel(o: Op, i: nat)
    requires i < |ORDER| && o in ORDER[i]
    ensures Level(o) == i && o != Match && o != NoMatch
  {
  }

  ghost predicate EvaluatesTo(s: seq<Word>, t: Tree, env: Env)
    requires Formed(t)
  {
    var r := Exp(0, s, 0, Mode(false, false), env);
    match Eval(t, env)
    case Ok(n) => r == Ok((I(n), |s|))
    case Err(e) => r == Err(e)
  }

  lemma Evaluates(t: Tree, s: seq<Word>, env: Env)
    requires Formed(t) && Globs(env) && s == Show(t)
    ensures EvaluatesTo(s, t, env)
  {
    hide Exp; hide Eval; hide Show; hide Formed;
    ExpOfTree(t, env);
  }

  lemma ShowNum(n: int)
    requires InInt(n)
    ensures Formed(Num(n)) && Show(Num(n)) == [Putn(n)]
  {
  }

  lemma ShowBin(o: Op, l: Tree, r: Tree)
    requires Formed(l) && Formed(r) && o != Match && o != NoMatch && Rank(l) > Level(o) && Rank(r) >= RightLevel(o)
    ensures Formed(Bin(o, l, r)) && Show(Bin(o, l, r)) == Show(l) + Tokens(o) + Show(r)
  {
  }

  // Of two operators the one that binds tighter takes the number between them,
  // on whichever side of the other it stands.
  lemma TighterFirst(o: Op, p: Op, a: int, b: int, c: int, env: Env)
    requires Looser(o, p) && InInt(a) && InInt(b) && InInt(c) && Globs(env)
    ensures var t := Bin(o, Num(a), Bin(p, Num(b), Num(c)));
      Formed(t) && EvaluatesTo([Putn(a)] + Tokens(o) + ([Putn(b)] + Tokens(p) + [Putn(c)]), t, env)
    ensures var t := Bin(o, Bin(p, Num(a), Num(b)), Num(c));
      Formed(t) && EvaluatesTo([Putn(a)] + Tokens(p) + [Putn(b)] + Tokens(o) + [Putn(c)], t, env)
  {
    hide Exp; hide Eval; hide Globs; hide Putn; hide Tokens; hide EvaluatesTo; hide Formed; hide Show;
    var i, j :| 0 <= i < j < |ORDER| && o in ORDER[i] && p in ORDER[j];
    OrderLevel(o, i);
    OrderLevel(p, j);
    ShowNum(a);
    ShowNum(b);
    ShowNum(c);
    ShowBin(p, Num(b), Num(c));
    ShowBin(o, Num(a), Bin(p, Num(b), Num(c)));
    ShowBin(p, Num(a), Num(b));
    ShowBin(o, Bin(p, Num(a), Num(b)), Num(c));
    Evaluates(Bin(o, Num(a), Bin(p, Num(b), Num(c))), [Putn(a)] + Tokens(o) + ([Putn(b)] + Tokens(p) + [Putn(c)]), env);
    Evaluates(Bin(o, Bin(p, Num(a), Num(b)), Num(c)), [Putn(a)] + Tokens(p) + [Putn(b)] + Tokens(o) + [Putn(c)], env);
  }

  // Of two that bind as tight the right one takes it; only comparisons for
  // equality do not stand side by side.
  lemma RightFirst(o: Op, p: Op, a: int, b: int, c: int, env: Env)
    requires AsTight(o, p) && o != Eq && o != Ne && InInt(a) && InInt(b) && InInt(c) && Globs(env)
    ensures var t := Bin(o, Num(a), Bin(p, Num(b), Num(c)));
      Formed(t) && EvaluatesTo([Putn(a)] + Tokens(o) + ([Putn(b)] + Tokens(p) + [Putn(c)]), t, env)
  {
    hide Exp; hide Eval; hide Globs; hide Putn; hide Tokens; hide EvaluatesTo; hide Formed; hide Show;
    var i :| 0 <= i < |ORDER| && o in ORDER[i] && p in ORDER[i];
    OrderLevel(o, i);
    OrderLevel(p, i);
    ShowNum(a);
    ShowNum(b);
    ShowNum(c);
    ShowBin(p, Num(b), Num(c));
    ShowBin(o, Num(a), Bin(p, Num(b), Num(c)));
    Evaluates(Bin(o, Num(a), Bin(p, Num(b), Num(c))), [Putn(a)] + Tokens(o) + ([Putn(b)] + Tokens(p) + [Putn(c)]), env);
  }
}
