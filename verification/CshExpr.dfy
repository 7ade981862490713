// The csh expression evaluator: what its recursive descent computes.
module CshExpr {
  import opened Basics
  import opened CshNumber

  datatype Error = EXPRESSION | BADNUM | DIV0 | MOD0 | MISSING | FILEINQ | FILENAME | GLOBBING

  // The int of exp0 to exp2c, the string of exp3 to exp6.
  datatype Val = I(n: int) | S(s: string)

  // IGNORE and NOGLOB.
  datatype Mode = Mode(ignore: bool, noglob: bool)

  // What the evaluator asks the rest of the shell and the system.
  datatype Env = Env(
    glob: Word -> Option<Word>,          // globone
    gmatch: (Word, Word) -> bool,        // Gmatch
    file: (char, Word) -> bool,          // access, stat
    there: Word -> bool,                 // stat
    run: seq<Word> -> bool,              // the command in braces
    shl: (int, int) -> int,              // << and >> of C, which are not
    shr: (int, int) -> int)              // defined for all operands

  datatype Op =
    | OrOr | AndAnd | BitOr | BitXor | BitAnd | Eq | Ne | Match | NoMatch
    | Lt | Le | Gt | Ge | Shl | Shr | Add | Sub | Mul | Div | Mod

  // The level of the function that looks for an operator; exp6 is level 10.
  function Level(op: Op): nat {
    match op
    case OrOr => 0
    case AndAnd => 1
    case BitOr => 2
    case BitXor => 3
    case BitAnd => 4
    case Eq => 5 case Ne => 5 case Match => 5 case NoMatch => 5
    case Lt => 6 case Le => 6 case Gt => 6 case Ge => 6
    case Shl => 7 case Shr => 7
    case Add => 8 case Sub => 8
    case Mul => 9 case Div => 9 case Mod => 9
  }

  function Tokens(op: Op): seq<Word> {
    match op
    case OrOr => ["||"] case AndAnd => ["&&"] case BitOr => ["|"] case BitXor => ["^"] case BitAnd => ["&"]
    case Eq => ["=="] case Ne => ["!="] case Match => ["=~"] case NoMatch => ["!~"]
    case Lt => ["<"] case Le => ["<", "="] case Gt => [">"] case Ge => [">", "="]
    case Shl => ["<<"] case Shr => [">>"]
    case Add => ["+"] case Sub => ["-"]
    case Mul => ["*"] case Div => ["/"] case Mod => ["%"]
  }

  // --------------------------------------------------------------- tokens

  function Char(w: Word, i: nat): char {
    if i < |w| then w[i] else '\0'
  }

  // isa with ANYOP; no token at all counts.
  predicate IsAny(v: seq<Word>, i: nat) {
    i >= |v| || AnyOp(v[i])
  }

  predicate AnyOp(w: Word) {
    || (|w| == 1 && w[0] in {'+', '-', '*', '/', '%', '(', ')', '!', '~', '^', '"'})
    || w in {"|&", "<<", ">>", "==", "=~", "!=", "!~"}
    || Char(w, 0) in {'<', '>'}
  }

  // The operator that the function of level k finds at v[i] and the number of
  // its tokens.
  function OpAt(k: nat, v: seq<Word>, i: nat): (r: Option<(Op, nat)>)
    ensures r.Some? ==> i < i + r.value.1 <= |v| && Level(r.value.0) == k <= 9
  {
    if i >= |v| then None else
    var w := v[i];
    match k
    case 0 => if w == "||" then Some((OrOr, 1)) else None
    case 1 => if w == "&&" then Some((AndAnd, 1)) else None
    case 2 => if w == "|" then Some((BitOr, 1)) else None
    case 3 => if w == "^" then Some((BitXor, 1)) else None
    case 4 => if w == "&" then Some((BitAnd, 1)) else None
    case 5 =>
      if w == "==" then Some((Eq, 1)) else if w == "!=" then Some((Ne, 1))
      else if w == "=~" then Some((Match, 1)) else if w == "!~" then Some((NoMatch, 1)) else None
    case 6 =>
      var equal := i + 1 < |v| && v[i + 1] == "=";
      if Char(w, 0) == '<' then Some(if equal then (Le, 2) else (Lt, 1))
      else if Char(w, 0) == '>' then Some(if equal then (Ge, 2) else (Gt, 1)) else None
    case 7 =>
      if Char(w, 0) == '<' == Char(w, 1) then Some((Shl, 1))
      else if Char(w, 0) == '>' == Char(w, 1) then Some((Shr, 1)) else None
    case 8 => if w == "+" then Some((Add, 1)) else if w == "-" then Some((Sub, 1)) else None
    case 9 =>
      if w == "*" then Some((Mul, 1)) else if w == "/" then Some((Div, 1))
      else if w == "%" then Some((Mod, 1)) else None
    case _ => None
  }

  // -------------------------------------------------------------- arithmetic

  // The bits of a and b combined, for 32 bits.
  function Bits(op: Op, a: int, b: int, k: nat): int
    decreases k
  {
    if k == 0 then 0 else
    var x, y := a % 2, b % 2;
    2 * Bits(op, a / 2, b / 2, k - 1) +
      (if op == BitOr then (if x + y > 0 then 1 else 0)
       else if op == BitXor then (x + y) % 2
       else x * y)
  }

  // Division of C, towards zero.
  function Quot(a: int, b: int): int
    requires b != 0
  {
    if a >= 0 then a / b else -(-a / b)
  }

  function Rem(a: int, b: int): int
    requires b != 0
  {
    a - b * Quot(a, b)
  }

  function Truth(b: bool): int {
    if b then 1 else 0
  }

  // The value of an operator on two ints; shortcuts of || and && apart.
  function Apply(op: Op, a: int, b: int, env: Env): Result<int, Error> {
    match op
    case OrOr => Ok(Truth(a != 0 || b != 0))
    case AndAnd => Ok(Truth(a != 0 && b != 0))
    case BitOr => Ok(Wrap(Bits(op, a, b, 32)))
    case BitXor => Ok(Wrap(Bits(op, a, b, 32)))
    case BitAnd => Ok(Wrap(Bits(op, a, b, 32)))
    case Eq => Ok(Truth(a == b))
    case Ne => Ok(Truth(a != b))
    case Match => Ok(Truth(env.gmatch(Putn(Wrap(a)), Putn(Wrap(b)))))
    case NoMatch => Ok(Truth(!env.gmatch(Putn(Wrap(a)), Putn(Wrap(b)))))
    case Lt => Ok(Truth(a < b))
    case Le => Ok(Truth(a <= b))
    case Gt => Ok(Truth(a > b))
    case Ge => Ok(Truth(a >= b))
    case Shl => Ok(Wrap(env.shl(a, b)))
    case Shr => Ok(Wrap(env.shr(a, b)))
    case Add => Ok(Wrap(a + b))
    case Sub => Ok(Wrap(a - b))
    case Mul => Ok(Wrap(a * b))
    case Div => if b == 0 then Err(DIV0) else Ok(Wrap(Quot(a, b)))
    case Mod => if b == 0 then Err(MOD0) else Ok(Wrap(Rem(a, b)))
  }

  // egetn
  function Egetn(s: string): (r: Result<int, Error>)
    ensures r.Ok? ==> InInt(r.value)
  {
    if s != "" && s[0] != '-' && !IsDigit(s[0]) then Err(EXPRESSION)
    else match Getn(s)
      case Number(n) => Ok(n)
      case BadNumber => Err(BADNUM)
  }

  // The code that isa returns for the operator, the value of a comparison
  // that is ignored.
  function Code(op: Op): int {
    match op
    case Eq => 1 case Ne => 6 case Match => 7 case NoMatch => 8
    case Gt => 2 case Ge => 3 case Lt => 4 case Le => 5
    case _ => 0
  }

  function Decimal(r: Result<int, Error>): Result<Val, Error> {
    match r
    case Ok(n) => Ok(S(Putn(Wrap(n))))
    case Err(e) => Err(e)
  }

  // What the function of the operator returns for the values of its sides.
  function Combine(op: Op, p1: Val, p2: Val, ignore: bool, env: Env): (r: Result<Val, Error>)
    ensures r.Ok? ==> (r.value.I? <==> Level(op) <= 5)
  {
    if Level(op) <= 4 then
      if p1.I? && p2.I? then
        match Apply(op, p1.n, p2.n, env)
        case Ok(n) => Ok(I(n))
        case Err(e) => Err(e)
      else Err(EXPRESSION)
    else if p1.I? || p2.I? then
      Err(EXPRESSION)
    else if Level(op) == 5 then
      var (a, b) := (p1.s, p2.s);
      Ok(I(if ignore then Code(op) else Truth(
        match op
        case Eq => a == b
        case Ne => a != b
        case Match => env.gmatch(a, b)
        case _ => !env.gmatch(a, b))))
    else if ignore && op != Shl && op != Shr then
      Decimal(Ok(Code(op)))
    else
      match (Egetn(p1.s), Egetn(p2.s))
      case (Ok(a), Ok(b)) => Decimal(Apply(op, a, b, env))
      case (Ok(a), Err(e)) => Err(e)
      case (Err(e), Ok(b)) => if (op == Div || op == Mod) && b == 0 then Err(if op == Div then DIV0 else MOD0) else Err(e)
      case (Err(e), Err(e2)) => Err(if op == Div || op == Mod then e2 else e)
  }

  // The mode in which the right side of an operator is evaluated.
  function Inner(op: Op, p1: Val, m: Mode): Mode {
    match op
    case OrOr => Mode(m.ignore || p1 != I(0), false)
    case AndAnd => Mode(m.ignore || p1 == I(0), false)
    case Match => m.(noglob := true)
    case NoMatch => m.(noglob := true)
    case _ => m
  }

  // exp2c turns what is no comparison into an int.
  function Raise(k: nat, p1: Val): (r: Result<Val, Error>)
    ensures r.Ok? ==> if k == 5 then r.value.I? else r.value == p1
  {
    if k != 5 || p1.I? then Ok(p1) else
    match Egetn(p1.s)
    case Ok(n) => Ok(I(n))
    case Err(e) => Err(e)
  }

  // ----------------------------------------------------------- the descent

  // Where a command in braces ends: behind the first }.
  function Closing(v: seq<Word>, i: nat): Option<nat>
    decreases |v| - i
  {
    if i >= |v| then None else if v[i] == "}" then Some(i + 1) else Closing(v, i + 1)
  }

  lemma {:induction false} ClosingBehind(v: seq<Word>, i: nat)
    ensures Closing(v, i).Some? ==> i < Closing(v, i).value <= |v|
    decreases |v| - i
  {
    if i < |v| && v[i] != "}" {
      ClosingBehind(v, i + 1);
    }
  }

  // A file inquiry or a word, at v[i].
  function Leaf(v: seq<Word>, i: nat, m: Mode, env: Env): (r: Result<(Val, nat), Error>)
    requires i < |v|
    ensures r.Ok? ==> i < r.value.1 <= |v| && r.value.0.S?
  {
    var cp := v[i];
    if Char(cp, 0) == '-' && Char(cp, 1) in {'e', 'r', 'w', 'x', 'f', 'd', 'z', 'o', 'p', 'l', 's'} then
      if |cp| > 2 then Err(FILEINQ)
      else if IsAny(v, i + 1) && (i + 1 >= |v| || !env.there(v[i + 1])) then Err(FILENAME)
      else if m.ignore then Ok((S(""), i + 2))
      else match env.glob(v[i + 1])
        case None => Err(GLOBBING)
        case Some(ep) => Ok((S(Putn(Truth(env.file(cp[1], ep)))), i + 2))
    else if m.noglob then Ok((S(cp), i + 1))
    else match env.glob(cp)
      case None => Err(GLOBBING)
      case Some(w) => Ok((S(w), i + 1))
  }

  // The value and the place behind it that exp6 finds from v[i] on.
  function Exp6(v: seq<Word>, i: nat, m: Mode, env: Env): (r: Result<(Val, nat), Error>)
    requires i <= |v|
    ensures r.Ok? ==> i <= r.value.1 <= |v| && r.value.0.S?
    decreases |v| - i, 0
  {
    if i == |v| then Err(EXPRESSION)
    else if v[i] == "!" || v[i] == "~" then
      match Exp6(v, i + 1, m, env)
      case Err(e) => Err(e)
      case Ok((p, j)) =>
        (match Egetn(p.s)
         case Err(e) => Err(e)
         case Ok(n) => Ok((S(Putn(Wrap(if v[i] == "!" then Truth(n == 0) else -n - 1))), j)))
    else if v[i] == "(" then
      match Exp(0, v, i + 1, m, env)
      case Err(e) => Err(e)
      case Ok((p, j)) =>
        if j == |v| || Char(v[j], 0) != ')' then Err(EXPRESSION) else Ok((S(Putn(Wrap(p.n))), j + 1))
    else if v[i] == "{" then
      ClosingBehind(v, i + 1);
      match Closing(v, i + 1)
      case None => Err(MISSING)
      case Some(j) => Ok((S(if m.ignore then "" else Putn(Truth(env.run(v[i + 1..j - 1])))), j))
    else if IsAny(v, i) then Ok((S(""), i))
    else Leaf(v, i, m, env)
  }

  // The same for the function of level k, which is a side of an operator of
  // the level or such an operator and what follows it.
  function Exp(k: nat, v: seq<Word>, i: nat, m: Mode, env: Env): (r: Result<(Val, nat), Error>)
    requires k <= 10 && i <= |v|
    ensures r.Ok? ==> i <= r.value.1 <= |v| && (r.value.0.I? <==> k <= 5)
    decreases |v| - i, 11 - k
  {
    if k == 10 then Exp6(v, i, m, env) else
    match Exp(k + 1, v, i, m, env)
    case Err(e) => Err(e)
    case Ok((p1, j)) =>
      match OpAt(k, v, j)
      case None =>
        (match Raise(k, p1)
         case Err(e) => Err(e)
         case Ok(p) => Ok((p, j)))
      case Some((op, n)) =>
        match Exp(if k == 5 then 6 else k, v, j + n, Inner(op, p1, m), env)
        case Err(e) => Err(e)
        case Ok((p2, j2)) =>
          match Combine(op, p1, p2, m.ignore, env)
          case Err(e) => Err(e)
          case Ok(p) => Ok((p, j2))
  }

  // ---------------------------------------------------------- ignored parts

  lemma LeafStop(v: seq<Word>, i: nat, m1: Mode, m2: Mode, env: Env)
    requires i < |v| && Leaf(v, i, m1, env).Ok? && Leaf(v, i, m2, env).Ok?
    ensures Leaf(v, i, m1, env).value.1 == Leaf(v, i, m2, env).value.1
  {
  }

  lemma {:induction false} SameStop6(v: seq<Word>, i: nat, m1: Mode, m2: Mode, env: Env)
    requires i <= |v| && Exp6(v, i, m1, env).Ok? && Exp6(v, i, m2, env).Ok?
    ensures Exp6(v, i, m1, env).value.1 == Exp6(v, i, m2, env).value.1
    decreases |v| - i, 0
  {
    hide Leaf; hide Egetn; hide AnyOp; hide Exp; hide Putn;
    if v[i] == "!" || v[i] == "~" {
      SameStop6(v, i + 1, m1, m2, env);
    } else if v[i] == "(" {
      SameStop(0, v, i + 1, m1, m2, env);
    } else if v[i] != "{" && !IsAny(v, i) {
      LeafStop(v, i, m1, m2, env);
    }
  }

  // Words that are accepted in two modes are read to the same place in both:
  // what is ignored is skipped exactly.
  lemma {:induction false} SameStop(k: nat, v: seq<Word>, i: nat, m1: Mode, m2: Mode, env: Env)
    requires k <= 10 && i <= |v| && Exp(k, v, i, m1, env).Ok? && Exp(k, v, i, m2, env).Ok?
    ensures Exp(k, v, i, m1, env).value.1 == Exp(k, v, i, m2, env).value.1
    decreases |v| - i, 11 - k
  {
    hide Exp6; hide OpAt; hide Raise; hide Inner; hide Combine;
    if k == 10 {
      SameStop6(v, i, m1, m2, env);
    } else {
      SameStop(k + 1, v, i, m1, m2, env);
      var p, j := Exp(k + 1, v, i, m1, env).value.0, Exp(k + 1, v, i, m1, env).value.1;
      var q := Exp(k + 1, v, i, m2, env).value.0;
      var o := OpAt(k, v, j);
      if o.Some? {
        var op, n := o.value.0, o.value.1;
        SameStop(if k == 5 then 6 else k, v, j + n, Inner(op, p, m1), Inner(op, q, m2), env);
      }
    }
  }
}
