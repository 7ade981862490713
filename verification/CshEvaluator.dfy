// The evaluator as csh runs it: recursive functions that move one cursor.
module CshEvaluator {
  import opened Basics
  import opened CshNumber
  import X = CshExpr
  import opened CshExpr

  // What the function of level k reports: r and the cursor j.
  predicate Ints(k: nat, v: seq<Word>, i: nat, m: Mode, env: Env, r: Result<int, Error>, j: nat)
    requires k <= 5 && i <= |v|
  {
    match Exp(k, v, i, m, env)
    case Ok((p, h)) => r == Ok(p.n) && j == h
    case Err(e) => r == Err(e)
  }

  predicate Strings(k: nat, v: seq<Word>, i: nat, m: Mode, env: Env, r: Result<string, Error>, j: nat)
    requires 5 < k <= 10 && i <= |v|
  {
    match Exp(k, v, i, m, env)
    case Ok((p, h)) => r == Ok(p.s) && j == h
    case Err(e) => r == Err(e)
  }

  // One step of a function of a level from the step of the level above.
  lemma IntStep(k: nat, v: seq<Word>, i: nat, m: Mode, env: Env, p1: int, j: nat)
    requires k <= 4 && i <= |v| && Exp(k + 1, v, i, m, env) == Ok((I(p1), j))
    ensures match OpAt(k, v, j)
      case None => Exp(k, v, i, m, env) == Ok((I(p1), j))
      case Some((op, n)) =>
        match Exp(k, v, j + n, Inner(op, I(p1), m), env)
        case Err(e) => Exp(k, v, i, m, env) == Err(e)
        case Ok((p2, h)) =>
          && p2.I?
          && (match Apply(op, p1, p2.n, env)
              case Ok(x) => Exp(k, v, i, m, env) == Ok((I(x), h))
              case Err(e) => Exp(k, v, i, m, env) == Err(e))
  {
    hide Exp6; hide OpAt; hide Inner; hide Apply;
  }

  lemma StringStep(k: nat, v: seq<Word>, i: nat, m: Mode, env: Env, p1: string, j: nat)
    requires 6 <= k <= 9 && i <= |v| && Exp(k + 1, v, i, m, env) == Ok((S(p1), j))
    ensures match OpAt(k, v, j)
      case None => Exp(k, v, i, m, env) == Ok((S(p1), j))
      case Some((op, n)) =>
        match Exp(k, v, j + n, m, env)
        case Err(e) => Exp(k, v, i, m, env) == Err(e)
        case Ok((p2, h)) =>
          && p2.S?
          && (match Combine(op, S(p1), p2, m.ignore, env)
              case Ok(x) => x.S? && Exp(k, v, i, m, env) == Ok((x, h))
              case Err(e) => Exp(k, v, i, m, env) == Err(e))
  {
    hide Exp6; hide OpAt; hide Combine;
  }

  lemma EqualStep(v: seq<Word>, i: nat, m: Mode, env: Env, p1: string, j: nat)
    requires i <= |v| && Exp(6, v, i, m, env) == Ok((S(p1), j))
    ensures match OpAt(5, v, j)
      case None =>
        (match Egetn(p1)
         case Ok(n) => Exp(5, v, i, m, env) == Ok((I(n), j))
         case Err(e) => Exp(5, v, i, m, env) == Err(e))
      case Some((op, n)) =>
        match Exp(6, v, j + n, Inner(op, S(p1), m), env)
        case Err(e) => Exp(5, v, i, m, env) == Err(e)
        case Ok((p2, h)) =>
          p2.S? && Combine(op, S(p1), p2, m.ignore, env).Ok?
          && Exp(5, v, i, m, env) == Ok((Combine(op, S(p1), p2, m.ignore, env).value, h))
  {
    hide Exp6; hide OpAt; hide Egetn;
  }

  lemma FailStep(k: nat, v: seq<Word>, i: nat, m: Mode, env: Env)
    requires k <= 9 && i <= |v|
    ensures Exp(k + 1, v, i, m, env).Err? ==> Exp(k, v, i, m, env) == Exp(k + 1, v, i, m, env)
  {
    hide Exp6; hide OpAt; hide Combine; hide Inner; hide Raise;
  }

  class Evaluator {
    const v: seq<Word>
    const env: Env
    var vp: nat

    constructor (v: seq<Word>, env: Env)
      ensures this.v == v && this.env == env && vp == 0
    {
      this.v, this.env, vp := v, env, 0;
    }

    method Exp0(m: Mode) returns (r: Result<int, Error>)
      requires vp <= |v|
      modifies this
      ensures vp <= |v| && Ints(0, v, old(vp), m, env, r, vp)
      decreases |v| - vp, 11
    {
      hide Exp; hide Bits;
      FailStep(0, v, vp, m, env);
      r := Exp1(m);
      if r.Err? {
        return;
      }
      var p1 := r.value;
      IntStep(0, v, old(vp), m, env, p1, vp);
      if vp < |v| && v[vp] == "||" {
        vp := vp + 1;
        r := Exp0(Mode(m.ignore || p1 != 0, false));
        if r.Ok? {
          var p2 := r.value;
          r := Ok(if p1 != 0 || p2 != 0 then 1 else 0);
        }
      }
    }

    method Exp1(m: Mode) returns (r: Result<int, Error>)
      requires vp <= |v|
      modifies this
      ensures vp <= |v| && Ints(1, v, old(vp), m, env, r, vp)
      decreases |v| - vp, 10
    {
      hide Exp; hide Bits;
      FailStep(1, v, vp, m, env);
      r := Exp2(m);
      if r.Err? {
        return;
      }
      var p1 := r.value;
      IntStep(1, v, old(vp), m, env, p1, vp);
      if vp < |v| && v[vp] == "&&" {
        vp := vp + 1;
        r := Exp1(Mode(m.ignore || p1 == 0, false));
        if r.Ok? {
          var p2 := r.value;
          r := Ok(if p1 != 0 && p2 != 0 then 1 else 0);
        }
      }
    }

    method Exp2(m: Mode) returns (r: Result<int, Error>)
      requires vp <= |v|
      modifies this
      ensures vp <= |v| && Ints(2, v, old(vp), m, env, r, vp)
      decreases |v| - vp, 9
    {
      hide Exp; hide Bits;
      FailStep(2, v, vp, m, env);
      r := Exp2a(m);
      if r.Err? {
        return;
      }
      var p1 := r.value;
      IntStep(2, v, old(vp), m, env, p1, vp);
      if vp < |v| && v[vp] == "|" {
        vp := vp + 1;
        r := Exp2(m);
        if r.Ok? {
          var p2 := r.value;
          r := Ok(Wrap(Bits(BitOr, p1, p2, 32)));
        }
      }
    }

    method Exp2a(m: Mode) returns (r: Result<int, Error>)
      requires vp <= |v|
      modifies this
      ensures vp <= |v| && Ints(3, v, old(vp), m, env, r, vp)
      decreases |v| - vp, 8
    {
      hide Exp; hide Bits;
      FailStep(3, v, vp, m, env);
      r := Exp2b(m);
      if r.Err? {
        return;
      }
      var p1 := r.value;
      IntStep(3, v, old(vp), m, env, p1, vp);
      if vp < |v| && v[vp] == "^" {
        vp := vp + 1;
        r := Exp2a(m);
        if r.Ok? {
          var p2 := r.value;
          r := Ok(Wrap(Bits(BitXor, p1, p2, 32)));
        }
      }
    }

    method Exp2b(m: Mode) returns (r: Result<int, Error>)
      requires vp <= |v|
      modifies this
      ensures vp <= |v| && Ints(4, v, old(vp), m, env, r, vp)
      decreases |v| - vp, 7
    {
      hide Exp; hide Bits;
      FailStep(4, v, vp, m, env);
      r := Exp2c(m);
      if r.Err? {
        return;
      }
      var p1 := r.value;
      IntStep(4, v, old(vp), m, env, p1, vp);
      if vp < |v| && v[vp] == "&" {
        vp := vp + 1;
        r := Exp2b(m);
        if r.Ok? {
          var p2 := r.value;
          r := Ok(Wrap(Bits(BitAnd, p1, p2, 32)));
        }
      }
    }

    method Exp2c(m: Mode) returns (r: Result<int, Error>)
      requires vp <= |v|
      modifies this
      ensures vp <= |v| && Ints(5, v, old(vp), m, env, r, vp)
      decreases |v| - vp, 6
    {
      hide Exp; hide Egetn;
      FailStep(5, v, vp, m, env);
      var s := Exp3(m);
      if s.Err? {
        return Err(s.error);
      }
      var p1 := s.value;
      EqualStep(v, old(vp), m, env, p1, vp);
      if vp < |v| && v[vp] in {"==", "!=", "=~", "!~"} {
        var op := v[vp];
        vp := vp + 1;
        s := Exp3(if op == "=~" || op == "!~" then m.(noglob := true) else m);
        if s.Err? {
          return Err(s.error);
        }
        var p2 := s.value;
        if m.ignore {
          r := Ok(if op == "==" then 1 else if op == "!=" then 6 else if op == "=~" then 7 else 8);
        } else {
          var b := if op == "==" then p1 == p2 else if op == "!=" then p1 != p2
            else if op == "=~" then env.gmatch(p1, p2) else !env.gmatch(p1, p2);
          r := Ok(if b then 1 else 0);
        }
      } else {
        r := Egetn(p1);
      }
    }

    method Exp3(m: Mode) returns (r: Result<string, Error>)
      requires vp <= |v|
      modifies this
      ensures vp <= |v| && Strings(6, v, old(vp), m, env, r, vp)
      decreases |v| - vp, 5
    {
      hide Exp; hide Combine;
      FailStep(6, v, vp, m, env);
      r := Exp3a(m);
      if r.Err? {
        return;
      }
      var p1 := r.value;
      StringStep(6, v, old(vp), m, env, p1, vp);
      if vp < |v| && Char(v[vp], 0) in {'<', '>'} {
        var i := if Char(v[vp], 0) == '>' then 2 else 4;
        vp := vp + 1;
        if vp < |v| && v[vp] == "=" {
          i, vp := i + 1, vp + 1;
        }
        r := Exp3(m);
        if r.Err? {
          return;
        }
        r := Relation(i, p1, r.value, m.ignore);
      }
    }

    // the comparison of exp3; i is 2 or 4 for > or <, and 1 more with =
    method Relation(i: int, p1: string, p2: string, ignore: bool) returns (r: Result<string, Error>)
      requires 2 <= i <= 5
      ensures var op := if i == 2 then Gt else if i == 3 then Ge else if i == 4 then Lt else Le;
        match Combine(op, S(p1), S(p2), ignore, env)
        case Ok(x) => x.S? && r == Ok(x.s)
        case Err(e) => r == Err(e)
    {
      hide Egetn; hide Putn; hide Wrap;
      var n := i;
      if !ignore {
        var a, b := Egetn(p1), Egetn(p2);
        if a.Err? {
          return Err(a.error);
        }
        if b.Err? {
          return Err(b.error);
        }
        n := Truth(match i
          case 2 => a.value > b.value
          case 3 => a.value >= b.value
          case 4 => a.value < b.value
          case _ => a.value <= b.value);
      }
      WrapSame(n);
      r := Ok(Putn(n));
    }

    method Exp3a(m: Mode) returns (r: Result<string, Error>)
      requires vp <= |v|
      modifies this
      ensures vp <= |v| && Strings(7, v, old(vp), m, env, r, vp)
      decreases |v| - vp, 4
    {
      hide Exp; hide Egetn; hide Putn; hide Wrap;
      FailStep(7, v, vp, m, env);
      r := Exp4(m);
      if r.Err? {
        return;
      }
      var p1 := r.value;
      StringStep(7, v, old(vp), m, env, p1, vp);
      if vp < |v| && Char(v[vp], 0) in {'<', '>'} && Char(v[vp], 0) == Char(v[vp], 1) {
        var left := Char(v[vp], 0) == '<';
        vp := vp + 1;
        r := Exp3a(m);
        if r.Err? {
          return;
        }
        var a, b := Egetn(p1), Egetn(r.value);
        if a.Err? {
          return Err(a.error);
        }
        if b.Err? {
          return Err(b.error);
        }
        WrapSame(Wrap(if left then env.shl(a.value, b.value) else env.shr(a.value, b.value)));
        r := Ok(Putn(Wrap(if left then env.shl(a.value, b.value) else env.shr(a.value, b.value))));
      }
    }

    method Exp4(m: Mode) returns (r: Result<string, Error>)
      requires vp <= |v|
      modifies this
      ensures vp <= |v| && Strings(8, v, old(vp), m, env, r, vp)
      decreases |v| - vp, 3
    {
      hide Exp; hide Egetn; hide Putn; hide Wrap;
      FailStep(8, v, vp, m, env);
      r := Exp5(m);
      if r.Err? {
        return;
      }
      var p1 := r.value;
      StringStep(8, v, old(vp), m, env, p1, vp);
      if vp < |v| && (v[vp] == "+" || v[vp] == "-") {
        var op := v[vp];
        vp := vp + 1;
        r := Exp4(m);
        if r.Err? {
          return;
        }
        var i := 0;
        if !m.ignore {
          var a, b := Egetn(p1), Egetn(r.value);
          if a.Err? {
            return Err(a.error);
          }
          if b.Err? {
            return Err(b.error);
          }
          i := if op == "+" then a.value + b.value else a.value - b.value;
        }
        WrapSame(Wrap(i));
        r := Ok(Putn(Wrap(i)));
      }
    }

    method Exp5(m: Mode) returns (r: Result<string, Error>)
      requires vp <= |v|
      modifies this
      ensures vp <= |v| && Strings(9, v, old(vp), m, env, r, vp)
      decreases |v| - vp, 2
    {
      hide Exp; hide Egetn; hide Putn; hide Wrap; hide Quot; hide Rem;
      FailStep(9, v, vp, m, env);
      r := Sub6(m);
      if r.Err? {
        return;
      }
      var p1 := r.value;
      StringStep(9, v, old(vp), m, env, p1, vp);
      if vp < |v| && v[vp] in {"*", "/", "%"} {
        var op := v[vp];
        vp := vp + 1;
        r := Exp5(m);
        if r.Err? {
          return;
        }
        var i := 0;
        if !m.ignore {
          var b := Egetn(r.value);
          if op != "*" {
            if b.Err? {
              return Err(b.error);
            }
            if b.value == 0 {
              return Err(if op == "/" then DIV0 else MOD0);
            }
          }
          var a := Egetn(p1);
          if a.Err? {
            return Err(a.error);
          }
          if b.Err? {
            return Err(b.error);
          }
          i := if op == "*" then a.value * b.value
            else if op == "/" then Quot(a.value, b.value) else Rem(a.value, b.value);
        }
        WrapSame(Wrap(i));
        r := Ok(Putn(Wrap(i)));
      }
    }

    // exp6
    method Sub6(m: Mode) returns (r: Result<string, Error>)
      requires vp <= |v|
      modifies this
      ensures vp <= |v| && Strings(10, v, old(vp), m, env, r, vp)
      decreases |v| - vp, 1
    {
      hide Egetn; hide Putn; hide Wrap; hide Exp; hide AnyOp;
      TenIsSix(v, vp, m, env);
      if vp == |v| {
        return Err(EXPRESSION);
      }
      if v[vp] == "!" || v[vp] == "~" {
        var not := v[vp] == "!";
        vp := vp + 1;
        TenIsSix(v, vp, m, env);
        r := Sub6(m);
        if r.Ok? {
          var i := Egetn(r.value);
          if i.Err? {
            return Err(i.error);
          }
          r := Ok(Putn(Wrap(if not then Truth(i.value == 0) else -i.value - 1)));
        }
        return;
      }
      if v[vp] == "(" {
        vp := vp + 1;
        var ccode := Exp0(m);
        if ccode.Err? {
          return Err(ccode.error);
        }
        if vp == |v| || Char(v[vp], 0) != ')' {
          return Err(EXPRESSION);
        }
        vp := vp + 1;
        return Ok(Putn(Wrap(ccode.value)));
      }
      if v[vp] == "{" {
        r := Braces(m);
        return;
      }
      if AnyOp(v[vp]) {
        return Ok("");
      }
      r := Operand(m);
    }

    lemma TenIsSix(v: seq<Word>, i: nat, m: Mode, env: Env)
      requires i <= |v|
      ensures Exp(10, v, i, m, env) == X.Exp6(v, i, m, env)
    {
    }

    // the loop of exp6 over a command in braces
    method Braces(m: Mode) returns (r: Result<string, Error>)
      requires vp < |v|
      modifies this
      ensures vp <= |v|
      ensures match Closing(v, old(vp) + 1)
        case None => r == Err(MISSING)
        case Some(j) =>
          old(vp) < j - 1 && vp == j && r == Ok(if m.ignore then "" else Putn(Truth(env.run(v[old(vp) + 1..j - 1]))))
    {
      var start := vp + 1;
      vp := start;
      while true
        invariant start <= vp <= |v| && Closing(v, vp) == Closing(v, start)
        decreases |v| - vp
      {
        if vp == |v| {
          return Err(MISSING);
        }
        vp := vp + 1;
        if v[vp - 1] == "}" {
          break;
        }
      }
      r := Ok(if m.ignore then "" else Putn(Truth(env.run(v[start..vp - 1]))));
    }

    // the last part of exp6: a file inquiry or a word
    method Operand(m: Mode) returns (r: Result<string, Error>)
      requires vp < |v|
      modifies this
      ensures vp <= |v|
      ensures match Leaf(v, old(vp), m, env)
        case Ok((p, j)) => r == Ok(p.s) && vp == j
        case Err(e) => r == Err(e)
    {
      hide Putn; hide AnyOp;
      var cp := v[vp];
      vp := vp + 1;
      if Char(cp, 0) == '-' && Char(cp, 1) in {'e', 'r', 'w', 'x', 'f', 'd', 'z', 'o', 'p', 'l', 's'} {
        if |cp| > 2 {
          return Err(FILEINQ);
        }
        if vp == |v| || (AnyOp(v[vp]) && !env.there(v[vp])) {
          return Err(FILENAME);
        }
        var dp := v[vp];
        vp := vp + 1;
        if m.ignore {
          return Ok("");
        }
        var ep := env.glob(dp);
        if ep == None {
          return Err(GLOBBING);
        }
        return Ok(Putn(Truth(env.file(cp[1], ep.value))));
      }
      if m.noglob {
        return Ok(cp);
      }
      var w := env.glob(cp);
      return if w == None then Err(GLOBBING) else Ok(w.value);
    }
  }
}
