// What the operators of csh expressions compute: bits, sums, quotients and
// truth values of ints.
module CshArith {
  import opened Basics
  import opened Machine
  import opened CshPower
  import opened CshNumber
  import opened CshExpr

  // ------------------------------------------------------------------- bits

  // Bit k does not depend on what is added from bit n on.
  lemma {:induction false} BitLow(x: int, m: int, n: nat, k: nat)
    requires k < n
    ensures Bit(x + m * Pow2(n), k) == Bit(x, k)
    decreases k
  {
    var h := m * Pow2(n - 1);
    assert m * Pow2(n) == 2 * h;
    assert (x + 2 * h) % 2 == x % 2 && (x + 2 * h) / 2 == x / 2 + h;
    if k > 0 {
      BitLow(x / 2, m, n - 1, k - 1);
    }
  }

  lemma WrapBit(x: int, k: nat)
    requires k < 32
    ensures Bit(Wrap(x), k) == Bit(x, k)
  {
    var q := (x + TWO31) / WORD;
    assert Wrap(x) == x + -q * WORD;
    Two32();
    BitLow(x, -q, 32, k);
  }

  lemma Two32()
    ensures Pow2(32) == WORD
  {
    assert Pow2(8) == 256;
    PowSum(8, 8);
    PowSum(16, 16);
  }

  function OrBit(x: int, y: int): int {
    if x == 1 || y == 1 then 1 else 0
  }

  function XorBit(x: int, y: int): int {
    if x != y then 1 else 0
  }

  function AndBit(x: int, y: int): int {
    if x == 1 && y == 1 then 1 else 0
  }

  lemma {:induction false} BitsAt(op: Op, a: int, b: int, n: nat, k: nat)
    requires k < n
    ensures var r, x, y := Bit(Bits(op, a, b, n), k), Bit(a, k), Bit(b, k);
      r == if op == BitOr then OrBit(x, y) else if op == BitXor then XorBit(x, y) else AndBit(x, y)
    decreases n
  {
    var low := Bits(op, a, b, n) - 2 * Bits(op, a / 2, b / 2, n - 1);
    LowBit(op, a, b, n);
    if k > 0 {
      BitsAt(op, a / 2, b / 2, n - 1, k - 1);
    }
  }

  lemma LowBit(op: Op, a: int, b: int, n: nat)
    requires n > 0
    ensures Bits(op, a, b, n) / 2 == Bits(op, a / 2, b / 2, n - 1)
    ensures var x, y := a % 2, b % 2;
      Bits(op, a, b, n) % 2 == if op == BitOr then OrBit(x, y) else if op == BitXor then XorBit(x, y) else AndBit(x, y)
  {
    var x, y, r := a % 2, b % 2, Bits(op, a / 2, b / 2, n - 1);
    var low := if op == BitOr then OrBit(x, y) else if op == BitXor then XorBit(x, y) else AndBit(x, y);
    if op != BitOr && op != BitXor {
      assert x * y == AndBit(x, y);
    }
    assert Bits(op, a, b, n) == 2 * r + low;
  }

  // |, ^ and & work on every bit of an int, the sign included.
  lemma BitOperators(a: int, b: int, k: nat, env: Env)
    requires k < 32
    ensures var r := Apply(BitOr, a, b, env); r.Ok? && Bit(r.value, k) == OrBit(Bit(a, k), Bit(b, k))
    ensures var r := Apply(BitXor, a, b, env); r.Ok? && Bit(r.value, k) == XorBit(Bit(a, k), Bit(b, k))
    ensures var r := Apply(BitAnd, a, b, env); r.Ok? && Bit(r.value, k) == AndBit(Bit(a, k), Bit(b, k))
  {
    hide Bits; hide Wrap; hide Bit;
    BitsAt(BitOr, a, b, 32, k);
    BitsAt(BitXor, a, b, 32, k);
    BitsAt(BitAnd, a, b, 32, k);
    WrapBit(Bits(BitOr, a, b, 32), k);
    WrapBit(Bits(BitXor, a, b, 32), k);
    WrapBit(Bits(BitAnd, a, b, 32), k);
  }

  // A number of n bits and a sign.
  predicate Fits(x: int, n: nat) {
    var p: int := Pow2(n);
    -p <= x < p
  }

  // Bits and sign determine a number.
  lemma {:induction false} SameBits(x: int, y: int, n: nat)
    requires Fits(x, n) && Fits(y, n) && forall k: nat :: k <= n ==> Bit(x, k) == Bit(y, k)
    ensures x == y
    decreases n
  {
    assert Bit(x, 0) == Bit(y, 0);
    if n > 0 {
      forall k: nat | k <= n - 1 ensures Bit(x / 2, k) == Bit(y / 2, k) {
        assert Bit(x, k + 1) == Bit(y, k + 1);
      }
      SameBits(x / 2, y / 2, n - 1);
    }
  }

  lemma IntFits(x: int)
    requires InInt(x)
    ensures Fits(x, 31)
  {
    Two32();
  }

  lemma ZeroBit(k: nat)
    ensures Bit(0, k) == 0 && Bit(-1, k) == 1
  {
  }

  // Neutral elements.
  lemma BitNeutral(a: int, env: Env)
    requires InInt(a)
    ensures Apply(BitOr, a, 0, env) == Ok(a) && Apply(BitXor, a, 0, env) == Ok(a)
    ensures Apply(BitAnd, a, -1, env) == Ok(a)
  {
    hide Bits; hide Bit; hide Pow2;
    var o, x, n := Apply(BitOr, a, 0, env).value, Apply(BitXor, a, 0, env).value, Apply(BitAnd, a, -1, env).value;
    forall k: nat | k <= 31 ensures Bit(o, k) == Bit(a, k) && Bit(x, k) == Bit(a, k) && Bit(n, k) == Bit(a, k) {
      ZeroBit(k);
      BitOperators(a, 0, k, env);
      BitOperators(a, -1, k, env);
    }
    IntFits(a);
    IntFits(o);
    IntFits(x);
    IntFits(n);
    SameBits(o, a, 31);
    SameBits(x, a, 31);
    SameBits(n, a, 31);
  }

  lemma {:induction false} SumOfBits(a: int, b: int, o: int, d: int, n: nat)
    requires Fits(a, n) && Fits(b, n) && Fits(o, n) && Fits(d, n)
    requires forall k: nat :: k <= n ==> Bit(o, k) + Bit(d, k) == Bit(a, k) + Bit(b, k)
    ensures o + d == a + b
    decreases n
  {
    assert Bit(o, 0) + Bit(d, 0) == Bit(a, 0) + Bit(b, 0);
    if n > 0 {
      forall k: nat | k <= n - 1 ensures Bit(o / 2, k) + Bit(d / 2, k) == Bit(a / 2, k) + Bit(b / 2, k) {
        assert Bit(o, k + 1) + Bit(d, k + 1) == Bit(a, k + 1) + Bit(b, k + 1);
      }
      SumOfBits(a / 2, b / 2, o / 2, d / 2, n - 1);
    }
  }

  // (a | b) + (a & b) == a + b
  lemma OrAndSum(a: int, b: int, env: Env)
    requires InInt(a) && InInt(b)
    ensures Apply(BitOr, a, b, env).value + Apply(BitAnd, a, b, env).value == a + b
  {
    hide Bits; hide Bit; hide Pow2;
    var o, d := Apply(BitOr, a, b, env).value, Apply(BitAnd, a, b, env).value;
    forall k: nat | k <= 31 ensures Bit(o, k) + Bit(d, k) == Bit(a, k) + Bit(b, k) {
      BitOperators(a, b, k, env);
    }
    IntFits(a);
    IntFits(b);
    IntFits(o);
    IntFits(d);
    SumOfBits(a, b, o, d, 31);
  }

  // ~ turns every bit round.
  lemma {:induction false} Complement(n: int, k: nat)
    ensures Bit(-n - 1, k) == 1 - Bit(n, k)
    decreases k
  {
    assert (-n - 1) / 2 == -(n / 2) - 1;
    if k > 0 {
      Complement(n / 2, k - 1);
    }
  }

  // ------------------------------------------------------------- arithmetic

  // r is the int that n wraps round to.
  predicate WrapsTo(n: int, r: int) {
    InInt(r) && (r - n) % WORD == 0
  }

  lemma WrapIs(n: int, r: int)
    ensures Wrap(n) == r <==> WrapsTo(n, r)
  {
    var q := (n + TWO31) / WORD;
    assert Wrap(n) - n == -q * WORD;
    if WrapsTo(n, r) {
      var p := (r - n) / WORD;
      assert r == n + p * WORD;
      Congruent(r, n, p);
      WrapSame(r);
    }
  }

  // +, - and * are those of the integers, wrapped round.
  lemma Sums(a: int, b: int, env: Env)
    ensures var r := Apply(Add, a, b, env); r.Ok? && WrapsTo(a + b, r.value)
    ensures var r := Apply(Sub, a, b, env); r.Ok? && WrapsTo(a - b, r.value)
    ensures var r := Apply(Mul, a, b, env); r.Ok? && WrapsTo(a * b, r.value)
  {
    hide Wrap; hide WrapsTo;
    WrapIs(a + b, Wrap(a + b));
    WrapIs(a - b, Wrap(a - b));
    WrapIs(a * b, Wrap(a * b));
  }

  function Abs(n: int): nat {
    if n < 0 then -n else n
  }

  // a = q * b + r, where the rest is nothing or has the sign of a and is
  // smaller than b.
  predicate Divides(a: int, b: int, q: int, r: int) {
    a == q * b + r && Abs(r) < Abs(b) && (r != 0 ==> (r < 0 <==> a < 0))
  }

  // / rounds towards zero, and % gives the rest; the quotient of the least int
  // by -1 wraps round.
  lemma Quotients(a: int, b: int, env: Env)
    requires InInt(a) && InInt(b)
    ensures b == 0 ==> Apply(Div, a, b, env) == Err(DIV0) && Apply(Mod, a, b, env) == Err(MOD0)
    ensures b != 0 ==> var q, r := Apply(Div, a, b, env), Apply(Mod, a, b, env);
      && q.Ok? && r.Ok?
      && (if a == -TWO31 && b == -1 then q.value == a && r.value == 0 else Divides(a, b, q.value, r.value))
  {
    if b != 0 {
      QuotDivides(a, b);
      QuotSmall(a, b);
      if a == -TWO31 && b == -1 {
        assert Quot(a, b) == TWO31;
        assert Wrap(TWO31) == -TWO31;
        assert Rem(a, b) == 0;
      } else {
        WrapSame(Quot(a, b));
      }
      WrapSame(Rem(a, b));
    }
  }

  lemma QuotDivides(a: int, b: int)
    requires b != 0
    ensures Divides(a, b, Quot(a, b), Rem(a, b))
  {
    var n := Abs(a);
    assert n == n / b * b + n % b && 0 <= n % b < Abs(b);
    if a < 0 {
      assert Quot(a, b) == -(n / b);
      assert -(n / b) * b == -(n / b * b);
    }
  }

  lemma QuotSmall(a: int, b: int)
    requires InInt(a) && InInt(b) && b != 0
    ensures InInt(Rem(a, b)) && (InInt(Quot(a, b)) || (a == -TWO31 && b == -1))
  {
    var q, r := Quot(a, b), Rem(a, b);
    QuotDivides(a, b);
    if Abs(b) >= 2 {
      SmallFactor(q, b, Abs(a - r));
    } else {
      assert r == 0;
      assert b == 1 || b == -1;
      assert a == q * b;
    }
  }

  lemma SmallFactor(q: int, b: int, n: nat)
    requires Abs(b) >= 2 && Abs(q * b) == n && n <= WORD
    ensures Abs(q) <= WORD / 2
  {
    AbsProduct(q, b);
    AtLeastTwice(Abs(q), Abs(b));
  }

  lemma AbsProduct(x: int, y: int)
    ensures Abs(x * y) == Abs(x) * Abs(y)
  {
    if x < 0 {
      assert x * y == -(Abs(x) * y);
    }
    if y < 0 {
      assert Abs(x) * y == -(Abs(x) * Abs(y));
    }
  }

  lemma AtLeastTwice(x: nat, y: nat)
    requires y >= 2
    ensures x * y >= 2 * x
  {
    assert x * y == 2 * x + x * (y - 2);
  }

  // ------------------------------------------------------------------ truth

  // Comparisons, || and && give 1 or 0.
  lemma Comparisons(a: int, b: int, env: Env)
    ensures Apply(Lt, a, b, env) == Ok(if a < b then 1 else 0) && Apply(Ge, a, b, env) == Ok(if a < b then 0 else 1)
    ensures Apply(Gt, a, b, env) == Ok(if b < a then 1 else 0) && Apply(Le, a, b, env) == Ok(if b < a then 0 else 1)
    ensures Apply(Eq, a, b, env) == Ok(if a == b then 1 else 0) && Apply(Ne, a, b, env) == Ok(if a == b then 0 else 1)
    ensures Apply(OrOr, a, b, env) == Ok(if a == 0 && b == 0 then 0 else 1)
    ensures Apply(AndAnd, a, b, env) == Ok(if a == 0 || b == 0 then 0 else 1)
  {
  }
}
