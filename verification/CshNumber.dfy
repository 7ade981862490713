// The decimal strings in which csh keeps the values of expressions.
module CshNumber {

  import opened Machine

  const TWO31 := WORD / 2

  predicate InInt(n: int) {
    -TWO31 <= n < TWO31
  }

  // An int that wraps round.
  function Wrap(n: int): (r: int)
    ensures InInt(r)
  {
    (n + TWO31) % WORD - TWO31
  }

  lemma WrapSame(n: int)
    requires InInt(n)
    ensures Wrap(n) == n
  {
  }

  // Wrapping in between makes no difference.
  lemma WrapStep(n: int, d: int)
    ensures Wrap(Wrap(n) * 10 + d) == Wrap(n * 10 + d)
    ensures Wrap(-Wrap(n)) == Wrap(-n)
  {
    var q := (n + TWO31) / WORD;
    assert Wrap(n) == n - q * WORD;
    Congruent(Wrap(n) * 10 + d, n * 10 + d, -10 * q);
    Congruent(-Wrap(n), -n, q);
  }

  lemma Congruent(a: int, b: int, q: int)
    requires a == b + q * WORD
    ensures Wrap(a) == Wrap(b)
  {
    assert (a + TWO31) % WORD == (b + TWO31 + q * WORD) % WORD;
    var r, p := (b + TWO31) % WORD, (b + TWO31) / WORD;
    assert a + TWO31 == (p + q) * WORD + r;
  }

  predicate IsDigit(c: char) {
    '0' <= c <= '9'
  }

  function Digit(d: nat): char
    requires d < 10
  {
    '0' + d as char
  }

  // putn1
  function Digits(n: nat): (s: string)
    ensures s != [] && forall i :: 0 <= i < |s| ==> IsDigit(s[i])
  {
    (if n > 9 then Digits(n / 10) else "") + [Digit(n % 10)]
  }

  function Putn(n: int): string
    requires InInt(n)
  {
    if n < 0 then "-" + Digits(-n) else Digits(n)
  }

  // The number that a string of digits denotes.
  function Value(s: string): int
    requires forall i :: 0 <= i < |s| ==> IsDigit(s[i])
  {
    if s == [] then 0 else Value(s[..|s| - 1]) * 10 + (s[|s| - 1] as int - '0' as int)
  }

  // How many digits s begins with.
  function Span(s: string): (k: nat)
    ensures k <= |s| && forall i :: 0 <= i < k ==> IsDigit(s[i])
    ensures k < |s| ==> !IsDigit(s[k])
  {
    if s == "" || !IsDigit(s[0]) then 0 else 1 + Span(s[1..])
  }

  datatype Number = Number(n: int) | BadNumber

  // getn
  function Getn(s: string): (r: Number)
    ensures r.Number? ==> InInt(r.n)
  {
    var s := if |s| >= 2 && s[0] == '+' then s[1..] else s;
    var neg := s != "" && s[0] == '-';
    var s := if neg then s[1..] else s;
    if (neg && Span(s) == 0) || Span(s) < |s| then BadNumber
    else Number(Wrap(if neg then -Value(s) else Value(s)))
  }

  lemma {:induction false} ValueDigits(n: nat)
    ensures Value(Digits(n)) == n
  {
    var s := Digits(n);
    assert s[..|s| - 1] == if n > 9 then Digits(n / 10) else "";
    if n > 9 {
      ValueDigits(n / 10);
    }
  }

  lemma SpanAll(s: string)
    requires forall i :: 0 <= i < |s| ==> IsDigit(s[i])
    ensures Span(s) == |s|
  {
  }

  // What putn writes getn reads, for every int.
  lemma GetnPutn(n: int)
    requires InInt(n)
    ensures Getn(Putn(n)) == Number(n)
  {
    hide Digits; hide Value; hide Span;
    var s := Digits(if n < 0 then -n else n);
    ValueDigits(if n < 0 then -n else n);
    SpanAll(s);
    assert ("-" + s)[1..] == s;
    WrapSame(n);
  }

  predicate AllDigits(s: string) {
    forall i :: 0 <= i < |s| ==> IsDigit(s[i])
  }

  // A number is a string of digits, with a sign in front of a digit or not: the
  // empty string is one, and +- is a sign too.
  ghost predicate Numeral(s: string, sign: string, ds: string) {
    s == sign + ds && sign in {"", "+", "-", "+-"} && AllDigits(ds) && (sign != "" ==> ds != "")
  }

  // Numbers are read, in the int that they come to, and nothing else is.
  lemma GetnReads(s: string, sign: string, ds: string)
    requires Numeral(s, sign, ds)
    ensures Getn(s) == Number(Wrap(if '-' in sign then -Value(ds) else Value(ds)))
  {
    hide Value; hide Wrap; hide Span;
    SpanAll(ds);
    assert sign != "" ==> s[|sign|..] == ds;
    assert sign == "+-" ==> s[1..] == "-" + ds && ("-" + ds)[1..] == ds;
    assert sign == "" ==> s == ds;
  }

  lemma GetnRefuses(s: string)
    ensures Getn(s).BadNumber? <==> !exists sign, ds :: Numeral(s, sign, ds)
  {
    hide Value; hide Wrap; hide Span;
    if Getn(s).Number? {
      var t := if |s| >= 2 && s[0] == '+' then s[1..] else s;
      var neg := t != "" && t[0] == '-';
      var ds := if neg then t[1..] else t;
      var sign := s[..|s| - |ds|];
      assert s == sign + ds;
      assert sign == (if |s| >= 2 && s[0] == '+' then "+" else "") + (if neg then "-" else "");
      assert sign == "" || sign == "+" || sign == "-" || sign == "+-";
      assert AllDigits(ds);
      assert Numeral(s, sign, ds);
    } else if sign, ds :| Numeral(s, sign, ds) {
      GetnReads(s, sign, ds);
    }
  }

  // ------------------------------------------------------------ the loops

  method PutNumber(n: int) returns (s: string)
    requires InInt(n)
    ensures s == Putn(n)
  {
    hide Digits;
    var n' := n;
    s := "";
    if n' < 0 {
      n' := Wrap(-n');
      s := "-";
    }
    if n' == -TWO31 {
      s := s + "2";
      n' := 147483648;
      MinInt();
    }
    s := s + Digits(n');
  }

  // n with a 2 in front of its digits.
  function WithTwo(n: nat): nat {
    if n <= 9 then 20 + n else WithTwo(n / 10) * 10 + n % 10
  }

  lemma {:induction false} WithTwoDigits(n: nat)
    ensures Digits(WithTwo(n)) == "2" + Digits(n)
  {
    if n <= 9 {
      assert Digits(2) == "2";
    } else {
      WithTwoDigits(n / 10);
    }
  }

  // The digits of the least int, which has no positive counterpart.
  lemma MinInt()
    ensures Digits(2147483648) == "2" + Digits(147483648)
  {
    hide Digits;
    assert WithTwo(147483648) == 2147483648;
    WithTwoDigits(147483648);
  }

  method GetNumber(cp: string) returns (r: Number)
    ensures r == Getn(cp)
  {
    hide Wrap; hide Value;
    var s := cp;
    WrapNull();
    if |s| >= 2 && s[0] == '+' {
      s := s[1..];
    }
    var sign := false;
    if s != "" && s[0] == '-' {
      sign := true;
      s := s[1..];
      if s == "" || !IsDigit(s[0]) {
        return BadNumber;
      }
    }
    var n, i := 0, 0;
    while i < |s| && IsDigit(s[i])
      invariant i <= |s| && forall j :: 0 <= j < i ==> IsDigit(s[j])
      invariant n == Wrap(Value(s[..i]))
    {
      ValueStep(s, i);
      WrapStep(Value(s[..i]), s[i] as int - '0' as int);
      n := Wrap(n * 10 + (s[i] as int - '0' as int));
      i := i + 1;
    }
    SpanIs(s, i);
    if i < |s| {
      return BadNumber;
    }
    assert s[..i] == s;
    WrapStep(Value(s), 0);
    return Number(if sign then Wrap(-n) else n);
  }

  lemma WrapNull()
    ensures Wrap(0) == 0 && Value("") == 0
  {
  }

  lemma ValueStep(s: string, i: nat)
    requires i < |s| && forall j :: 0 <= j <= i ==> IsDigit(s[j])
    ensures Value(s[..i + 1]) == Value(s[..i]) * 10 + (s[i] as int - '0' as int)
  {
    assert s[..i + 1][..i] == s[..i];
  }

  lemma {:induction false} SpanIs(s: string, i: nat)
    requires i <= |s| && (forall j :: 0 <= j < i ==> IsDigit(s[j])) && (i < |s| ==> !IsDigit(s[i]))
    ensures Span(s) == i
  {
    if i > 0 {
      SpanIs(s[1..], i - 1);
    }
  }
}
