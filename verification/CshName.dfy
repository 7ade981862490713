// Names of csh variables and how the tables order them.
module CshName {

  // A Char is a short; strings are held here without the NUL that ends them.
  type Char = c: int | -32768 <= c < 32768
  type Name = s: seq<Char> | forall i :: 0 <= i < |s| ==> s[i] != 0

  // What *s reads: the first character, or the final NUL.
  function First(s: Name): int {
    if s == [] then 0 else s[0] as int
  }

  // Strcmp: characters compare as numbers, but the end of a string is below
  // every character, even the negative ones.
  function Strcmp(a: Name, b: Name): int {
    if a != [] && b != [] && a[0] == b[0] then Strcmp(a[1..], b[1..])
    else if a == [] && b == [] then 0
    else if a == [] then -1
    else if b == [] then 1
    else a[0] as int - b[0] as int
  }

  method StrCmp(a: Name, b: Name) returns (r: int)
    ensures r == Strcmp(a, b)
  {
    var i := 0;
    while i < |a| && i < |b| && a[i] == b[i]
      invariant 0 <= i <= |a| && i <= |b|
      invariant Strcmp(a, b) == Strcmp(a[i..], b[i..])
    {
      i := i + 1;
    }
    if i == |a| && i == |b| {
      r := 0;
    } else if i == |a| {
      r := -1;
    } else if i == |b| {
      r := 1;
    } else {
      r := a[i] as int - b[i] as int;
    }
  }

  // The comparison of the tables: the difference of the first characters
  // (an empty name counting as NUL), and Strcmp where there is none.
  function Compare(a: Name, b: Name): int {
    if First(a) - First(b) != 0 then First(a) - First(b) else Strcmp(a, b)
  }

  predicate Less(a: Name, b: Name) {
    Compare(a, b) < 0
  }

  lemma {:induction false} StrcmpOrder(a: Name, b: Name)
    ensures Strcmp(a, b) == 0 <==> a == b
    ensures Strcmp(a, b) < 0 <==> Strcmp(b, a) > 0
  {
    if a != [] && b != [] && a[0] == b[0] {
      StrcmpOrder(a[1..], b[1..]);
      assert a == [a[0]] + a[1..] && b == [b[0]] + b[1..];
    }
  }

  lemma {:induction false} StrcmpTransitive(a: Name, b: Name, c: Name)
    requires Strcmp(a, b) < 0 && Strcmp(b, c) < 0
    ensures Strcmp(a, c) < 0
  {
    if a != [] && b != [] && c != [] && a[0] == b[0] == c[0] {
      StrcmpTransitive(a[1..], b[1..], c[1..]);
    }
  }

  // Less is a strict total order on all names.
  lemma LessIsTotalOrder(a: Name, b: Name, c: Name)
    ensures Compare(a, b) == 0 <==> a == b
    ensures Compare(a, b) > 0 <==> Less(b, a)
    ensures Less(a, b) && Less(b, c) ==> Less(a, c)
  {
    StrcmpOrder(a, b);
    StrcmpOrder(b, a);
    if Strcmp(a, b) < 0 && Strcmp(b, c) < 0 {
      StrcmpTransitive(a, b, c);
    }
  }

  // ------------------------------------------------------ which one is smaller

  // The names have k characters in common, and there a ends or has the smaller
  // character.
  predicate SmallerAt(a: Name, b: Name, k: nat) {
    && k <= |a| && k < |b| && (forall i :: 0 <= i < k ==> a[i] == b[i])
    && (k == |a| || a[k] < b[k])
  }

  // The order of names in terms of their characters: the empty name counts as
  // a NUL where the first characters are compared, in front of all names but
  // those that start with a negative character.
  ghost predicate Precedes(a: Name, b: Name) {
    if a == [] then b != [] && b[0] > 0
    else if b == [] then a[0] < 0
    else exists k: nat :: SmallerAt(a, b, k)
  }

  // The place where two names begin to differ decides Strcmp.
  lemma {:induction false} StrcmpAt(a: Name, b: Name) returns (k: nat)
    ensures k <= |a| && k <= |b| && forall i :: 0 <= i < k ==> a[i] == b[i]
    ensures k < |a| && k < |b| ==> a[k] != b[k]
    ensures Strcmp(a, b) < 0 <==> k < |b| && (k == |a| || a[k] < b[k])
  {
    if a != [] && b != [] && a[0] == b[0] {
      var h := StrcmpAt(a[1..], b[1..]);
      k := h + 1;
      assert forall i :: 0 < i < k ==> a[i] == a[1..][i - 1] && b[i] == b[1..][i - 1];
    } else {
      k := 0;
    }
  }

  lemma StrcmpSmaller(a: Name, b: Name)
    ensures Strcmp(a, b) < 0 <==> exists k: nat :: SmallerAt(a, b, k)
  {
    var k := StrcmpAt(a, b);
    if Strcmp(a, b) < 0 {
      assert SmallerAt(a, b, k);
    }
    if h: nat :| SmallerAt(a, b, h) {
      assert h == k;
    }
  }

  // The order of the tables is this one.
  lemma LessIs(a: Name, b: Name)
    ensures Less(a, b) <==> Precedes(a, b)
  {
    StrcmpSmaller(a, b);
    if a != [] && b != [] && a[0] != b[0] {
      if a[0] < b[0] {
        assert SmallerAt(a, b, 0);
      }
      if h: nat :| SmallerAt(a, b, h) {
        assert h == 0;
      }
    }
  }

  // The one that starts the other is the smaller one, unless it is empty.
  lemma PrefixPrecedes(a: Name, b: Name)
    requires a != [] && a < b
    ensures Precedes(a, b) && !Precedes(b, a)
  {
    assert SmallerAt(a, b, |a|);
    forall h: nat ensures !SmallerAt(b, a, h) {
    }
  }
}
