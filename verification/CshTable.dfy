// What the trees of csh's variable tables mean: sorted entries, the map they
// stand for, and how high the trees can be.
module CshTable {
  import opened CshName
  import opened CshPower
  import opened CshTree

  ghost predicate Sorted(s: seq<Entry>) {
    forall i, j :: 0 <= i < j < |s| ==> Less(s[i].name, s[j].name)
  }

  ghost predicate Below(s: seq<Entry>, n: Name) {
    forall i :: 0 <= i < |s| ==> Less(s[i].name, n)
  }

  ghost predicate Above(s: seq<Entry>, n: Name) {
    forall i :: 0 <= i < |s| ==> Less(n, s[i].name)
  }

  // Every entry comes in front of those that follow it.
  ghost predicate Ordered(s: seq<Entry>) {
    forall i, j :: 0 <= i < j < |s| ==> Precedes(s[i].name, s[j].name)
  }

  lemma SortedOrdered(s: seq<Entry>)
    ensures Sorted(s) <==> Ordered(s)
  {
    forall i, j | 0 <= i < j < |s| ensures Less(s[i].name, s[j].name) <==> Precedes(s[i].name, s[j].name) {
      LessIs(s[i].name, s[j].name);
    }
  }

  // The variables and their values.
  ghost function Contents(s: seq<Entry>): map<Name, Vec> {
    if s == [] then map[] else Contents(s[..|s| - 1])[s[|s| - 1].name := s[|s| - 1].vec]
  }

  // A tree that is a table: ordered by name and balanced.
  ghost predicate Table<T>(t: Tree<T>) {
    Avl(t) && Sorted(InOrder(t))
  }

  ghost function Vars<T>(t: Tree<T>): map<Name, Vec> {
    Contents(InOrder(t))
  }

  lemma {:induction false} ContentsAt(s: seq<Entry>, n: Name)
    requires Sorted(s)
    ensures n in Contents(s) <==> exists i :: 0 <= i < |s| && s[i].name == n
    ensures forall i :: 0 <= i < |s| && s[i].name == n ==> n in Contents(s) && Contents(s)[n] == s[i].vec
  {
    if s != [] {
      var k := |s| - 1;
      ContentsAt(s[..k], n);
      if n == s[k].name {
        forall i | 0 <= i < k ensures s[i].name != n {
          LessIsTotalOrder(s[i].name, s[k].name, n);
        }
      } else {
        assert forall i :: 0 <= i < k ==> s[i] == s[..k][i];
      }
    }
  }

  lemma SortedParts(a: seq<Entry>, e: Entry, b: seq<Entry>)
    ensures Sorted(a + [e] + b) <==> Sorted(a + b) && Below(a, e.name) && Above(b, e.name)
  {
    var s := a + [e] + b;
    assert s[|a|] == e;
    if Sorted(s) {
      forall i, j | 0 <= i < j < |a + b| ensures Less((a + b)[i].name, (a + b)[j].name) {
        assert (a + b)[i] == s[if i < |a| then i else i + 1];
        assert (a + b)[j] == s[if j < |a| then j else j + 1];
      }
      forall i | 0 <= i < |a| ensures Less(a[i].name, e.name) {
        assert s[i] == a[i];
      }
      forall i | 0 <= i < |b| ensures Less(e.name, b[i].name) {
        assert s[|a| + 1 + i] == b[i];
      }
    }
    if Sorted(a + b) && Below(a, e.name) && Above(b, e.name) {
      forall i, j | 0 <= i < j < |s| ensures Less(s[i].name, s[j].name) {
        if i != |a| && j != |a| {
          assert s[i] == (a + b)[if i < |a| then i else i - 1];
          assert s[j] == (a + b)[if j < |a| then j else j - 1];
        }
      }
    }
  }

  lemma PartsAt(a: seq<Entry>, e: Entry, b: seq<Entry>, n: Name)
    requires Sorted(a + [e] + b) && Sorted(a + b)
    ensures n in Contents(a + [e] + b) <==> n in Contents(a + b) || n == e.name
    ensures n in Contents(a + b) && n != e.name ==> Contents(a + [e] + b)[n] == Contents(a + b)[n]
    ensures e.name in Contents(a + [e] + b) && Contents(a + [e] + b)[e.name] == e.vec
  {
    hide Sorted; hide Contents;
    var s, s' := a + [e] + b, a + b;
    ContentsAt(s, n);
    ContentsAt(s', n);
    ContentsAt(s, e.name);
    assert s[|a|] == e;
    if i :| 0 <= i < |s'| && s'[i].name == n {
      assert s'[i] == s[if i < |a| then i else i + 1];
    }
    if i :| 0 <= i < |s| && s[i].name == n && i != |a| {
      assert s[i] == s'[if i < |a| then i else i - 1];
    }
  }

  // Putting an entry in its place sets a key, taking it out removes the key.
  lemma ContentsParts(a: seq<Entry>, e: Entry, b: seq<Entry>)
    requires Sorted(a + [e] + b)
    ensures Sorted(a + b) && e.name !in Contents(a + b)
    ensures Contents(a + [e] + b) == Contents(a + b)[e.name := e.vec]
  {
    var s, s' := a + [e] + b, a + b;
    SortedParts(a, e, b);
    forall i | 0 <= i < |s'| ensures s'[i].name != e.name {
      assert s'[i] == if i < |a| then a[i] else b[i - |a|];
      LessIsTotalOrder(s'[i].name, e.name, e.name);
    }
    ContentsAt(s', e.name);
    hide Sorted; hide Contents;
    PartsAt(a, e, b, e.name);
    forall n ensures n in Contents(s) <==> n in Contents(s') || n == e.name
      ensures n in Contents(s') ==> Contents(s)[n] == Contents(s')[n]
    {
      PartsAt(a, e, b, n);
    }
  }

  // ------------------------------------------------------------- height

  function Fib(n: nat): nat {
    if n < 2 then n else Fib(n - 1) + Fib(n - 2)
  }

  lemma {:induction false} FibMonotone(m: nat, n: nat)
    requires m <= n
    ensures Fib(m) <= Fib(n)
    decreases n - m
  {
    if m < n {
      FibMonotone(m + 1, n);
    }
  }

  // A table of height h has at least Fib(h + 2) - 1 entries.
  lemma {:induction false} HeightBound<T>(t: Tree<T>)
    requires Avl(t)
    ensures Size(t) + 1 >= Fib(Height(t) + 2)
  {
    if t.Node? {
      HeightBound(t.left);
      HeightBound(t.right);
      var h := Height(t);
      FibMonotone(h, Height(t.left) + 2);
      FibMonotone(h, Height(t.right) + 2);
      assert Fib(h + 2) == Fib(h + 1) + Fib(h);
    }
  }

  lemma {:induction false} FibPow(h: nat)
    ensures Fib(h + 2) >= Pow2(h / 2)
  {
    if h >= 2 {
      FibPow(h - 2);
      FibMonotone(h, h + 1);
    }
  }

  // So its height is at most twice the logarithm of the number of entries.
  lemma HeightLogarithmic<T>(t: Tree<T>)
    requires Avl(t)
    ensures Pow2(Height(t) / 2) <= Size(t) + 1
  {
    HeightBound(t);
    FibPow(Height(t));
  }

  lemma {:induction false} SizeIsCount<T>(t: Tree<T>)
    ensures |InOrder(t)| == Size(t)
  {
    if t.Node? {
      SizeIsCount(t.left);
      SizeIsCount(t.right);
    }
  }
}
