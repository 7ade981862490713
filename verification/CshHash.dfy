// The command hash of csh: a bit map that lets the search of a command skip
// components of the path.
module CshHash {
  import opened Basics
  import opened CshName

  const HSHSIZ := 8192
  const HSHMUL := 243
  const SLASH: Char := 47
  const DOT: Char := 46

  // hash: masking keeps the lower bits of a negative number, too.
  function Hash(a: int, b: int): (h: int)
    ensures 0 <= h < HSHSIZ
  {
    (a * HSHMUL + b) % HSHSIZ
  }

  function HashName(s: Name): int {
    if s == [] then 0 else Hash(HashName(s[..|s| - 1]), s[|s| - 1] as int)
  }

  method Hashname(cp: Name) returns (h: int)
    ensures h == HashName(cp)
  {
    h := 0;
    for i := 0 to |cp|
      invariant h == HashName(cp[..i])
    {
      assert cp[..i + 1][..i] == cp[..i];
      h := Hash(h, cp[i] as int);
    }
    assert cp[..|cp|] == cp;
  }

  // ------------------------------------------------------------------ bits

  predicate TestBit(b: nat, k: nat)
    decreases k
  {
    if k == 0 then b % 2 == 1 else TestBit(b / 2, k - 1)
  }

  function SetBit(b: nat, k: nat): nat
    decreases k
  {
    if k == 0 then b + 1 - b % 2 else 2 * SetBit(b / 2, k - 1) + b % 2
  }

  lemma {:induction false} SetTest(b: nat, k: nat, j: nat)
    ensures TestBit(SetBit(b, k), j) <==> j == k || TestBit(b, j)
    decreases k
  {
    var c := SetBit(b, k);
    if k == 0 {
      assert c / 2 == b / 2;
    } else {
      assert c / 2 == SetBit(b / 2, k - 1) && c % 2 == b % 2;
      if j > 0 {
        SetTest(b / 2, k - 1, j - 1);
      }
    }
  }

  lemma {:induction false} ZeroTest(j: nat)
    ensures !TestBit(0, j)
  {
    if j > 0 {
      ZeroTest(j - 1);
    }
  }

  // The bit b of the map h.
  predicate BitOf(h: seq<nat>, b: int)
    requires |h| == HSHSIZ / 8
  {
    0 <= b < HSHSIZ && TestBit(h[b / 8], b % 8)
  }

  // ----------------------------------------------------------- directories

  datatype Entry = Entry(ino: int, name: Name)

  // A component of the path and what opendir and readdir give for it.
  datatype Component = Component(dir: Name, readable: bool, entries: seq<Entry>)

  predicate Absolute(c: Component) {
    c.dir != [] && c.dir[0] == SLASH
  }

  // The entries that dohash passes over.
  predicate Skipped(e: Entry) {
    e.ino == 0 || e.name == [DOT] || e.name == [DOT, DOT]
  }

  predicate Lists(c: Component, name: Name) {
    Absolute(c) && c.readable && exists k :: 0 <= k < |c.entries| && !Skipped(c.entries[k]) && c.entries[k].name == name
  }

  // The bit for a name in the i-th component.
  function Spot(name: Name, i: nat): int {
    Hash(HashName(name), i)
  }

  // Some name of the first n components, or of the first m entries of the
  // component behind them, has the bit b.
  ghost predicate Claimed(path: seq<Component>, n: nat, m: nat, b: int)
    requires n <= |path| && (m > 0 ==> n < |path| && m <= |path[n].entries|)
  {
    || (exists i, k :: 0 <= i < n && 0 <= k < |path[i].entries| && Marks(path[i], k, i, b))
    || (exists k :: 0 <= k < m && Marks(path[n], k, n, b))
  }

  predicate Marks(c: Component, k: nat, i: nat, b: int)
    requires k < |c.entries|
  {
    Absolute(c) && c.readable && !Skipped(c.entries[k]) && Spot(c.entries[k].name, i) == b
  }

  class Shell {
    const xhash: array<nat>
    var havhash: bool

    ghost predicate Valid()
      reads this, xhash
    {
      xhash.Length == HSHSIZ / 8
    }

    constructor ()
      ensures Valid() && !havhash && fresh(xhash)
    {
      xhash := new nat[HSHSIZ / 8](i => 0);
      havhash := false;
    }

    // bis
    method Bis(b: int)
      requires Valid() && 0 <= b < HSHSIZ
      modifies xhash
      ensures Valid() && forall j :: BitOf(xhash[..], j) <==> j == b || old(BitOf(xhash[..], j))
    {
      ghost var h := xhash[..];
      xhash[b / 8] := SetBit(xhash[b / 8], b % 8);
      assert xhash[..] == h[b / 8 := SetBit(h[b / 8], b % 8)];
      forall j ensures BitOf(xhash[..], j) <==> j == b || BitOf(h, j) {
        if 0 <= j < HSHSIZ && j / 8 == b / 8 {
          SetTest(h[b / 8], b % 8, j % 8);
          assert j == 8 * (j / 8) + j % 8 && b == 8 * (b / 8) + b % 8;
        }
      }
    }

    // dohash: exactly the bits of the names that are listed get set
    method Dohash(path: seq<Component>)
      requires Valid()
      modifies this`havhash, xhash
      ensures Valid() && havhash
      ensures forall b :: BitOf(xhash[..], b) <==> Claimed(path, |path|, 0, b)
    {
      havhash := true;
      Clear();
      var i := 0;
      while i < |path|
        invariant 0 <= i <= |path| && Valid()
        invariant forall b :: BitOf(xhash[..], b) <==> Claimed(path, i, 0, b)
        modifies xhash
      {
        var c := path[i];
        if Absolute(c) && c.readable {
          var k := 0;
          while k < |c.entries|
            invariant 0 <= k <= |c.entries| && Valid()
            invariant forall b :: BitOf(xhash[..], b) <==> Claimed(path, i, k, b)
          {
            var dp := c.entries[k];
            ghost var h0 := xhash[..];
            assert forall b :: BitOf(h0, b) <==> Claimed(path, i, k, b);
            if !(dp.ino == 0 || dp.name == [DOT] || dp.name == [DOT, DOT]) {
              var h := Hashname(dp.name);
              Bis(Hash(h, i));
            }
            assert forall b :: BitOf(xhash[..], b) <==> BitOf(h0, b) || Marks(c, k, i, b);
            forall b ensures Claimed(path, i, k + 1, b) <==> Claimed(path, i, k, b) || Marks(c, k, i, b) {
              EntryStep(path, i, k, b);
            }
            k := k + 1;
          }
        } else {
          forall b ensures Claimed(path, i, |c.entries|, b) <==> Claimed(path, i, 0, b) {
            Passed(path, i, b);
          }
        }
        assert forall b :: BitOf(xhash[..], b) <==> Claimed(path, i, |c.entries|, b);
        forall b ensures Claimed(path, i + 1, 0, b) <==> Claimed(path, i, |c.entries|, b) {
          ComponentStep(path, i, b);
        }
        i := i + 1;
      }
    }

    method Clear()
      requires Valid()
      modifies xhash
      ensures Valid() && forall b :: !BitOf(xhash[..], b)
    {
      var cnt := 0;
      while cnt < xhash.Length
        invariant 0 <= cnt <= xhash.Length && forall j :: 0 <= j < cnt ==> xhash[j] == 0
      {
        xhash[cnt] := 0;
        cnt := cnt + 1;
      }
      forall b ensures !BitOf(xhash[..], b) {
        if 0 <= b < HSHSIZ {
          ZeroTest(b % 8);
        }
      }
    }
  }

  lemma EntryStep(path: seq<Component>, i: nat, k: nat, b: int)
    requires i < |path| && k < |path[i].entries|
    ensures Claimed(path, i, k + 1, b) <==> Claimed(path, i, k, b) || Marks(path[i], k, i, b)
  {
  }

  lemma Passed(path: seq<Component>, i: nat, b: int)
    requires i < |path| && !(Absolute(path[i]) && path[i].readable)
    ensures Claimed(path, i, |path[i].entries|, b) <==> Claimed(path, i, 0, b)
  {
  }

  lemma ComponentStep(path: seq<Component>, i: nat, b: int)
    requires i < |path|
    ensures Claimed(path, i + 1, 0, b) <==> Claimed(path, i, |path[i].entries|, b)
  {
  }

  // ---------------------------------------------------------------- search

  // Where the search of doexec ends: the first component in which the command
  // can be executed, or the length of the path.
  function FirstIn(ok: nat -> bool, i: nat, n: nat): (j: nat)
    requires i <= n
    ensures i <= j <= n && (j < n ==> ok(j)) && forall h :: i <= h < j ==> !ok(h)
    decreases n - i
  {
    if i == n || ok(i) then i else FirstIn(ok, i + 1, n)
  }

  // A name that dohash saw in its component is not skipped.
  lemma NotHidden(path: seq<Component>, name: Name, i: nat)
    requires i < |path| && Lists(path[i], name)
    ensures Claimed(path, |path|, 0, Spot(name, i))
  {
    var c := path[i];
    var k :| 0 <= k < |c.entries| && !Skipped(c.entries[k]) && c.entries[k].name == name;
    assert Marks(path[i], k, i, Spot(name, i));
  }

  // The path variable, where it is set.
  type Path = Option<seq<Component>>

  // v->vec of the path variable, or nothing where there is none.
  function Words(v: Path): seq<Component> {
    if v.Some? then v.value else []
  }

  // The components that doexec tries: none for an empty name, and without a
  // path variable none for a name that does not start with a slash; for an
  // empty path, or a name with a slash, the empty one only, which stands for
  // the name as it is.
  function Tried(v: Path, name: Name): (pv: seq<Component>) {
    if name == [] || (v.None? && name[0] != SLASH) then []
    else if Words(v) == [] || SLASH in name then [Component([], false, [])]
    else v.value
  }

  // A name with a slash is looked up in no path: whatever the paths are, it is
  // tried once, as it is, and the hash does not hide it.
  lemma SlashTried(v: Path, w: Path, name: Name, havhash: bool, xhash: seq<nat>)
    requires SLASH in name && |xhash| == HSHSIZ / 8 && (name[0] == SLASH || (v.Some? && w.Some?))
    ensures var pv := Tried(v, name);
      pv == Tried(w, name) && |pv| == 1 && pv[0].dir == [] && !Skips(havhash, xhash, pv, name, 0)
  {
  }

  // Any other name is tried in every component of the path, in their order, and
  // as it is only where the path is empty.
  lemma PathTried(v: Path, name: Name)
    requires SLASH !in name && name != []
    ensures var pv, path := Tried(v, name), Words(v);
      && (forall h :: 0 <= h < |path| ==> h < |pv| && pv[h] == path[h])
      && |pv| == (if path != [] then |path| else if v.Some? then 1 else 0)
  {
  }

  // The hash lets the search pass over the h-th component.
  predicate Skips(havhash: bool, xhash: seq<nat>, pv: seq<Component>, name: Name, h: nat)
    requires |xhash| == HSHSIZ / 8 && h < |pv|
  {
    havhash && SLASH !in name && Absolute(pv[h]) && !BitOf(xhash, Spot(name, h))
  }

  // doexec up to its loop over the path, and the loop; ok(i) if execve succeeds
  // for the i-th component that is tried, of which it does not return
  method Doexec(sh: Shell, v: Path, name: Name, ok: nat -> bool) returns (found: nat)
    requires sh.Valid()
    ensures var pv := Tried(v, name);
      && found <= |pv|
      && (found < |pv| ==> ok(found) && !Skips(sh.havhash, sh.xhash[..], pv, name, found))
      && forall h :: 0 <= h < found ==> Skips(sh.havhash, sh.xhash[..], pv, name, h) || !ok(h)
  {
    if v.None? && (name == [] || name[0] != SLASH) {
      return 0;
    }
    var slash := SLASH in name;
    if name == [] {
      return 0;
    }
    var pv := if v.None? || v.value == [] || slash then [Component([], false, [])] else v.value;
    var hashval := 0;
    if sh.havhash {
      hashval := Hashname(name);
    }
    var i := 0;
    while true
      invariant 0 <= i < |pv|
      invariant forall h :: 0 <= h < i ==> Skips(sh.havhash, sh.xhash[..], pv, name, h) || !ok(h)
      decreases |pv| - i
    {
      var skip := false;
      if !slash && Absolute(pv[i]) && sh.havhash {
        var hashval1 := Hash(hashval, i);
        skip := !TestBit(sh.xhash[hashval1 / 8], hashval1 % 8);
      }
      if !skip && ok(i) {
        return i;
      }
      i := i + 1;
      if i == |pv| {
        return i;
      }
    }
  }

  // After dohash the command is found where the search without the hash finds
  // it, exactly if that component is looked up without the hash or its bit for
  // the name is set; so it is, for every path and name, over directories that
  // have not changed and can be read.
  method HashedSearch(v: Path, name: Name, ok: nat -> bool) returns (found: nat)
    ensures var pv, path := Tried(v, name), Words(v);
      var f := FirstIn(ok, 0, |pv|);
      && (found == f <==>
          f == |pv| || SLASH in name || !Absolute(pv[f]) || Claimed(path, |path|, 0, Spot(name, f)))
      && ((forall i :: 0 <= i < |path| && Absolute(path[i]) && ok(i) ==> Lists(path[i], name)) ==> found == f)
  {
    var sh := new Shell();
    sh.Dohash(Words(v));
    found := Doexec(sh, v, name, ok);
    ghost var pv := Tried(v, name);
    ghost var f := FirstIn(ok, 0, |pv|);
    if f < |pv| && SLASH !in name && Absolute(pv[f]) && Lists(pv[f], name) {
      NotHidden(pv, name, f);
    }
  }
}
