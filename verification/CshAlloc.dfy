// The csh storage allocator: power-of-two blocks on one free list a size.
module CshAlloc {
  import opened CshPower
  import opened CshBucket
  import opened Machine

  const MAGIC := 0xfd

  // The first word of a block: the next free block or, in use, the magic
  // number and the bucket in its lower two bytes.
  function Magic(w: int): int {
    w % 256
  }

  function Index(w: int): int {
    w / 256 % 256
  }

  // ov_magic = MAGIC and ov_index = bucket leave the upper bytes alone.
  function InUse(w: int, bucket: nat): int {
    w / 0x1_0000 * 0x1_0000 + 256 * bucket + MAGIC
  }

  lemma InUseReads(w: int, bucket: nat)
    requires 0 <= w < WORD && bucket < NBUCKETS
    ensures Magic(InUse(w, bucket)) == MAGIC && Index(InUse(w, bucket)) == bucket
    ensures 0 <= InUse(w, bucket) < WORD
  {
    var h := w / 0x1_0000;
    assert InUse(w, bucket) == 256 * (256 * h + bucket) + MAGIC;
  }

  // The header words; memory that nobody wrote is zero.
  type Words = map<int, int>

  function At(words: Words, a: int): int {
    if a in words then words[a] else 0
  }

  function Nth(l: seq<int>, i: int): int {
    if 0 <= i < |l| then l[i] else 0
  }

  // The blocks cut so far with their buckets, and those in use.
  datatype Books = Books(carved: map<int, nat>, live: set<int>)

  function InBucket(s: set<int>, k: Books, b: nat): set<int> {
    set a | a in s && a in k.carved && k.carved[a] == b
  }

  // The free list of bucket b starts at head and is l.
  ghost predicate ListOK(words: Words, head: int, l: seq<int>, b: nat, k: Books) {
    && head == Nth(l, 0)
    && (forall i :: 0 <= i < |l| ==> At(words, l[i]) == Nth(l, i + 1))
    && (forall i, j :: 0 <= i < j < |l| ==> l[i] != l[j])
    && (forall i :: 0 <= i < |l| ==> l[i] in k.carved && k.carved[l[i]] == b && l[i] !in k.live)
  }

  ghost predicate ListsOK(words: Words, nextf: seq<int>, free: seq<seq<int>>, k: Books) {
    && |nextf| == |free| == NBUCKETS
    && forall b :: 0 <= b < NBUCKETS ==> ListOK(words, nextf[b], free[b], b, k)
  }

  // Blocks lie on 8-byte boundaries between lo and hi and do not overlap.
  ghost predicate Apart(a: int, c: int, k: Books)
    requires a in k.carved && c in k.carved
  {
    a + BlockSize(k.carved[a]) <= c || c + BlockSize(k.carved[c]) <= a
  }

  ghost predicate Layout(k: Books, lo: int, hi: int) {
    && 0 < lo && hi <= WORD
    && (forall a :: a in k.carved ==> lo <= a && a % 8 == 0 && a + BlockSize(k.carved[a]) <= hi)
    && (forall a, c :: a in k.carved && c in k.carved && a != c ==> Apart(a, c, k))
  }

  // Every block is in use or on the free list of its bucket.
  ghost predicate Covered(free: seq<seq<int>>, k: Books) {
    && |free| == NBUCKETS && k.live <= k.carved.Keys
    && forall a :: a in k.carved ==> k.carved[a] < NBUCKETS && (a in k.live || a in free[k.carved[a]])
  }

  ghost predicate Headers(words: Words, k: Books) {
    && words.Keys <= k.carved.Keys
    && (forall a :: a in words ==> 0 <= words[a] < WORD)
    && (forall a :: a in k.live ==> a in words && Magic(words[a]) == MAGIC && Index(words[a]) == k.carved[a])
  }

  ghost predicate Counts(nmalloc: seq<int>, k: Books) {
    && |nmalloc| == NBUCKETS
    && forall b :: 0 <= b < NBUCKETS ==> nmalloc[b] == |InBucket(k.live, k, b)|
  }

  ghost predicate StoreOK(words: Words, nextf: seq<int>, nmalloc: seq<int>, free: seq<seq<int>>, k: Books, lo: int, hi: int) {
    && ListsOK(words, nextf, free, k) && Layout(k, lo, hi) && Covered(free, k)
    && Headers(words, k) && Counts(nmalloc, k)
  }

  // -------------------------------------------------- what the state means

  // The header of a free block does not look like that of one in use.
  lemma FreeHeader(words: Words, head: int, l: seq<int>, b: nat, k: Books, lo: int, hi: int, i: nat)
    requires ListOK(words, head, l, b, k) && Layout(k, lo, hi) && i < |l|
    ensures Magic(At(words, l[i])) != MAGIC && l[i] > 0 && l[i] % 8 == 0
    ensures 0 <= At(words, l[i]) < WORD
  {
    hide Magic; hide At;
    var w := At(words, l[i]);
    assert w == Nth(l, i + 1);
    if i + 1 < |l| {
      BelowTop(l[i + 1], k, lo, hi);
    }
    NoMagic(w);
  }

  lemma BelowTop(a: int, k: Books, lo: int, hi: int)
    requires Layout(k, lo, hi) && a in k.carved
    ensures 0 < a < WORD && a % 8 == 0
  {
    PowMonotone(3, k.carved[a] + 3);
  }

  // A pointer to a block has another lower byte than the magic number.
  lemma NoMagic(w: int)
    requires w % 8 == 0
    ensures Magic(w) != MAGIC
  {
    assert w == 256 * (w / 256) + w % 256;
  }

  lemma InWords(words: Words, p: int, k: Books)
    requires Headers(words, k) && p in k.live && p in k.carved
    ensures Magic(At(words, p)) == MAGIC && Index(At(words, p)) == k.carved[p]
  {
  }

  // The sizes of bucket b: nmalloc and the free list make up all its blocks.
  lemma Conserved(words: Words, nextf: seq<int>, nmalloc: seq<int>, free: seq<seq<int>>, k: Books, lo: int, hi: int, b: nat)
    requires StoreOK(words, nextf, nmalloc, free, k, lo, hi) && b < NBUCKETS
    ensures nmalloc[b] + |free[b]| == |InBucket(k.carved.Keys, k, b)|
  {
    var l := free[b];
    assert ListOK(words, nextf[b], l, b, k);
    var f := Elements(l);
    ElementsCount(l);
    forall a ensures a in InBucket(k.carved.Keys, k, b) <==> a in InBucket(k.live, k, b) || a in f {
    }
    assert InBucket(k.carved.Keys, k, b) == InBucket(k.live, k, b) + f;
    assert InBucket(k.live, k, b) !! f;
  }

  function Elements(l: seq<int>): set<int> {
    set x | x in l
  }

  lemma {:induction false} ElementsCount(l: seq<int>)
    requires forall i, j :: 0 <= i < j < |l| ==> l[i] != l[j]
    ensures |Elements(l)| == |l|
  {
    if l != [] {
      var r := l[..|l| - 1];
      ElementsCount(r);
      assert Elements(l) == Elements(r) + {l[|l| - 1]};
    }
  }

  // ------------------------------------------------------------ transitions

  // A list none of whose blocks is written, carved or taken stays a list.
  lemma ListKept(words: Words, words': Words, head: int, l: seq<int>, b: nat, k: Books, k': Books)
    requires ListOK(words, head, l, b, k)
    requires forall a :: a in k.carved && k.carved[a] == b && a !in k.live ==>
      At(words', a) == At(words, a) && a in k'.carved && k'.carved[a] == b && a !in k'.live
    ensures ListOK(words', head, l, b, k')
  {
  }

  // One element joins or leaves a bucket.
  lemma Joined(k: Books, p: int, b: nat)
    requires p in k.carved && p !in k.live
    ensures |InBucket(k.live + {p}, k, b)| == |InBucket(k.live, k, b)| + if k.carved[p] == b then 1 else 0
  {
    if k.carved[p] == b {
      assert InBucket(k.live + {p}, k, b) == InBucket(k.live, k, b) + {p};
    } else {
      assert InBucket(k.live + {p}, k, b) == InBucket(k.live, k, b);
    }
  }

  // The first block of the list of bucket b is put to use.
  lemma TakeLists(words: Words, nextf: seq<int>, free: seq<seq<int>>, k: Books, b: nat, x: int)
    requires ListsOK(words, nextf, free, k) && b < NBUCKETS && nextf[b] != 0
    ensures var p := nextf[b];
      && free[b] != [] && free[b][0] == p && p in k.carved && k.carved[p] == b && p !in k.live
      && ListsOK(words[p := x], nextf[b := At(words, p)], free[b := free[b][1..]], k.(live := k.live + {p}))
  {
    assert ListOK(words, nextf[b], free[b], b, k);
    var p := nextf[b];
    var k' := k.(live := k.live + {p});
    assert ListOK(words[p := x], At(words, p), free[b][1..], b, k');
    forall c | 0 <= c < NBUCKETS && c != b ensures ListOK(words[p := x], nextf[c], free[c], c, k') {
      ListKept(words, words[p := x], nextf[c], free[c], c, k, k');
    }
  }

  lemma Take(words: Words, nextf: seq<int>, nmalloc: seq<int>, free: seq<seq<int>>, k: Books, lo: int, hi: int, b: nat)
    requires StoreOK(words, nextf, nmalloc, free, k, lo, hi) && b < NBUCKETS && nextf[b] != 0
    ensures var p := nextf[b];
      && free[b] != [] && free[b][0] == p && p in k.carved && k.carved[p] == b && p !in k.live
      && StoreOK(words[p := InUse(At(words, p), b)], nextf[b := At(words, p)], nmalloc[b := nmalloc[b] + 1],
           free[b := free[b][1..]], k.(live := k.live + {p}), lo, hi)
  {
    hide ListOK; hide InUse; hide Layout; hide Magic; hide Index;
    var p := nextf[b];
    var x := InUse(At(words, p), b);
    TakeLists(words, nextf, free, k, b, x);
    InUseReads(At(words, p), b);
    forall c | 0 <= c < NBUCKETS ensures nmalloc[b := nmalloc[b] + 1][c] == |InBucket(k.live + {p}, k, c)| {
      Joined(k, p, c);
    }
    LiveOnly(nmalloc[b := nmalloc[b] + 1], k, k.live + {p});
    LayoutLive(k, k.live + {p}, lo, hi);
  }

  lemma LayoutLive(k: Books, live: set<int>, lo: int, hi: int)
    requires Layout(k, lo, hi)
    ensures Layout(k.(live := live), lo, hi)
  {
    var k' := k.(live := live);
    forall a, c | a in k'.carved && c in k'.carved && a != c ensures Apart(a, c, k') {
      assert Apart(a, c, k);
    }
  }

  lemma LiveOnly(nmalloc: seq<int>, k: Books, live: set<int>)
    requires |nmalloc| == NBUCKETS
    requires forall b :: 0 <= b < NBUCKETS ==> nmalloc[b] == |InBucket(live, k, b)|
    ensures Counts(nmalloc, k.(live := live))
  {
    forall b | 0 <= b < NBUCKETS ensures nmalloc[b] == |InBucket(live, k.(live := live), b)| {
      assert InBucket(live, k.(live := live), b) == InBucket(live, k, b);
    }
  }

  // A block in use goes to the head of the list of its bucket.
  lemma GiveLists(words: Words, nextf: seq<int>, free: seq<seq<int>>, k: Books, p: int)
    requires ListsOK(words, nextf, free, k) && p in k.live && p in k.carved && k.carved[p] < NBUCKETS
    ensures var b := k.carved[p];
      ListsOK(words[p := nextf[b]], nextf[b := p], free[b := [p] + free[b]], k.(live := k.live - {p}))
  {
    var b := k.carved[p];
    assert ListOK(words, nextf[b], free[b], b, k);
    var k', words' := k.(live := k.live - {p}), words[p := nextf[b]];
    var l := [p] + free[b];
    assert ListOK(words', p, l, b, k') by {
      assert forall i :: 1 <= i < |l| ==> l[i] == free[b][i - 1];
      assert forall i :: 0 <= i < |l| ==> Nth(l, i + 1) == Nth(free[b], i);
    }
    forall c | 0 <= c < NBUCKETS && c != b ensures ListOK(words', nextf[c], free[c], c, k') {
      ListKept(words, words', nextf[c], free[c], c, k, k');
    }
  }

  lemma Give(words: Words, nextf: seq<int>, nmalloc: seq<int>, free: seq<seq<int>>, k: Books, lo: int, hi: int, p: int)
    requires StoreOK(words, nextf, nmalloc, free, k, lo, hi) && p in k.live
    ensures p in k.carved && k.carved[p] < NBUCKETS
    ensures var b := k.carved[p];
      StoreOK(words[p := nextf[b]], nextf[b := p], nmalloc[b := nmalloc[b] - 1],
        free[b := [p] + free[b]], k.(live := k.live - {p}), lo, hi)
  {
    hide ListsOK; hide Layout; hide Magic; hide Index;
    var b := k.carved[p];
    GiveLists(words, nextf, free, k, p);
    HeadFits(words, nextf, free, k, lo, hi, b);
    var rest := k.(live := k.live - {p});
    forall c | 0 <= c < NBUCKETS ensures nmalloc[b := nmalloc[b] - 1][c] == |InBucket(k.live - {p}, k, c)| {
      Joined(rest, p, c);
      assert rest.live + {p} == k.live;
      assert InBucket(k.live, rest, c) == InBucket(k.live, k, c);
      assert InBucket(rest.live, rest, c) == InBucket(rest.live, k, c);
    }
    LiveOnly(nmalloc[b := nmalloc[b] - 1], k, k.live - {p});
    LayoutLive(k, k.live - {p}, lo, hi);
  }

  lemma HeadFits(words: Words, nextf: seq<int>, free: seq<seq<int>>, k: Books, lo: int, hi: int, b: nat)
    requires ListsOK(words, nextf, free, k) && Layout(k, lo, hi) && b < NBUCKETS
    ensures 0 <= nextf[b] < WORD
  {
    assert ListOK(words, nextf[b], free[b], b, k);
    if free[b] != [] {
      BelowTop(free[b][0], k, lo, hi);
    }
  }

  // --------------------------------------------------------------- morecore

  // n blocks of siz bytes from op on.
  function Blocks(op: int, siz: nat, n: nat): (s: seq<int>)
    ensures |s| == n
    decreases n
  {
    if n == 0 then [] else [op] + Blocks(op + siz, siz, n - 1)
  }

  lemma {:induction false} BlocksAt(op: int, siz: nat, n: nat, i: nat)
    requires i < n
    ensures Blocks(op, siz, n)[i] == op + i * siz
    decreases n
  {
    if i > 0 {
      BlocksAt(op + siz, siz, n - 1, i - 1);
      assert i * siz == siz + (i - 1) * siz;
    }
  }

  // Blocks do not overlap and fill the space between op and its end.
  lemma BlocksApart(op: int, siz: nat, n: nat)
    requires op % 8 == 0 && siz % 8 == 0
    ensures forall i, j :: 0 <= i < j < n ==> Blocks(op, siz, n)[i] + siz <= Blocks(op, siz, n)[j]
    ensures forall i :: 0 <= i < n ==> op <= Blocks(op, siz, n)[i] && Blocks(op, siz, n)[i] + siz <= op + n * siz
    ensures forall i :: 0 <= i < n ==> Blocks(op, siz, n)[i] % 8 == 0
  {
    hide Blocks;
    forall i | 0 <= i < n
      ensures Blocks(op, siz, n)[i] % 8 == 0 && op <= Blocks(op, siz, n)[i]
      ensures Blocks(op, siz, n)[i] + siz <= op + n * siz
    {
      BlockPlace(op, siz, n, i);
    }
    forall i, j | 0 <= i < j < n ensures Blocks(op, siz, n)[i] + siz <= Blocks(op, siz, n)[j] {
      BlocksAt(op, siz, n, i);
      BlocksAt(op, siz, n, j);
      Product(i, j, siz);
    }
  }

  lemma BlockPlace(op: int, siz: nat, n: nat, i: nat)
    requires op % 8 == 0 && siz % 8 == 0 && i < n
    ensures Blocks(op, siz, n)[i] % 8 == 0 && op <= Blocks(op, siz, n)[i]
    ensures Blocks(op, siz, n)[i] + siz <= op + n * siz
  {
    hide Blocks;
    BlocksAt(op, siz, n, i);
    Product(i, n, siz);
    Multiple(i, siz);
  }

  lemma Multiple(i: nat, siz: nat)
    requires siz % 8 == 0
    ensures i * siz % 8 == 0
  {
    assert i * siz == 8 * (i * (siz / 8));
  }

  lemma Product(i: nat, n: nat, siz: nat)
    requires i < n
    ensures 0 <= i * siz && i * siz + siz <= n * siz
  {
    assert n * siz == i * siz + (n - i) * siz;
    assert (n - i) * siz == siz + (n - i - 1) * siz;
  }

  // The books once the blocks l of bucket b are cut.
  function Cut(k: Books, l: seq<int>, b: nat): Books {
    k.(carved := k.carved + map a | a in l :: b)
  }

  // The headers once all of the blocks l but the last point to the next.
  function Linked(words: Words, l: seq<int>, n: nat): Words
    requires n < |l|
  {
    if n == 0 then words else Linked(words, l, n - 1)[l[n - 1] := l[n]]
  }

  // The first n of these headers are in w.
  ghost predicate LinksTo(words: Words, w: Words, l: seq<int>, n: nat)
    requires n < |l|
  {
    && (forall i :: 0 <= i < n ==> At(w, l[i]) == l[i + 1])
    && (forall i :: n <= i < |l| ==> At(w, l[i]) == At(words, l[i]))
    && (forall a :: a !in l ==> At(w, a) == At(words, a))
    && w.Keys <= words.Keys + Elements(l)
    && (forall a :: a in words && a !in l ==> a in w)
    && (forall a :: a in w ==> (a in words && w[a] == words[a]) || w[a] in l)
  }

  lemma LinkNone(words: Words, l: seq<int>)
    requires l != []
    ensures LinksTo(words, words, l, 0)
  {
  }

  lemma LinkOne(words: Words, w: Words, l: seq<int>, n: nat)
    requires n + 1 < |l| && (forall i, j :: 0 <= i < j < |l| ==> l[i] != l[j]) && LinksTo(words, w, l, n)
    ensures LinksTo(words, w[l[n] := l[n + 1]], l, n + 1)
  {
  }

  lemma {:induction false} LinkedAt(words: Words, l: seq<int>, n: nat)
    requires n < |l| && forall i, j :: 0 <= i < j < |l| ==> l[i] != l[j]
    ensures LinksTo(words, Linked(words, l, n), l, n)
  {
    hide LinksTo;
    if n == 0 {
      LinkNone(words, l);
    } else {
      LinkedAt(words, l, n - 1);
      LinkOne(words, Linked(words, l, n - 1), l, n - 1);
    }
  }

  // Fresh blocks l of an empty bucket b above everything that was cut.
  ghost predicate Fresh(l: seq<int>, b: nat, k: Books, lo: int, hi: int, hi': int) {
    && b < NBUCKETS && l != [] && hi <= hi' <= WORD
    && (forall i, j :: 0 <= i < j < |l| ==> l[i] + BlockSize(b) <= l[j])
    && (forall i :: 0 <= i < |l| ==> hi <= l[i] && lo <= l[i] && l[i] % 8 == 0 && l[i] + BlockSize(b) <= hi')
  }

  lemma CarveLayout(l: seq<int>, b: nat, k: Books, lo: int, hi: int, hi': int)
    requires Layout(k, lo, hi) && Fresh(l, b, k, lo, hi, hi')
    ensures Layout(Cut(k, l, b), lo, hi')
    ensures forall a :: a in l ==> a !in k.carved
  {
    hide BlockSize;
    var k' := Cut(k, l, b);
    forall a | a in l ensures a !in k.carved && a in k'.carved && k'.carved[a] == b {
      if a in k.carved {
        SizePositive(k.carved[a]);
      }
    }
    forall a, c | a in k'.carved && c in k'.carved && a != c ensures Apart(a, c, k') {
      if a in k.carved && c in k.carved {
        assert Apart(a, c, k);
      } else if a in l && c in l {
        InLine(l, b, a, c);
      }
    }
  }

  lemma InLine(l: seq<int>, b: nat, a: int, c: int)
    requires forall i, j :: 0 <= i < j < |l| ==> l[i] + BlockSize(b) <= l[j]
    requires a in l && c in l && a != c
    ensures a + BlockSize(b) <= c || c + BlockSize(b) <= a
  {
    var i :| 0 <= i < |l| && l[i] == a;
    var j :| 0 <= j < |l| && l[j] == c;
  }

  lemma CarveLists(words: Words, nextf: seq<int>, free: seq<seq<int>>, k: Books, l: seq<int>, b: nat)
    requires ListsOK(words, nextf, free, k) && b < NBUCKETS && free[b] == [] && l != []
    requires forall i, j :: 0 <= i < j < |l| ==> l[i] != l[j]
    requires words.Keys <= k.carved.Keys && k.live <= k.carved.Keys && forall a :: a in l ==> a !in k.carved
    ensures ListsOK(Linked(words, l, |l| - 1), nextf[b := l[0]], free[b := l], Cut(k, l, b))
  {
    hide Linked; hide ListOK; hide Cut;
    NewList(words, k, l, b);
    forall c | 0 <= c < NBUCKETS && c != b ensures ListOK(Linked(words, l, |l| - 1), nextf[c], free[c], c, Cut(k, l, b)) {
      OtherList(words, nextf[c], free[c], c, k, l, b);
    }
  }

  // The list of the fresh blocks, and those of the other buckets.
  lemma NewList(words: Words, k: Books, l: seq<int>, b: nat)
    requires l != [] && forall i, j :: 0 <= i < j < |l| ==> l[i] != l[j]
    requires words.Keys <= k.carved.Keys && k.live <= k.carved.Keys && forall a :: a in l ==> a !in k.carved
    ensures ListOK(Linked(words, l, |l| - 1), l[0], l, b, Cut(k, l, b))
  {
    hide Linked; hide LinksTo; hide ListOK; hide Cut;
    LinkedAt(words, l, |l| - 1);
    NewLinks(words, Linked(words, l, |l| - 1), l);
    NewBooks(k, l, b);
    assert l[|l| - 1] in l;
    LinkedList(Linked(words, l, |l| - 1), l, b, Cut(k, l, b));
  }

  lemma NewLinks(words: Words, w: Words, l: seq<int>)
    requires l != [] && LinksTo(words, w, l, |l| - 1) && l[|l| - 1] !in words
    ensures forall i :: 0 <= i < |l| ==> At(w, l[i]) == Nth(l, i + 1)
  {
  }

  lemma NewBooks(k: Books, l: seq<int>, b: nat)
    requires k.live <= k.carved.Keys && forall a :: a in l ==> a !in k.carved
    ensures var k' := Cut(k, l, b);
      forall i :: 0 <= i < |l| ==> l[i] in k'.carved && k'.carved[l[i]] == b && l[i] !in k'.live
  {
    forall i | 0 <= i < |l| ensures l[i] in Cut(k, l, b).carved && l[i] !in k.live {
      var a := l[i];
      assert a in l;
      assert a !in k.carved;
    }
  }

  lemma LinkedList(w: Words, l: seq<int>, b: nat, k: Books)
    requires l != [] && forall i, j :: 0 <= i < j < |l| ==> l[i] != l[j]
    requires forall i :: 0 <= i < |l| ==> At(w, l[i]) == Nth(l, i + 1)
    requires forall i :: 0 <= i < |l| ==> l[i] in k.carved && k.carved[l[i]] == b && l[i] !in k.live
    ensures ListOK(w, l[0], l, b, k)
  {
    hide At;
  }

  lemma OtherList(words: Words, head: int, f: seq<int>, c: nat, k: Books, l: seq<int>, b: nat)
    requires ListOK(words, head, f, c, k) && c != b && l != []
    requires forall i, j :: 0 <= i < j < |l| ==> l[i] != l[j]
    requires forall a :: a in l ==> a !in k.carved
    ensures ListOK(Linked(words, l, |l| - 1), head, f, c, Cut(k, l, b))
  {
    hide Linked; hide ListOK; hide At;
    LinkedAt(words, l, |l| - 1);
    ListKept(words, Linked(words, l, |l| - 1), head, f, c, k, Cut(k, l, b));
  }

  lemma Carve(words: Words, nextf: seq<int>, nmalloc: seq<int>, free: seq<seq<int>>, k: Books, lo: int, hi: int,
              l: seq<int>, b: nat, hi': int)
    requires StoreOK(words, nextf, nmalloc, free, k, lo, hi) && Fresh(l, b, k, lo, hi, hi')
    requires nextf[b] == 0
    ensures StoreOK(Linked(words, l, |l| - 1), nextf[b := l[0]], nmalloc, free[b := l], Cut(k, l, b), lo, hi')
  {
    hide ListOK; hide Linked; hide Layout; hide Magic; hide Index;
    EmptyList(words, nextf, free, k, lo, hi, b);
    CarveLayout(l, b, k, lo, hi, hi');
    SizePositive(b);
    CarveLists(words, nextf, free, k, l, b);
    CarveHeaders(words, k, l, b, lo, hi');
    var k' := Cut(k, l, b);
    forall c | 0 <= c < NBUCKETS ensures nmalloc[c] == |InBucket(k'.live, k', c)| {
      assert InBucket(k'.live, k', c) == InBucket(k.live, k, c);
    }
  }

  lemma SizePositive(b: nat)
    ensures BlockSize(b) >= 8 && BlockSize(b) % 8 == 0
  {
    hide Pow2;
    PowSum(b, 3);
    PowMonotone(0, b);
    SmallPowers();
    Eights(Pow2(b));
  }

  lemma SmallPowers()
    ensures Pow2(0) == 1 && Pow2(3) == 8
  {
  }

  lemma Eights(n: int)
    ensures (n * 8) % 8 == 0
  {
  }

  lemma EmptyList(words: Words, nextf: seq<int>, free: seq<seq<int>>, k: Books, lo: int, hi: int, b: nat)
    requires ListsOK(words, nextf, free, k) && Layout(k, lo, hi) && b < NBUCKETS
    ensures nextf[b] == 0 <==> free[b] == []
  {
    assert ListOK(words, nextf[b], free[b], b, k);
    if free[b] != [] {
      BelowTop(free[b][0], k, lo, hi);
    }
  }

  lemma CarveHeaders(words: Words, k: Books, l: seq<int>, b: nat, lo: int, hi: int)
    requires Headers(words, k) && Layout(Cut(k, l, b), lo, hi) && k.live <= k.carved.Keys && l != []
    requires forall a :: a in l ==> a !in k.carved
    requires forall i, j :: 0 <= i < j < |l| ==> l[i] != l[j]
    ensures Headers(Linked(words, l, |l| - 1), Cut(k, l, b))
  {
    hide Linked; hide Magic; hide Index;
    LinkedAt(words, l, |l| - 1);
    forall a | a in l ensures 0 <= a < WORD {
      BelowTop(a, Cut(k, l, b), lo, hi);
    }
  }

  // What morecore asks for.
  function Taken(bucket: nat): nat {
    if bucket <= 8 then Pow2(11) else BlockSize(bucket)
  }

  // Blocks of the bucket, and only such, are new.
  ghost predicate Cutting(k: Books, k': Books, bucket: nat) {
    && k'.live == k.live && k.carved.Keys <= k'.carved.Keys
    && forall a :: a in k'.carved ==> if a in k.carved then k'.carved[a] == k.carved[a] else k'.carved[a] == bucket
  }

  lemma LayoutUp(words: Words, nextf: seq<int>, nmalloc: seq<int>, free: seq<seq<int>>, k: Books, lo: int, hi: int, lo': int, hi': int)
    requires StoreOK(words, nextf, nmalloc, free, k, lo, hi) && hi <= hi' <= WORD && 0 < lo'
    requires lo' == lo || k.carved == map[]
    ensures StoreOK(words, nextf, nmalloc, free, k, lo', hi')
  {
    hide ListsOK; hide Covered; hide Headers; hide Counts;
    forall a, c | a in k.carved && c in k.carved && a != c ensures Apart(a, c, k) {
    }
  }

  lemma TakenBlocks(bucket: nat)
    requires bucket <= 27
    ensures var rnu := if bucket <= 8 then 11 else bucket + 3; var n := Pow2(rnu - (bucket + 3));
      Pow2(rnu) == Taken(bucket) == n * BlockSize(bucket) && n > 0
    ensures Taken(bucket) >= 2048
  {
    assert Pow2(11) == 2048 by { assert Pow2(10) == 1024; }
    if bucket <= 8 {
      PowSum(8 - bucket, bucket + 3);
      PowMonotone(0, 8 - bucket);
    } else {
      PowMonotone(11, bucket + 3);
    }
  }

  lemma CutSame(k: Books, b: nat)
    ensures Cutting(k, k, b)
  {
  }

  lemma CutCuts(k: Books, l: seq<int>, b: nat)
    requires forall a :: a in l ==> a !in k.carved
    ensures Cutting(k, Cut(k, l, b), b)
  {
  }

  // The steps of a run; a pointer is named by the number of the call that has
  // returned it.
  datatype Op = Alloc(size: int) | Resize(j: int, size: int) | Release(j: int)

  // --------------------------------------------------------- the allocator

  class Allocator {
    const nextf: array<int>
    const nmalloc: array<int>
    const limit: int
    var words: Words
    var brk: int
    var membot: int
    var memtop: int
    ghost var free: seq<seq<int>>
    ghost var k: Books

    ghost predicate Valid()
      reads this, nextf, nmalloc
    {
      && nextf != nmalloc && nextf.Length == nmalloc.Length == NBUCKETS
      && 0 < brk <= limit < WORD && 0 <= membot <= brk
      && (membot == 0 ==> k.carved == map[])
      && StoreOK(words, nextf[..], nmalloc[..], free, k, if membot == 0 then 1 else membot, brk)
    }

    constructor (start: int, top: int)
      requires 0 < start <= top < WORD
      ensures Valid() && k == Books(map[], {}) && brk == start && limit == top && fresh(nextf) && fresh(nmalloc)
    {
      nextf, nmalloc := new int[NBUCKETS](i => 0), new int[NBUCKETS](i => 0);
      limit, words, brk, membot, memtop := top, map[], start, 0, 0;
      free, k := seq(NBUCKETS, i => []), Books(map[], {});
      new;
      forall b | 0 <= b < NBUCKETS ensures ListOK(words, nextf[..][b], free[b], b, k) && |InBucket({}, k, b)| == 0 {
        assert InBucket({}, k, b) == {};
      }
    }

    // sbrk hands out the memory up to the limit, from the bottom upwards
    method Sbrk(incr: nat) returns (p: int)
      modifies this`brk
      ensures if old(brk) + incr <= limit then p == old(brk) && brk == old(brk) + incr else p == -1 && brk == old(brk)
    {
      if brk + incr <= limit {
        p := brk;
        brk := brk + incr;
      } else {
        p := -1;
      }
    }

    // the loop of morecore: every block but the last points to the next
    method LinkUp(op: int, siz: nat, nblks: nat)
      requires nblks > 0
      modifies this`words
      ensures words == Linked(old(words), Blocks(op, siz, nblks), nblks - 1)
    {
      var n, p := nblks - 1, op;
      ghost var l, i := Blocks(op, siz, nblks), 0;
      while n > 0
        invariant 0 <= i < nblks && n == nblks - 1 - i && p == l[i] && words == Linked(old(words), l, i)
        decreases n
      {
        BlocksAt(op, siz, nblks, i);
        BlocksAt(op, siz, nblks, i + 1);
        assert (i + 1) * siz == i * siz + siz;
        words := words[p := p + siz];
        p := p + siz;
        n, i := n - 1, i + 1;
      }
    }

    // cuts the memory from op on into blocks and puts them on the list
    method CutUp(bucket: nat, op: int, nblks: nat, ghost lo: int)
      requires nextf != nmalloc && nextf.Length == nmalloc.Length == NBUCKETS && bucket < NBUCKETS
      requires StoreOK(words, nextf[..], nmalloc[..], free, k, lo, op) && nextf[bucket] == 0
      requires nblks > 0 && op % 8 == 0 && lo <= op && op + nblks * BlockSize(bucket) == brk <= WORD
      modifies this`words, this`free, this`k, nextf
      ensures StoreOK(words, nextf[..], nmalloc[..], free, k, lo, brk)
      ensures Cutting(old(k), k, bucket) && k.live == old(k.live)
      ensures nextf[..] == old(nextf[..])[bucket := op]
    {
      hide StoreOK; hide BlockSize; hide Linked;
      ghost var l := Blocks(op, BlockSize(bucket), nblks);
      SizePositive(bucket);
      BlocksApart(op, BlockSize(bucket), nblks);
      Carve(words, nextf[..], nmalloc[..], free, k, lo, op, l, bucket, brk);
      FreeLength(words, nextf[..], nmalloc[..], free, k, lo, op);
      FreshLayout(words, nextf[..], nmalloc[..], free, k, lo, op, l, bucket, brk);
      CutCuts(k, l, bucket);
      nextf[bucket] := op;
      LinkUp(op, BlockSize(bucket), nblks);
      free, k := free[bucket := l], Cut(k, l, bucket);
    }

    lemma FreshLayout(words: Words, nextf: seq<int>, nmalloc: seq<int>, free: seq<seq<int>>, k: Books, lo: int, hi: int,
                      l: seq<int>, b: nat, hi': int)
      requires StoreOK(words, nextf, nmalloc, free, k, lo, hi) && Fresh(l, b, k, lo, hi, hi')
      ensures forall a :: a in l ==> a !in k.carved
    {
      CarveLayout(l, b, k, lo, hi, hi');
    }

    lemma FreeLength(words: Words, nextf: seq<int>, nmalloc: seq<int>, free: seq<seq<int>>, k: Books, lo: int, hi: int)
      requires StoreOK(words, nextf, nmalloc, free, k, lo, hi)
      ensures |free| == NBUCKETS
    {
    }

    // The rest of a page that has been begun is skipped.
    method PageUp()
      requires 0 < brk <= limit
      modifies this`brk, this`memtop
      ensures old(brk) <= brk <= limit && (brk % 1024 == 0 || limit < brk + 1024)
    {
      var op := brk;
      memtop := op;
      if op % 1024 != 0 {
        PageEnd(op);
        memtop := Sbrk(1024 - op % 1024);
        memtop := memtop + 1024 - op % 1024;
      }
    }

    lemma PageEnd(a: nat)
      ensures 0 < 1024 - a % 1024 <= 1024 && (a + (1024 - a % 1024)) % 1024 == 0
    {
    }

    lemma PageInEights(a: nat)
      requires a % 1024 == 0
      ensures a % 8 == 0
    {
    }

    // morecore: blocks for an empty bucket, from a page boundary on
    method Morecore(bucket: nat)
      requires Valid() && bucket <= 27
      modifies this`words, this`brk, this`membot, this`memtop, this`free, this`k, nextf
      ensures Valid() && k.live == old(k).live
      ensures old(nextf[bucket]) != 0 ==> k == old(k) && free == old(free) && memtop == old(memtop)
      ensures nextf[bucket] != 0 ==> Cutting(old(k), k, bucket)
      ensures nextf[bucket] == 0 ==> k == old(k) && free == old(free)
      ensures old(nextf[bucket]) == 0 ==> memtop == if nextf[bucket] != 0 then brk else Taken(bucket) - 1
    {
      hide StoreOK; hide BlockSize; hide Pow2; hide Blocks; hide Cut; hide Taken; hide Cutting;
      TakenBlocks(bucket);
      CutSame(k, bucket);
      if nextf[bucket] != 0 {
        return;
      }
      memtop := brk;
      if membot == 0 {
        membot := memtop;
      }
      PageUp();
      LayoutUp(words, nextf[..], nmalloc[..], free, k, if old(membot) == 0 then 1 else membot, old(brk), membot, brk);
      var rnu := if bucket <= 8 then 11 else bucket + 3;
      var nblks := Pow2(rnu - (bucket + 3));
      memtop := Sbrk(Pow2(rnu));
      var op := memtop;
      memtop := memtop + Pow2(rnu);
      if op == -1 {
        return;
      }
      PageInEights(op);
      CutUp(bucket, op, nblks, membot);
    }

    lemma Positive(a: int)
      requires Valid() && a in k.carved
      ensures 0 < membot <= a < WORD
    {
      hide ListsOK; hide Covered; hide Headers; hide Counts;
      BelowTop(a, k, if membot == 0 then 1 else membot, brk);
    }

    // the block at the head of the list of the bucket
    method Pop(bucket: nat) returns (p: int)
      requires Valid() && bucket < NBUCKETS && nextf[bucket] != 0
      modifies this`words, this`free, this`k, nextf, nmalloc
      ensures Valid() && p > 0 && p in k.carved && k.carved[p] == bucket
      ensures p !in old(k).live && k == old(k).(live := old(k).live + {p})
      ensures p == old(free[bucket][0]) && free == old(free[bucket := free[bucket][1..]])
    {
      hide StoreOK; hide InUse;
      Take(words, nextf[..], nmalloc[..], free, k, if membot == 0 then 1 else membot, brk, bucket);
      FreeLength(words, nextf[..], nmalloc[..], free, k, if membot == 0 then 1 else membot, brk);
      Positive(nextf[bucket]);
      p := nextf[bucket];
      nextf[bucket] := At(words, p);
      words := words[p := InUse(At(words, p), bucket)];
      nmalloc[bucket] := nmalloc[bucket] + 1;
      free, k := free[bucket := free[bucket][1..]], k.(live := k.live + {p});
    }

    // malloc: the address behind the header of a block that was not in use,
    // or 0 where the memory is at an end
    method Malloc(n: int) returns (r: int)
      requires Valid() && 0 <= n < WORD && Log2(Shiftr(Padded(n))) <= 27
      modifies this`words, this`brk, this`membot, this`memtop, this`free, this`k, nextf, nmalloc
      ensures Valid() && old(k).carved.Keys <= k.carved.Keys
      ensures forall a :: a in old(k).carved ==> k.carved[a] == old(k).carved[a]
      ensures r == 0 ==> k == old(k)
      ensures r != 0 ==> r - 8 in k.carved && r - 8 !in old(k).live && k.live == old(k).live + {r - 8}
      ensures r != 0 ==> Padded(n) <= BlockSize(k.carved[r - 8]) < 2 * Padded(n)
    {
      hide StoreOK; hide Padded; hide BlockSize; hide Shiftr;
      PaddedEight(n);
      var nbytes := Padded(n);
      ShiftIff(nbytes);
      BlockFits(nbytes, Log2(Shiftr(nbytes)));
      var bucket := Bucket(nbytes);
      if nextf[bucket] == 0 {
        Morecore(bucket);
      }
      if nextf[bucket] == 0 {
        return 0;
      }
      var p := Pop(bucket);
      r := p + 8;
    }

    // What the header of a block tells.
    lemma HeaderTells(p: int)
      requires Valid() && p in k.carved
      ensures Magic(At(words, p)) == MAGIC <==> p in k.live
      ensures p in k.live ==> Index(At(words, p)) == k.carved[p]
      ensures k.carved[p] < NBUCKETS
    {
      hide Magic; hide Index; hide ListOK; hide Counts; hide At; hide Layout;
      var lo := if membot == 0 then 1 else membot;
      if p in k.live {
        InWords(words, p, k);
      } else {
        var b := k.carved[p];
        assert ListOK(words, nextf[..][b], free[b], b, k);
        var i :| 0 <= i < |free[b]| && free[b][i] == p;
        FreeHeader(words, nextf[..][b], free[b], b, k, lo, brk, i);
      }
    }

    // free: the block goes to the head of the list of its bucket, unless it is
    // there already or above what free takes for the top of the memory
    method Free(cp: int)
      requires Valid() && (cp == 0 || memtop == 0 || membot == 0 || cp > memtop || cp < membot || cp - 8 in k.carved)
      modifies this`words, this`free, this`k, nextf, nmalloc
      ensures Valid()
      ensures cp != 0 && cp - 8 in old(k).live && cp <= memtop ==>
        && k == old(k).(live := old(k).live - {cp - 8})
        && (var b := k.carved[cp - 8]; |free| == |old(free)| == NBUCKETS && free == old(free)[b := [cp - 8] + old(free)[b]])
      ensures !(cp != 0 && cp - 8 in old(k).live && cp <= memtop) ==>
        k == old(k) && free == old(free) && words == old(words) && nextf[..] == old(nextf[..]) && nmalloc[..] == old(nmalloc[..])
    {
      hide StoreOK; hide Magic; hide Index;
      if cp == 0 {
        return;
      }
      if cp - 8 in k.live {
        Within(cp - 8);
      }
      if cp - 8 in k.carved {
        Positive(cp - 8);
      }
      if memtop == 0 || membot == 0 {
        return;
      }
      if cp > memtop {
        return;
      }
      if cp < membot {
        return;
      }
      var op := cp - 8;
      HeaderTells(op);
      if Magic(At(words, op)) != MAGIC {
        return;
      }
      if Index(At(words, op)) >= NBUCKETS {
        return;
      }
      var size := Index(At(words, op));
      Give(words, nextf[..], nmalloc[..], free, k, membot, brk, op);
      FreeLength(words, nextf[..], nmalloc[..], free, k, membot, brk);
      words := words[op := nextf[size]];
      nextf[size] := op;
      nmalloc[size] := nmalloc[size] - 1;
      free, k := free[size := [op] + free[size]], k.(live := k.live - {op});
    }

    // realloc of a block in use, but for the copying: the address of a block
    // that holds the request, the old one where it does
    method Realloc(cp: int, nbytes: int) returns (r: int)
      requires Valid() && (cp == 0 || cp - 8 in k.live)
      requires 0 <= nbytes < WORD && Log2(Shiftr(Padded(nbytes))) <= 27
      modifies this`words, this`brk, this`membot, this`memtop, this`free, this`k, nextf, nmalloc
      ensures Valid() && old(k).carved.Keys <= k.carved.Keys
      ensures cp != 0 ==> (r == cp <==> InPlace(Padded(nbytes), old(k).carved[cp - 8]))
      ensures cp != 0 && r == cp ==> k == old(k) && free == old(free) && words == old(words)
      ensures r == 0 ==> k == old(k)
      ensures r != 0 && r != cp ==> r - 8 in k.carved && r - 8 !in old(k).live
      ensures r != 0 && r != cp ==>
        k.live == old(k).live - (if cp != 0 && cp <= memtop then {cp - 8} else {}) + {r - 8}
      ensures r != 0 ==> r - 8 in k.carved && Padded(nbytes) <= BlockSize(k.carved[r - 8])
    {
      hide StoreOK; hide Magic; hide Index; hide Padded; hide BlockSize; hide Shiftr;
      PaddedEight(nbytes);
      ShiftIff(Padded(nbytes));
      if cp == 0 {
        r := Malloc(nbytes);
        return;
      }
      var op := cp - 8;
      Within(op);
      Positive(op);
      HeaderTells(op);
      var i := Index(At(words, op));
      var onb := Padded(nbytes);
      InPlaceIff(onb, i);
      if onb < Pow2(i + 3) && onb >= Pow2(i + 2) {
        return cp;
      }
      r := Malloc(nbytes);
      if r == 0 {
        return;
      }
      Free(cp);
    }

    lemma Within(p: int)
      requires Valid() && p in k.live
      ensures p in k.carved
    {
      hide ListsOK; hide Layout; hide Headers; hide Counts;
    }

    // --------------------------------------------------------- whole runs

    // No byte belongs to two blocks, whether they are in use or free.
    lemma Owner(a: int, c: int, x: int)
      requires Valid() && a in k.carved && c in k.carved
      requires a <= x < a + BlockSize(k.carved[a]) && c <= x < c + BlockSize(k.carved[c])
      ensures a == c
    {
      hide BlockSize; hide ListsOK; hide Covered; hide Headers; hide Counts;
      assert a != c ==> Apart(a, c, k);
    }

    // After a successful morecore, memtop is the break and free turns no block
    // away.
    lemma BelowBreak(a: int)
      requires Valid() && a in k.carved
      ensures memtop == brk ==> a + 8 <= memtop
    {
      hide ListsOK; hide Covered; hide Headers; hide Counts;
      PowMonotone(3, k.carved[a] + 3);
    }

    // A failed morecore leaves the size it asked for, less one, in memtop: while
    // the shell exits, free turns away exactly the blocks at or above that size.
    method FailThenFree(bucket: nat, cp: int) returns (failed: bool)
      requires Valid() && bucket <= 27 && nextf[bucket] == 0 && cp - 8 in k.live
      modifies this`words, this`brk, this`membot, this`memtop, this`free, this`k, nextf, nmalloc
      ensures Valid() && (failed ==> (cp - 8 in k.live <==> cp >= Taken(bucket)))
    {
      hide StoreOK; hide Taken; hide BlockSize; hide Cutting;
      Within(cp - 8);
      Positive(cp - 8);
      Morecore(bucket);
      failed := nextf[bucket] == 0;
      if failed {
        Free(cp);
      }
    }

    // For every size nmalloc and the free list account for all blocks, and
    // the list has an end.
    lemma Accounts(b: nat)
      requires Valid() && b < NBUCKETS
      ensures b < |free| && nmalloc[b] + |free[b]| == |InBucket(k.carved.Keys, k, b)|
      ensures nextf[b] == Nth(free[b], 0)
      ensures forall i, j :: 0 <= i < j < |free[b]| ==> free[b][i] != free[b][j]
      ensures forall i :: 0 <= i < |free[b]| ==> At(words, free[b][i]) == Nth(free[b], i + 1)
    {
      hide Layout; hide Covered; hide Headers; hide Counts;
      Conserved(words, nextf[..], nmalloc[..], free, k, if membot == 0 then 1 else membot, brk, b);
      assert ListOK(words, nextf[..][b], free[b], b, k);
    }

    // every run of malloc and free on pointers they have returned, and of
    // realloc on those that are in use
    method Run(ops: seq<Op>)
      requires Valid()
      modifies this`words, this`brk, this`membot, this`memtop, this`free, this`k, nextf, nmalloc
      ensures Valid()
    {
      hide Valid; hide BlockSize; hide Padded; hide Log2; hide Shiftr;
      var ptrs := [];
      for n := 0 to |ops|
        invariant Valid() && forall j :: 0 <= j < |ptrs| ==> ptrs[j] == 0 || ptrs[j] - 8 in k.carved
      {
        match ops[n]
        case Alloc(size) =>
          if 0 <= size < WORD && 8 <= Padded(size) <= 0x4000_0000 {
            PaddedEight(size);
            ShiftIff(Padded(size));
            var p := Malloc(size);
            if p != 0 {
              ptrs := ptrs + [p];
            }
          }
        case Resize(j, size) =>
          if 0 <= j < |ptrs| && 0 <= size < WORD && 8 <= Padded(size) <= 0x4000_0000 {
            PaddedEight(size);
            ShiftIff(Padded(size));
            if ptrs[j] != 0 {
              HeaderTells(ptrs[j] - 8);
            }
            if ptrs[j] == 0 || Magic(At(words, ptrs[j] - 8)) == MAGIC {
              var p := Realloc(ptrs[j], size);
              if p != 0 {
                Within(p - 8);
                ptrs := ptrs + [p];
              }
            }
          }
        case Release(j) =>
          if 0 <= j < |ptrs| {
            Free(ptrs[j]);
          }
      }
    }
  }
}
