// The block sizes of the csh storage allocator.
module CshBucket {
  import opened CshPower
  import opened Machine

  const NBUCKETS := 30

  // ALIGN in 32-bit unsigned arithmetic.
  function Align(a: int): int {
    (a + 7) % WORD / 8 * 8
  }

  // The size that malloc computes for a request of n bytes: the header of 8
  // bytes and the request, rounded up.
  function Padded(n: int): int {
    Align((8 + n) % WORD)
  }

  // shiftr, as malloc sets it.
  function Shiftr(nbytes: int): nat {
    (nbytes - 1) % WORD / 4
  }

  function BlockSize(bucket: nat): nat {
    Pow2(bucket + 3)
  }

  // A size_t that does not wrap round: exactly these requests are padded to
  // at least what was asked for.
  lemma PaddedIff(n: int)
    requires 0 <= n < WORD
    ensures Padded(n) >= 8 + n <==> n <= WORD - 16
    ensures n <= WORD - 16 ==> Padded(n) < 8 + n + 8 && Padded(n) % 8 == 0
  {
    hide Align;
    WrapsOnce(8 + n);
    AlignIs((8 + n) % WORD);
  }

  lemma WrapsOnce(a: int)
    requires 0 <= a < 2 * WORD
    ensures a % WORD == if a < WORD then a else a - WORD
  {
  }

  // Rounding up, except behind the last multiple of 8.
  lemma AlignIs(a: int)
    requires 0 <= a < WORD
    ensures a + 7 < WORD ==> a <= Align(a) < a + 8 && Align(a) % 8 == 0
    ensures a + 7 >= WORD ==> Align(a) == 0
  {
    WrapsOnce(a + 7);
  }

  // The request for four gigabytes less one byte is padded to a block of 8.
  lemma Wraps()
    ensures Padded(WORD - 1) == 8 && Log2(Shiftr(Padded(WORD - 1))) == 0
  {
    assert Padded(WORD - 1) == 14 / 8 * 8;
  }

  // the loop of malloc over shiftr
  method Bucket(nbytes: int) returns (bucket: nat)
    requires 0 <= nbytes < WORD && Shiftr(nbytes) >= 1
    ensures bucket == Log2(Shiftr(nbytes)) < NBUCKETS
  {
    BelowThirty(Shiftr(nbytes));
    var shiftr := Shiftr(nbytes);
    bucket := 0;
    while true
      invariant shiftr >= 1 && bucket + Log2(shiftr) == Log2(Shiftr(nbytes))
      decreases shiftr
    {
      shiftr := shiftr / 2;
      if shiftr == 0 {
        break;
      }
      bucket := bucket + 1;
    }
  }

  lemma BelowThirty(x: nat)
    requires 1 <= x < 0x4000_0000
    ensures Log2(x) < NBUCKETS
  {
    LogPow(x);
    assert Pow2(30) == 0x4000_0000 by {
      assert Pow2(10) == 1024;
      PowSum(10, 10);
      PowSum(10, 20);
    }
    if Log2(x) >= 30 {
      PowMonotone(30, Log2(x));
    }
  }

  // The block chosen for a padded request holds it and is less than twice as
  // large, and no other bucket does.
  lemma BlockFits(nbytes: int, bucket: nat)
    requires 8 <= nbytes < WORD && nbytes % 8 == 0
    ensures bucket == Log2(Shiftr(nbytes)) <==> nbytes <= BlockSize(bucket) < 2 * nbytes
  {
    var x := Shiftr(nbytes);
    assert x == (nbytes - 1) / 4;
    LogPow(x);
    if nbytes <= BlockSize(bucket) < 2 * nbytes {
      assert BlockSize(bucket) == 2 * Pow2(bucket + 2) == 4 * Pow2(bucket + 1) == 8 * Pow2(bucket);
      LogIs(x, bucket);
    }
  }

  // realloc keeps a block of bucket i for a padded request onb.
  predicate InPlace(onb: int, i: nat) {
    Pow2(i + 2) <= onb < Pow2(i + 3)
  }

  // Where the in-place case of realloc and the bucket of malloc differ: a
  // request that fills the block is moved, one that needs half of it stays.
  lemma InPlaceIff(onb: int, i: nat)
    requires 8 <= onb < WORD && onb % 8 == 0
    ensures InPlace(onb, i) <==> (i == Log2(Shiftr(onb)) && onb != BlockSize(i)) || onb == Pow2(i + 2)
    ensures InPlace(onb, i) ==> onb <= BlockSize(i)
  {
    BlockFits(onb, i);
    assert Pow2(i + 3) == 2 * Pow2(i + 2);
  }

  // morecore can ask for the blocks of a bucket, that is, 1 << rnu is an int,
  // exactly for padded requests of up to a gigabyte.
  lemma ShiftIff(nbytes: int)
    requires 0 <= nbytes < WORD && nbytes % 8 == 0
    ensures Log2(Shiftr(nbytes)) <= 27 <==> 8 <= nbytes <= 0x4000_0000
  {
    hide Pow2;
    var x := Shiftr(nbytes);
    TwoTo28();
    LogPow(x);
    if Log2(x) <= 27 {
      PowMonotone(Log2(x) + 1, 28);
    } else {
      PowMonotone(28, Log2(x));
    }
  }

  // What a request of n bytes is padded to: the sum with the header wraps round
  // for the last 8 sizes, and rounding up for the 7 in front of them.
  lemma PadsTo(n: int)
    requires 0 <= n < WORD
    ensures n <= WORD - 16 ==> Padded(n) == (n + 15) / 8 * 8
    ensures WORD - 15 <= n <= WORD - 8 ==> Padded(n) == 0
    ensures WORD - 7 <= n ==> Padded(n) == 8
  {
    WrapsOnce(8 + n);
    AlignIs((8 + n) % WORD);
  }

  // Both conditions in the request. The shift of morecore is not defined for
  // requests above a gigabyte but for the last 7, which get a block of 8 bytes.
  lemma RequestIff(n: int)
    requires 0 <= n < WORD
    ensures Log2(Shiftr(Padded(n))) > 27 <==> 0x4000_0000 - 8 < n <= WORD - 8
    ensures BlockSize(Log2(Shiftr(Padded(n)))) < 8 + n <==> n > WORD - 8
  {
    hide Padded; hide Shiftr; hide BlockSize; hide Log2;
    PadsTo(n);
    if n <= WORD - 16 {
      PaddedIff(n);
      ShiftIff(Padded(n));
      BlockFits(Padded(n), Log2(Shiftr(Padded(n))));
    } else {
      Smallest();
      Largest();
    }
  }

  lemma Smallest()
    ensures Log2(Shiftr(8)) == 0 && BlockSize(0) == 8
  {
  }

  // A request padded to 0 has a shiftr with 30 ones: the block of the bucket
  // would have four gigabytes.
  lemma Largest()
    ensures Log2(Shiftr(0)) == 29 && BlockSize(29) == WORD
  {
    hide Log2;
    TwoTo28();
    PowSum(28, 1);
    PowSum(28, 2);
    PowSum(28, 4);
    LogIs(Shiftr(0), 29);
  }

  lemma TwoTo28()
    ensures Pow2(28) == 0x1000_0000
  {
    assert Pow2(8) == 256;
    assert Pow2(10) == 1024;
    PowSum(10, 8);
    PowSum(10, 18);
  }

  lemma PaddedEight(n: int)
    ensures 0 <= Padded(n) < WORD && Padded(n) % 8 == 0 && Shiftr(Padded(n)) >= 1
  {
    var q := ((8 + n) % WORD + 7) % WORD / 8;
    assert Padded(n) == q * 8;
  }
}
