// The encrypted files of ed: cipher block chaining (FIPS PUB 81, section 3)
// with a last block that carries its length.
module EdCipher {
  import opened Machine

  // The exclusive or of the lower n bits.
  function XorBits(a: nat, b: nat, n: nat): nat
    decreases n
  {
    if n == 0 then 0 else 2 * XorBits(a / 2, b / 2, n - 1) + (a % 2 + b % 2) % 2
  }

  function Size(n: nat): nat {
    if n == 0 then 1 else 2 * Size(n - 1)
  }

  lemma {:induction false} XorBitsTwice(a: nat, b: nat, n: nat)
    ensures XorBits(a, b, n) < Size(n)
    ensures a < Size(n) ==> XorBits(XorBits(a, b, n), b, n) == a
    decreases n
  {
    if n > 0 {
      XorBitsTwice(a / 2, b / 2, n - 1);
      Halves(XorBits(a / 2, b / 2, n - 1), (a % 2 + b % 2) % 2);
      OneBit(a % 2, b % 2);
    }
  }

  lemma Halves(q: nat, bit: nat)
    requires bit < 2
    ensures (2 * q + bit) / 2 == q && (2 * q + bit) % 2 == bit
  {
  }

  lemma OneBit(i: nat, j: nat)
    requires i < 2 && j < 2
    ensures ((i + j) % 2 + j) % 2 == i
  {
  }

  // Bit by bit it says where the two differ.
  lemma {:induction false} XorBitsDiffer(a: nat, b: nat, n: nat, k: nat)
    requires k < n
    ensures Bit(XorBits(a, b, n), k) == 1 <==> Bit(a, k) != Bit(b, k)
    decreases n
  {
    Halves(XorBits(a / 2, b / 2, n - 1), (a % 2 + b % 2) % 2);
    if k > 0 {
      XorBitsDiffer(a / 2, b / 2, n - 1, k - 1);
    }
  }

  lemma XorByteDiffers(a: Byte, b: Byte, k: nat)
    requires k < 8
    ensures Bit(XorByte(a, b), k) == 1 <==> Bit(a, k) != Bit(b, k)
  {
    XorBitsDiffer(a, b, 8, k);
  }

  function XorByte(a: Byte, b: Byte): Byte {
    XorBitsTwice(a, b, 8);
    assert Size(8) == 256;
    XorBits(a, b, 8)
  }

  lemma XorByteTwice(a: Byte, b: Byte)
    ensures XorByte(XorByte(a, b), b) == a
  {
    XorBitsTwice(a, b, 8);
    assert Size(8) == 256;
  }

  // The block cipher under some key; `dec` undoes `enc`.
  datatype Cipher = Cipher(enc: Bytes -> Bytes, dec: Bytes -> Bytes)

  ghost predicate Inverse(k: Cipher) {
    forall b: Bytes :: |b| == 8 ==> |k.enc(b)| == 8 && k.dec(k.enc(b)) == b
  }

  ghost predicate OnBlocks(k: Cipher) {
    forall b: Bytes :: |b| == 8 ==> |k.enc(b)| == 8 && |k.dec(b)| == 8
  }

  function Xor(a: Bytes, b: Bytes): (c: Bytes)
    requires |a| == |b|
    ensures |c| == |a| && forall i :: 0 <= i < |a| ==> c[i] == XorByte(a[i], b[i])
  {
    seq(|a|, i requires 0 <= i < |a| => XorByte(a[i], b[i]))
  }

  lemma XorTwice(a: Bytes, b: Bytes)
    requires |a| == |b|
    ensures Xor(Xor(a, b), b) == a
  {
    hide XorByte;
    forall i | 0 <= i < |a| ensures XorByte(XorByte(a[i], b[i]), b[i]) == a[i] {
      XorByteTwice(a[i], b[i]);
    }
  }

  // The last block: up to seven bytes, padding, and their number.
  function Padded(s: Bytes, pvec: Bytes): (b: Bytes)
    requires |s| < 8 && |pvec| == 8
    ensures |b| == 8 && b[..|s|] == s && b[7] == |s|
  {
    s + pvec[..7 - |s|] + [|s|]
  }

  // ------------------------------------------------------------- streams

  ghost function Encrypt(k: Cipher, ivec: Bytes, pvec: Bytes, s: Bytes): Bytes
    requires OnBlocks(k) && |ivec| == |pvec| == 8
    decreases |s|
  {
    if |s| < 8 then k.enc(Xor(Padded(s, pvec), ivec)) else
    var c := k.enc(Xor(s[..8], ivec));
    c + Encrypt(k, c, pvec, s[8..])
  }

  // What a file decrypts to; of a file that is no whole number of blocks, or
  // ends in a bad count, the sound blocks in front.
  ghost function Decrypt(k: Cipher, ivec: Bytes, c: Bytes): Bytes
    requires OnBlocks(k) && |ivec| == 8
    decreases |c|
  {
    if |c| < 8 then [] else
    var m := Xor(k.dec(c[..8]), ivec);
    if |c| > 8 then m + Decrypt(k, c[..8], c[8..])
    else if m[7] > 7 then [] else m[..m[7]]
  }

  // Decrypting gives back what was encrypted, whatever the padding.
  lemma {:induction false} DecryptEncrypt(k: Cipher, ivec: Bytes, pvec: Bytes, s: Bytes)
    requires Inverse(k) && OnBlocks(k) && |ivec| == |pvec| == 8
    ensures Decrypt(k, ivec, Encrypt(k, ivec, pvec, s)) == s
    decreases |s|
  {
    if |s| < 8 {
      var p := Padded(s, pvec);
      var c := k.enc(Xor(p, ivec));
      XorTwice(p, ivec);
      assert c[..8] == c;
    } else {
      var c := k.enc(Xor(s[..8], ivec));
      var r := Encrypt(k, c, pvec, s[8..]);
      XorTwice(s[..8], ivec);
      DecryptEncrypt(k, c, pvec, s[8..]);
      EncryptLength(k, c, pvec, s[8..]);
      assert (c + r)[..8] == c && (c + r)[8..] == r;
      assert s[..8] + s[8..] == s;
    }
  }

  // The length is the next multiple of 8 strictly above that of the text.
  lemma {:induction false} EncryptLength(k: Cipher, ivec: Bytes, pvec: Bytes, s: Bytes)
    requires OnBlocks(k) && |ivec| == |pvec| == 8
    ensures |Encrypt(k, ivec, pvec, s)| == |s| + 8 - |s| % 8
    decreases |s|
  {
    hide Encrypt; hide Xor; hide OnBlocks;
    EncryptStep(k, ivec, pvec, s);
    if |s| >= 8 {
      EncryptLength(k, k.enc(Xor(s[..8], ivec)), pvec, s[8..]);
      EightLess(|s|);
    }
  }

  lemma EncryptStep(k: Cipher, ivec: Bytes, pvec: Bytes, s: Bytes)
    requires OnBlocks(k) && |ivec| == |pvec| == 8
    ensures if |s| < 8 then |Encrypt(k, ivec, pvec, s)| == 8 else
      var c := k.enc(Xor(s[..8], ivec));
      |c| == 8 && |Encrypt(k, ivec, pvec, s)| == 8 + |Encrypt(k, c, pvec, s[8..])|
  {
  }

  lemma EightLess(n: nat)
    requires n >= 8
    ensures (n - 8) % 8 == n % 8
  {
  }

  // The full blocks of s, and the padded last one.
  ghost function Filled(s: Bytes, pvec: Bytes): Bytes
    requires |pvec| == 8
  {
    var m := |s| - |s| % 8;
    s[..m] + Padded(s[m..], pvec)
  }

  lemma FilledStep(s: Bytes, pvec: Bytes)
    requires |pvec| == 8 && |s| >= 8
    ensures Filled(s, pvec) == s[..8] + Filled(s[8..], pvec)
  {
    hide Padded;
    EightLess(|s|);
    var m := |s| - |s| % 8;
    assert s[8..][m - 8..] == s[m..];
    assert s[..m] == s[..8] + s[8..][..m - 8];
  }

  // Block j of the cipher text e is made of block j of the text p.
  ghost predicate ChainedAt(k: Cipher, ivec: Bytes, e: Bytes, p: Bytes, j: nat) {
    && |e| == |p| && 8 * j + 8 <= |e| && |ivec| == 8
    && e[8 * j..8 * j + 8] == k.enc(Xor(p[8 * j..8 * j + 8], if j == 0 then ivec else e[8 * j - 8..8 * j]))
  }

  lemma FirstBlock(k: Cipher, ivec: Bytes, b: Bytes, e: Bytes, p: Bytes, e': Bytes, p': Bytes)
    requires |b| == |ivec| == 8 && |k.enc(Xor(b, ivec))| == 8 && |e| == |p|
    requires e' == k.enc(Xor(b, ivec)) + e && p' == b + p
    ensures ChainedAt(k, ivec, e', p', 0)
  {
    hide Xor;
    assert e'[0..8] == k.enc(Xor(b, ivec)) && p'[0..8] == b;
  }

  lemma LaterBlock(k: Cipher, ivec: Bytes, c: Bytes, b: Bytes, e: Bytes, p: Bytes, e': Bytes, p': Bytes, j: nat)
    requires |b| == |c| == |ivec| == 8 && j >= 1 && ChainedAt(k, c, e, p, j - 1)
    requires e' == c + e && p' == b + p
    ensures ChainedAt(k, ivec, e', p', j)
  {
    hide Xor;
    Shifted(c, e, j);
    Shifted(b, p, j);
  }

  lemma EncryptParts(k: Cipher, ivec: Bytes, pvec: Bytes, s: Bytes)
    requires OnBlocks(k) && |ivec| == |pvec| == 8
    ensures var b := if |s| < 8 then Padded(s, pvec) else s[..8];
      var c := k.enc(Xor(b, ivec));
      |c| == 8 && Encrypt(k, ivec, pvec, s) == c + if |s| < 8 then [] else Encrypt(k, c, pvec, s[8..])
    ensures |Encrypt(k, ivec, pvec, s)| == |Filled(s, pvec)|
  {
    hide Xor; hide Padded;
    EncryptLength(k, ivec, pvec, s);
    FilledLength(s, pvec);
  }

  lemma FilledShort(s: Bytes, pvec: Bytes)
    requires |pvec| == 8 && |s| < 8
    ensures Filled(s, pvec) == Padded(s, pvec) + []
  {
    assert s[0..] == s;
  }

  lemma ChainedShort(k: Cipher, ivec: Bytes, pvec: Bytes, s: Bytes)
    requires OnBlocks(k) && |ivec| == |pvec| == 8 && |s| < 8
    ensures ChainedAt(k, ivec, Encrypt(k, ivec, pvec, s), Filled(s, pvec), 0)
  {
    hide Xor; hide Padded; hide ChainedAt; hide OnBlocks; hide Encrypt; hide Filled;
    EncryptParts(k, ivec, pvec, s);
    FilledShort(s, pvec);
    FirstBlock(k, ivec, Padded(s, pvec), [], [], Encrypt(k, ivec, pvec, s), Filled(s, pvec));
  }

  lemma ChainedNext(k: Cipher, ivec: Bytes, pvec: Bytes, s: Bytes, j: nat)
    requires OnBlocks(k) && |ivec| == |pvec| == 8 && |s| >= 8
    requires j > 0 ==>
      var c := k.enc(Xor(s[..8], ivec));
      |c| == 8 && ChainedAt(k, c, Encrypt(k, c, pvec, s[8..]), Filled(s[8..], pvec), j - 1)
    ensures ChainedAt(k, ivec, Encrypt(k, ivec, pvec, s), Filled(s, pvec), j)
  {
    hide Xor; hide Padded; hide ChainedAt; hide OnBlocks; hide Encrypt; hide Filled;
    EncryptParts(k, ivec, pvec, s);
    FilledStep(s, pvec);
    var e', p', c := Encrypt(k, ivec, pvec, s), Filled(s, pvec), k.enc(Xor(s[..8], ivec));
    var e, p := Encrypt(k, c, pvec, s[8..]), Filled(s[8..], pvec);
    if j == 0 {
      EncryptParts(k, c, pvec, s[8..]);
      FirstBlock(k, ivec, s[..8], e, p, e', p');
    } else {
      LaterBlock(k, ivec, c, s[..8], e, p, e', p', j);
    }
  }

  // Each block of the cipher text is the encryption of the exclusive or of the
  // block of the text with the block of the cipher text before it.
  lemma {:induction false} Chained(k: Cipher, ivec: Bytes, pvec: Bytes, s: Bytes, j: nat)
    requires OnBlocks(k) && |ivec| == |pvec| == 8 && 8 * j <= |s|
    ensures ChainedAt(k, ivec, Encrypt(k, ivec, pvec, s), Filled(s, pvec), j)
    decreases |s|
  {
    hide Xor; hide Padded; hide ChainedAt; hide OnBlocks; hide Encrypt; hide Filled;
    if |s| < 8 {
      ChainedShort(k, ivec, pvec, s);
    } else {
      if j > 0 {
        var c := k.enc(Xor(s[..8], ivec));
        EncryptParts(k, ivec, pvec, s);
        Chained(k, c, pvec, s[8..], j - 1);
      }
      ChainedNext(k, ivec, pvec, s, j);
    }
  }

  lemma FilledLength(s: Bytes, pvec: Bytes)
    requires |pvec| == 8
    ensures |Filled(s, pvec)| == |s| + 8 - |s| % 8
  {
    var m := |s| - |s| % 8;
    assert |s[m..]| < 8 && |s[..m]| == m;
    assert Filled(s, pvec) == s[..m] + Padded(s[m..], pvec);
  }

  // Block j behind a first block.
  lemma Shifted(c: Bytes, r: Bytes, j: nat)
    requires |c| == 8 && j >= 1 && 8 * j <= |r|
    ensures (c + r)[8 * j..8 * j + 8] == r[8 * (j - 1)..8 * (j - 1) + 8]
    ensures (c + r)[8 * j - 8..8 * j] == if j == 1 then c else r[8 * (j - 1) - 8..8 * (j - 1)]
  {
    assert (c + r)[8..] == r;
    if j == 1 {
      assert (c + r)[..8] == c;
    }
  }

  // The cipher text of the full blocks of s, and the vector behind them.
  ghost function Chain(k: Cipher, ivec: Bytes, s: Bytes): (r: (Bytes, Bytes))
    requires OnBlocks(k) && |ivec| == 8 && |s| % 8 == 0
    ensures |r.1| == 8
    decreases |s|
  {
    if s == [] then ([], ivec) else
    var c := k.enc(Xor(s[..8], ivec));
    var (r, iv) := Chain(k, c, s[8..]);
    (c + r, iv)
  }

  lemma {:induction false} ChainBlock(k: Cipher, ivec: Bytes, s: Bytes, b: Bytes)
    requires OnBlocks(k) && |ivec| == 8 && |s| % 8 == 0 && |b| == 8
    ensures var (r, iv) := Chain(k, ivec, s); var c := k.enc(Xor(b, iv)); Chain(k, ivec, s + b) == (r + c, c)
    decreases |s|
  {
    if s == [] {
      assert s + b == b && b[..8] == b && b[8..] == [];
      var c := k.enc(Xor(b, ivec));
      assert Chain(k, c, []) == ([], c);
      assert c + [] == c && [] + c == c;
    } else {
      var t := s + b;
      assert t[..8] == s[..8] && t[8..] == s[8..] + b;
      var c0 := k.enc(Xor(s[..8], ivec));
      ChainBlock(k, c0, s[8..], b);
      var (r, iv) := Chain(k, c0, s[8..]);
      var c := k.enc(Xor(b, iv));
      assert (c0 + r) + c == c0 + (r + c);
    }
  }

  lemma {:induction false} ChainEncrypt(k: Cipher, ivec: Bytes, pvec: Bytes, s: Bytes, last: Bytes)
    requires OnBlocks(k) && |ivec| == |pvec| == 8 && |s| % 8 == 0 && |last| < 8
    ensures var (r, iv) := Chain(k, ivec, s);
      Encrypt(k, ivec, pvec, s + last) == r + k.enc(Xor(Padded(last, pvec), iv))
    decreases |s|
  {
    if s == [] {
      assert s + last == last;
      var c := k.enc(Xor(Padded(last, pvec), ivec));
      assert [] + c == c;
    } else {
      var t := s + last;
      assert t[..8] == s[..8] && t[8..] == s[8..] + last;
      ChainEncrypt(k, k.enc(Xor(s[..8], ivec)), pvec, s[8..], last);
    }
  }

  const ZERO: Bytes := [0, 0, 0, 0, 0, 0, 0, 0]
  const EOF := -1

  // A char is signed, so that the byte 255 is EOF.
  function Signed(b: Byte): int {
    if b < 128 then b else b - 256
  }

  // ------------------------------------------------------------- desputc

  class Writer {
    const k: Cipher
    const pvec: Bytes
    const buf: array<Byte>
    var n: nat
    var ivec: Bytes
    var fp: Bytes
    ghost var text: Bytes

    ghost predicate Valid()
      reads this, buf
    {
      && OnBlocks(k) && |pvec| == |ivec| == 8 && buf.Length == 8 && n <= 8
      && |text| >= n && (|text| - n) % 8 == 0 && text[|text| - n..] == buf[..n]
      && Chain(k, ZERO, text[..|text| - n]) == (fp, ivec)
    }

    // desopen and cbcinit, with some padding
    constructor (k: Cipher, pvec: Bytes)
      requires OnBlocks(k) && |pvec| == 8
      ensures Valid() && text == [] && fp == [] && this.k == k && this.pvec == pvec && fresh(buf)
    {
      this.k, this.pvec := k, pvec;
      buf := new Byte[8](i => 0);
      n, ivec, fp, text := 0, ZERO, [], [];
    }

    // cbcenc of a full block
    method CbcencFull()
      requires Valid() && n == 8
      modifies this`ivec, this`fp, this`n, buf
      ensures Valid() && n == 0 && text == old(text)
    {
      ghost var s, b := text[..|text| - 8], buf[..];
      assert text == s + b && buf[..8] == buf[..];
      ChainBlock(k, ZERO, s, b);
      XorInto();
      Transform();
      ivec := buf[..];
      fp := fp + buf[..];
      n := 0;
      assert text[..|text|] == text;
    }

    method XorInto()
      requires buf.Length == 8 == |ivec|
      modifies buf
      ensures buf[..] == Xor(old(buf[..]), ivec)
    {
      var i := 0;
      while i < 8
        invariant 0 <= i <= 8
        invariant forall j :: 0 <= j < i ==> buf[j] == XorByte(old(buf[j]), ivec[j])
        invariant forall j :: i <= j < 8 ==> buf[j] == old(buf[j])
      {
        buf[i] := XorByte(buf[i], ivec[i]);
        i := i + 1;
      }
    }

    // DES_XFORM, to encrypt
    method Transform()
      requires buf.Length == 8 && OnBlocks(k)
      modifies buf
      ensures buf[..] == k.enc(old(buf[..]))
    {
      var c := k.enc(buf[..]);
      forall i | 0 <= i < 8 {
        buf[i] := c[i];
      }
      assert buf[..] == c;
    }

    // cbcenc of the last block, which has room for its count
    method CbcencLast()
      requires Valid() && n < 8
      modifies this`fp, this`n, buf
      ensures n == 0 && fp == Encrypt(k, ZERO, pvec, text)
    {
      hide Encrypt; hide Chain; hide XorByte; hide Inverse;
      ghost var s, last := text[..|text| - n], buf[..n];
      assert text == s + last;
      ChainEncrypt(k, ZERO, pvec, s, last);
      forall i | n <= i < 7 {
        buf[i] := pvec[i - n];
      }
      buf[7] := n;
      assert buf[..] == Padded(last, pvec);
      XorInto();
      Transform();
      fp := fp + buf[..];
      n := 0;
    }

    // desputc of a character, which it returns as a signed char; the byte 255
    // is taken for EOF and completes the file
    method Desputc(c: Byte) returns (r: int)
      requires Valid()
      modifies this`ivec, this`fp, this`n, this`text, buf
      ensures r == Signed(c)
      ensures c != 255 ==> Valid() && text == old(text) + [c]
      ensures c == 255 ==> n == 0 && fp == Encrypt(k, ZERO, pvec, text) && text == old(text)
    {
      if Signed(c) == EOF {
        Flush();
        return EOF;
      }
      if n == 8 {
        CbcencFull();
      }
      buf[n] := c;
      n := n + 1;
      text := text + [c];
      assert text[..|text| - n] == old(text)[..|text| - n];
      r := Signed(c);
    }

    // desputc of EOF: the file is complete
    method Flush()
      requires Valid()
      modifies this`ivec, this`fp, this`n, buf
      ensures n == 0 && fp == Encrypt(k, ZERO, pvec, text) && text == old(text)
    {
      if n == 8 {
        CbcencFull();
      }
      CbcencLast();
    }

    // the loop of dowrite over the characters, and the size that it reports; a
    // character whose signed value is negative reads as a failure to write
    method Dowrite(s: Bytes) returns (ok: bool, size: nat)
      requires Valid() && text == []
      modifies this, buf
      ensures ok <==> forall i :: 0 <= i < |s| ==> s[i] < 128
      ensures ok ==> fp == Encrypt(k, ZERO, pvec, s) && size == |fp|
    {
      hide Encrypt; hide Chain; hide OnBlocks; hide Valid;
      Sound();
      for i := 0 to |s|
        invariant Valid() && text == s[..i] && forall j :: 0 <= j < i ==> s[j] < 128
      {
        var r := Desputc(s[i]);
        if r < 0 {
          return false, 0;
        }
      }
      Flush();
      assert s[..|s|] == s;
      ok, size := true, |s|;
      size := size + (8 - size % 8);
      EncryptLength(k, ZERO, pvec, s);
    }

    lemma Sound()
      requires Valid()
      ensures OnBlocks(k) && |pvec| == 8
    {
    }
  }

  // ------------------------------------------------------------- desgetc

  class Reader {
    const k: Cipher
    const fp: Bytes
    const buf: array<Byte>
    var pos: nat
    var n: nat
    var count: int        // sg_ct
    var ivec: Bytes
    var failed: bool

    ghost predicate Valid()
      reads this, buf
    {
      && OnBlocks(k) && |ivec| == 8 && buf.Length == 8 && pos <= |fp| && count <= 8 && 0 <= n
      && (count < 0 ==> pos == |fp|)
    }

    // What is still to come.
    ghost function Rest(): Bytes
      requires Valid()
      reads this, buf
    {
      (if n < count then buf[n..count] else []) + Decrypt(k, ivec, fp[pos..])
    }

    constructor (k: Cipher, fp: Bytes)
      requires OnBlocks(k)
      ensures Valid() && Rest() == Decrypt(k, ZERO, fp) && fresh(buf)
    {
      this.k, this.fp := k, fp;
      buf := new Byte[8](i => 0);
      pos, n, count, ivec, failed := 0, 0, 0, ZERO, false;
      new;
      assert fp[0..] == fp && [] + Decrypt(k, ZERO, fp) == Decrypt(k, ZERO, fp);
    }

    // cbcdec: the next block, and how many characters of it count
    method Cbcdec() returns (r: int)
      requires Valid() && n >= count
      modifies this`pos, this`ivec, this`failed, buf
      ensures OnBlocks(k) && |ivec| == 8 && pos <= |fp| && -1 <= r <= 8 && (r < 0 ==> pos == |fp|)
      ensures (if r > 0 then buf[..r] else []) + Decrypt(k, ivec, fp[pos..]) == old(Decrypt(k, ivec, fp[pos..]))
      ensures r <= 0 ==> old(Decrypt(k, ivec, fp[pos..])) == []
    {
      hide Inverse; hide XorByte;
      ghost var c := fp[pos..];
      if |fp| - pos < 8 {
        if |fp| - pos > 0 {
          failed := true;
        }
        pos := |fp|;
        assert Decrypt(k, ivec, c) == [] && Decrypt(k, ivec, fp[pos..]) == [];
        return -1;
      }
      var ibuf := fp[pos..pos + 8];
      assert c[..8] == ibuf && c[8..] == fp[pos + 8..];
      var m := k.dec(ibuf);
      assert |ibuf| == 8 && |m| == 8;
      var i := 0;
      while i < 8
        invariant 0 <= i <= 8
        invariant forall j :: 0 <= j < i ==> buf[j] == XorByte(m[j], ivec[j])
        modifies buf
      {
        buf[i] := XorByte(m[i], ivec[i]);
        i := i + 1;
      }
      assert buf[..] == Xor(m, ivec) && buf[..8] == buf[..];
      pos := pos + 8;
      ivec := ibuf;
      if pos == |fp| {
        r := buf[7];
        assert fp[pos..] == [] && Decrypt(k, ivec, fp[pos..]) == [];
        if r < 0 || r > 7 {
          failed := true;
          return -1;
        }
        assert buf[..r] == buf[..][..r];
        assert buf[..r] + [] == buf[..r];
      } else {
        r := 8;
      }
    }

    // desgetc
    method Desgetc() returns (c: int)
      requires Valid()
      modifies this`pos, this`ivec, this`failed, this`n, this`count, buf
      ensures Valid()
      ensures old(Rest()) == [] ==> c == EOF && Rest() == []
      ensures old(Rest()) != [] ==> c == Signed(old(Rest()[0])) && Rest() == old(Rest()[1..])
    {
      hide Decrypt; hide OnBlocks;
      if n >= count {
        ghost var rest := Decrypt(k, ivec, fp[pos..]);
        count := Cbcdec();
        n := 0;
        assert [] + rest == rest;
      }
      if count <= 0 {
        assert Rest() == [] + Decrypt(k, ivec, fp[pos..]);
        return EOF;
      }
      ghost var b, d := buf[n..count], Decrypt(k, ivec, fp[pos..]);
      assert Rest() == b + d;
      c := Signed(buf[n]);
      assert b[0] == buf[n];
      n := n + 1;
      assert (b + d)[1..] == b[1..] + d;
      assert n < count ==> b[1..] == buf[n..count];
      assert n == count ==> b[1..] == [];
    }

    // the characters up to EOF, or up to one that reads as EOF
    method ReadAll() returns (s: Bytes)
      requires Valid()
      modifies this, buf
      ensures s == BeforeEof(old(Rest()))
    {
      hide Rest; hide Valid;
      s := [];
      ghost var rest := Rest();
      assert [] + BeforeEof(rest) == BeforeEof(rest);
      var c := Desgetc();
      while c != EOF
        invariant Valid() && (rest == [] ==> c == EOF)
        invariant rest != [] ==> c == Signed(rest[0]) && Rest() == rest[1..]
        invariant s + BeforeEof(rest) == BeforeEof(old(Rest()))
        decreases |rest|
      {
        var b: Byte := if c < 0 then c + 256 else c;
        assert s + BeforeEof(rest) == (s + [b]) + BeforeEof(rest[1..]);
        s := s + [b];
        rest := rest[1..];
        c := Desgetc();
      }
      assert BeforeEof(rest) == [] && s + [] == s;
    }
  }

  // The bytes in front of the first that reads as EOF.
  function BeforeEof(s: Bytes): Bytes {
    if s == [] || Signed(s[0]) == EOF then [] else [s[0]] + BeforeEof(s[1..])
  }

  lemma {:induction false} NoEof(s: Bytes)
    requires forall i :: 0 <= i < |s| ==> s[i] < 128
    ensures BeforeEof(s) == s
  {
    if s != [] {
      NoEof(s[1..]);
    }
  }

  // A text is written exactly if it has seven-bit characters only. What desgetc
  // returns from the file is then the text, and the file is as long as dowrite
  // reports.
  method WriteThenRead(k: Cipher, pvec: Bytes, s: Bytes) returns (ok: bool, r: Bytes, size: nat)
    requires Inverse(k) && OnBlocks(k) && |pvec| == 8
    ensures ok <==> forall i :: 0 <= i < |s| ==> s[i] < 128
    ensures ok ==> r == s && size == |s| + 8 - |s| % 8
  {
    hide Inverse; hide OnBlocks; hide Encrypt; hide Decrypt;
    var w := new Writer(k, pvec);
    ok, size := w.Dowrite(s);
    if !ok {
      return false, [], 0;
    }
    EncryptLength(k, ZERO, pvec, s);
    DecryptEncrypt(k, ZERO, pvec, s);
    var g := new Reader(k, w.fp);
    r := g.ReadAll();
    NoEof(s);
  }
}
