// The copying of dd: reads of any length, an output buffer, whole blocks out.
module DdCopy {
  import opened DdConv
  import opened Machine

  datatype Conversion = Simple | ToBlock | FromBlock

  // What the reads got.
  function Flat(got: seq<Bytes>): Bytes {
    if got == [] then [] else Flat(got[..|got| - 1]) + got[|got| - 1]
  }

  class Dd {
    const u: Setup
    const conv: Conversion
    const obs: nat
    const obuf: array<Byte>
    var oc: nat
    var col: nat
    var pending: int
    var rTruncate: nat
    var wFull: nat
    var wPartial: nat
    var out: Bytes     // what was written

    ghost predicate Valid()
      reads this, obuf
    {
      Ok(u) && obs > 0 && obuf.Length == obs && oc < obs && |out| == wFull * obs && wPartial == 0
    }

    // The bytes put out so far, written or in the buffer.
    ghost function Sent(): Bytes
      requires oc <= obuf.Length
      reads this, obuf
    {
      out + obuf[..oc]
    }

    constructor (u: Setup, conv: Conversion, obs: nat)
      requires Ok(u) && obs > 0
      ensures Valid() && Sent() == [] && col == 0 && pending == 0 && rTruncate == 0 && fresh(obuf)
      ensures this.u == u && this.conv == conv && this.obs == obs
    {
      this.u, this.conv, this.obs := u, conv, obs;
      obuf := new Byte[obs](i => 0);
      oc, col, pending, rTruncate, wFull, wPartial, out := 0, 0, 0, 0, 0, 0, [];
    }

    // write_output, for a full buffer
    method WriteOutput()
      requires obuf.Length == obs == oc > 0 && Ok(u) && |out| == wFull * obs && wPartial == 0
      modifies this`out, this`wFull, this`oc
      ensures Valid() && Sent() == old(Sent())
    {
      out := out + obuf[..];
      wFull := wFull + 1;
      oc := 0;
      assert obuf[..obs] == obuf[..];
      assert wFull * obs == (wFull - 1) * obs + obs;
    }

    // output_char
    method OutputChar(c: Byte)
      requires Valid()
      modifies this`out, this`wFull, this`oc, obuf
      ensures Valid() && Sent() == old(Sent()) + [c]
    {
      obuf[oc] := c;
      oc := oc + 1;
      assert obuf[..oc] == old(obuf[..oc]) + [c];
      if oc >= obs {
        WriteOutput();
      }
    }

    // while (n--) output_char (space_character)
    method OutputSpaces(n: nat)
      requires Valid()
      modifies this`out, this`wFull, this`oc, obuf
      ensures Valid() && Sent() == old(Sent()) + Spaces(u, n)
    {
      var i := 0;
      while i < n
        invariant 0 <= i <= n && Valid() && Sent() == old(Sent()) + Spaces(u, i)
      {
        OutputChar(u.sp);
        i := i + 1;
      }
    }

    // copy_simple
    method CopySimple(buf: Bytes)
      requires Valid()
      modifies this`out, this`wFull, this`oc, obuf
      ensures Valid() && Sent() == old(Sent()) + buf
    {
      var start := 0;
      while true
        invariant 0 <= start <= |buf| && Valid() && Sent() == old(Sent()) + buf[..start]
        decreases |buf| - start
      {
        var nfree := obs - oc;
        if nfree > |buf| - start {
          nfree := |buf| - start;
        }
        ghost var sent := Sent();
        BcopyIn(buf, start, nfree);
        assert buf[..start] + buf[start..start + nfree] == buf[..start + nfree];
        start := start + nfree;
        if oc >= obs {
          WriteOutput();
        }
        if start >= |buf| {
          break;
        }
      }
      assert buf[..start] == buf;
    }

    // bcopy into the free part of the buffer
    method BcopyIn(buf: Bytes, start: nat, n: nat)
      requires start + n <= |buf| && oc + n <= obuf.Length
      modifies this`oc, obuf
      ensures oc == old(oc) + n && Sent() == old(Sent()) + buf[start..start + n]
    {
      var i := 0;
      while i < n
        invariant 0 <= i <= n && oc == old(oc) + i && Sent() == old(Sent()) + buf[start..start + i]
        invariant out == old(out)
      {
        ghost var sent, had := Sent(), obuf[..oc];
        obuf[oc] := buf[start + i];
        oc := oc + 1;
        assert obuf[..oc] == had + [buf[start + i]];
        assert Sent() == sent + [buf[start + i]];
        assert buf[start..start + i + 1] == buf[start..start + i] + [buf[start + i]];
        i := i + 1;
      }
    }

    // the round of the loop of copy_with_block for one byte
    method BlockByte(c: Byte)
      requires Valid()
      modifies this`out, this`wFull, this`oc, this`col, this`rTruncate, obuf
      ensures Valid()
      ensures var (x, q) := BlockStep(u, old(BlockState(col, rTruncate)), c);
        Sent() == old(Sent()) + x && q == BlockState(col, rTruncate)
    {
      if c == u.nl {
        OutputSpaces(if u.cbs > col then u.cbs - col else 0);
        col := 0;
      } else {
        if col == u.cbs {
          rTruncate := rTruncate + 1;
        } else if col < u.cbs {
          OutputChar(c);
        }
        col := col + 1;
      }
    }

    // copy_with_block
    method CopyWithBlock(buf: Bytes)
      requires Valid()
      modifies this`out, this`wFull, this`oc, this`col, this`rTruncate, obuf
      ensures Valid()
      ensures var (x, q) := Block(u, old(BlockState(col, rTruncate)), buf);
        Sent() == old(Sent()) + x && q == BlockState(col, rTruncate)
    {
      hide Block; hide BlockStep; hide Sent;
      BlockNone(u, BlockState(col, rTruncate));
      ghost var q0 := BlockState(col, rTruncate);
      var i := 0;
      while i < |buf|
        invariant 0 <= i <= |buf| && Valid()
        invariant Block(u, q0, buf[..i]).1 == BlockState(col, rTruncate)
        invariant Sent() == old(Sent()) + Block(u, q0, buf[..i]).0
      {
        assert buf[..i + 1] == buf[..i] + [buf[i]];
        BlockLast(u, q0, buf[..i], buf[i]);
        BlockByte(buf[i]);
        i := i + 1;
      }
      assert buf[..i] == buf;
    }

    // copy_with_unblock
    method CopyWithUnblock(buf: Bytes)
      requires Valid()
      modifies this`out, this`wFull, this`oc, this`col, this`pending, obuf
      ensures Valid()
      ensures var (x, q) := Unblock(u, old(UnblockState(col, pending)), buf);
        Sent() == old(Sent()) + x && q == UnblockState(col, pending)
    {
      hide Unblock; hide UnblockStep; hide Sent;
      UnblockNone(u, UnblockState(col, pending));
      ghost var q0 := UnblockState(col, pending);
      var i := 0;
      while i < |buf|
        invariant 0 <= i <= |buf| && Valid()
        invariant Unblock(u, q0, buf[..i]).1 == UnblockState(col, pending)
        invariant Sent() == old(Sent()) + Unblock(u, q0, buf[..i]).0
      {
        assert buf[..i + 1] == buf[..i] + [buf[i]];
        UnblockLast(u, q0, buf[..i], buf[i]);
        OneByte(buf[i]);
        i := i + 1;
      }
      assert buf[..i] == buf;
    }

    // the rounds of the loop of copy_with_unblock for one byte: where the
    // record is full, it is pushed back and got again
    method OneByte(c: Byte)
      requires Valid()
      modifies this`out, this`wFull, this`oc, this`col, this`pending, obuf
      ensures Valid()
      ensures var (x, q) := UnblockStep(u, old(UnblockState(col, pending)), c);
        Sent() == old(Sent()) + x && q == UnblockState(col, pending)
    {
      var again := true;
      while again
        invariant Valid()
        invariant again && col < u.cbs ==> (
          || (Sent() == old(Sent()) && col == old(col) && pending == old(pending))
          || (old(col) >= u.cbs && Sent() == old(Sent()) + [u.nl] && col == 0 && pending == 0))
        invariant again && col >= u.cbs ==> Sent() == old(Sent()) && col == old(col) && pending == old(pending)
        invariant !again ==> var (x, q) := UnblockStep(u, old(UnblockState(col, pending)), c);
          Sent() == old(Sent()) + x && q == UnblockState(col, pending)
        decreases again, if col >= u.cbs then 1 else 0
      {
        var full := col >= u.cbs;
        col := col + 1;
        if full {
          col, pending := 0, 0;
          OutputChar(u.nl);
        } else {
          if c == u.sp {
            pending := pending + 1;
          } else {
            if pending != 0 {
              OutputSpaces(Owed(pending));
              pending := -1;
            }
            OutputChar(c);
          }
          again := false;
        }
      }
    }

    // What the conversion makes of all bytes, before copy's last step.
    ghost function Converted(s: Bytes): Bytes {
      match conv
      case Simple => s
      case ToBlock => Block(u, BlockState(0, 0), s).0
      case FromBlock => Unblock(u, UnblockState(0, 0), s).0
    }

    // and with it
    ghost function Complete(s: Bytes): Bytes {
      match conv
      case Simple => s
      case ToBlock => var (x, q) := Block(u, BlockState(0, 0), s); x + BlockEnd(u, q)
      case FromBlock => var (x, q) := Unblock(u, UnblockState(0, 0), s); x + UnblockEnd(u, q)
    }

    // The counters that belong to the bytes read.
    ghost predicate Counted(s: Bytes)
      reads this
    {
      && (conv == ToBlock ==> BlockState(col, rTruncate) == Block(u, BlockState(0, 0), s).1)
      && (conv == FromBlock ==> UnblockState(col, pending) == Unblock(u, UnblockState(0, 0), s).1)
    }

    // one round of the loop of copy
    method CopyRead(buf: Bytes, ghost before: Bytes)
      requires Valid() && Sent() == Converted(before) && Counted(before)
      modifies this`out, this`wFull, this`oc, this`col, this`rTruncate, this`pending, obuf
      ensures Valid() && Sent() == Converted(before + buf) && Counted(before + buf)
    {
      hide Block; hide Unblock;
      BlockSplits(u, BlockState(0, 0), before, buf);
      UnblockSplits(u, UnblockState(0, 0), before, buf);
      match conv
      case ToBlock => CopyWithBlock(buf);
      case FromBlock => CopyWithUnblock(buf);
      case Simple => CopySimple(buf);
    }

    // the end of copy
    method Finish(ghost all: Bytes)
      requires Valid() && Sent() == Converted(all) && Counted(all)
      modifies this, obuf
      ensures out == Complete(all) && wFull == |out| / obs && wPartial == if |out| % obs != 0 then 1 else 0
      ensures conv == ToBlock ==> rTruncate == Block(u, BlockState(0, 0), all).1.cut
    {
      hide Block; hide Unblock; hide Spaces;
      if conv == ToBlock && col > 0 {
        OutputSpaces(if u.cbs > col then u.cbs - col else 0);
        NoSpaces(u, u.cbs - col);
      }
      if conv == FromBlock && col == u.cbs {
        OutputChar(u.nl);
      }
      Blocks(wFull, obs, oc);
      if oc > 0 {
        out := out + obuf[..oc];
        wPartial := wPartial + 1;
      }
    }

    // copy, for the bytes that the reads got: the output depends on all of
    // them together, not on how they were split
    method Copy(got: seq<Bytes>)
      requires Valid() && Sent() == [] && col == 0 && pending == 0 && rTruncate == 0
      modifies this, obuf
      ensures out == Complete(Flat(got)) && wFull == |out| / obs && wPartial == if |out| % obs != 0 then 1 else 0
      ensures conv == ToBlock ==> rTruncate == Block(u, BlockState(0, 0), Flat(got)).1.cut
    {
      for n := 0 to |got|
        invariant Valid() && Sent() == Converted(Flat(got[..n])) && Counted(Flat(got[..n]))
      {
        assert got[..n + 1][..n] == got[..n];
        CopyRead(got[n], Flat(got[..n]));
      }
      assert got[..|got|] == got;
      Finish(Flat(got));
    }
  }

  lemma NoSpaces(u: Setup, n: int)
    ensures Spaces(u, if n > 0 then n else 0) == Spaces(u, n)
  {
  }

  lemma Blocks(n: nat, obs: nat, oc: nat)
    requires oc < obs
    ensures (n * obs + oc) / obs == n && (n * obs + oc) % obs == oc
  {
    var x := n * obs + oc;
    var d, m := x / obs, x % obs;
    assert x == obs * d + m;
    if d > n {
      Larger(n, d, obs);
    } else if d < n {
      Larger(d, n, obs);
    }
  }

  lemma {:induction false} Larger(a: nat, b: nat, k: nat)
    requires a < b
    ensures a * k + k <= b * k
    decreases b
  {
    if a + 1 < b {
      Larger(a, b - 1, k);
    }
    assert b * k == (b - 1) * k + k;
  }
}
