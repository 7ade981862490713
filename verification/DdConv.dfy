// conv=block and conv=unblock of dd as transducers of bytes.
module DdConv {
  import opened Machine

  // The conversion block size and the two characters the conversions look for.
  datatype Setup = Setup(cbs: nat, nl: Byte, sp: Byte)

  predicate Ok(u: Setup) {
    u.cbs > 0 && u.nl != u.sp
  }

  function Spaces(u: Setup, n: int): (r: Bytes)
    ensures |r| == if n > 0 then n else 0
    ensures forall i :: 0 <= i < |r| ==> r[i] == u.sp
  {
    if n <= 0 then [] else Spaces(u, n - 1) + [u.sp]
  }

  lemma {:induction false} SpacesSum(u: Setup, m: nat, n: nat)
    ensures Spaces(u, m + n) == Spaces(u, m) + Spaces(u, n)
  {
    if n > 0 {
      SpacesSum(u, m, n - 1);
    }
  }

  // ------------------------------------------------------------------ block

  // col and r_truncate.
  datatype BlockState = BlockState(col: nat, cut: nat)

  function BlockStep(u: Setup, q: BlockState, c: Byte): (Bytes, BlockState) {
    if c == u.nl then (Spaces(u, u.cbs - q.col), q.(col := 0))
    else (if q.col < u.cbs then [c] else [], BlockState(q.col + 1, if q.col == u.cbs then q.cut + 1 else q.cut))
  }

  // What the bytes s give, and the state behind them.
  function Block(u: Setup, q: BlockState, s: Bytes): (Bytes, BlockState) {
    if s == [] then ([], q) else
    var (a, q1) := Block(u, q, s[..|s| - 1]);
    var (b, q2) := BlockStep(u, q1, s[|s| - 1]);
    (a + b, q2)
  }

  // What copy adds at the end of the input.
  function BlockEnd(u: Setup, q: BlockState): Bytes {
    if q.col > 0 then Spaces(u, u.cbs - q.col) else []
  }

  // However the input is split into reads, the output is the same.
  lemma {:induction false} BlockSplits(u: Setup, q: BlockState, a: Bytes, b: Bytes)
    ensures var (x, q1) := Block(u, q, a); var (y, q2) := Block(u, q1, b); Block(u, q, a + b) == (x + y, q2)
    decreases |b|
  {
    var (x, q1) := Block(u, q, a);
    if b == [] {
      assert a + b == a && x + [] == x;
    } else {
      var b0 := b[..|b| - 1];
      assert (a + b)[..|a + b| - 1] == a + b0 && (a + b)[|a + b| - 1] == b[|b| - 1];
      BlockSplits(u, q, a, b0);
      var (y, q2) := Block(u, q1, b0);
      var (z, _) := BlockStep(u, q2, b[|b| - 1]);
      assert (x + y) + z == x + (y + z);
    }
  }

  // The record that a line becomes: exactly cbs bytes, padded or cut.
  function Record(u: Setup, line: Bytes): (r: Bytes)
    ensures |r| == u.cbs
    ensures |line| <= u.cbs ==> line <= r && forall i :: |line| <= i < u.cbs ==> r[i] == u.sp
    ensures |line| > u.cbs ==> r == line[..u.cbs]
  {
    if |line| <= u.cbs then line + Spaces(u, u.cbs - |line|) else line[..u.cbs]
  }

  function Records(u: Setup, lines: seq<Bytes>): Bytes {
    if lines == [] then [] else Records(u, lines[..|lines| - 1]) + Record(u, lines[|lines| - 1])
  }

  // How many lines are cut.
  function Cut(u: Setup, lines: seq<Bytes>): nat {
    if lines == [] then 0 else Cut(u, lines[..|lines| - 1]) + if |lines[|lines| - 1]| > u.cbs then 1 else 0
  }

  // Lines, each with its newline behind it.
  function Text(u: Setup, lines: seq<Bytes>): Bytes {
    if lines == [] then [] else Text(u, lines[..|lines| - 1]) + lines[|lines| - 1] + [u.nl]
  }

  predicate Lines(u: Setup, lines: seq<Bytes>) {
    forall i :: 0 <= i < |lines| ==> u.nl !in lines[i]
  }

  lemma BlockNone(u: Setup, q: BlockState)
    ensures Block(u, q, []) == ([], q)
  {
  }

  lemma BlockLast(u: Setup, q: BlockState, s: Bytes, c: Byte)
    ensures var (a, q1) := Block(u, q, s); var (b, q2) := BlockStep(u, q1, c); Block(u, q, s + [c]) == (a + b, q2)
  {
    assert (s + [c])[..|s + [c]| - 1] == s;
  }

  // As much of a line as fits.
  function Fitting(u: Setup, line: Bytes): Bytes {
    if |line| <= u.cbs then line else line[..u.cbs]
  }

  lemma FittingMore(u: Setup, l: Bytes, c: Byte)
    ensures Fitting(u, l + [c]) == Fitting(u, l) + if |l| < u.cbs then [c] else []
  {
    if |l| == u.cbs {
      assert (l + [c])[..u.cbs] == l;
    } else if |l| > u.cbs {
      assert (l + [c])[..u.cbs] == l[..u.cbs];
    }
  }

  lemma {:induction false} BlockInLine(u: Setup, q: BlockState, line: Bytes)
    requires q.col == 0 && u.nl !in line
    ensures Block(u, q, line) == (Fitting(u, line), BlockState(|line|, q.cut + if |line| > u.cbs then 1 else 0))
    decreases |line|
  {
    if line == [] {
    } else {
      hide Block; hide Fitting; hide Spaces;
      var l, c := line[..|line| - 1], line[|line| - 1];
      assert forall x :: x in l ==> x in line;
      assert c in line;
      assert line == l + [c];
      BlockInLine(u, q, l);
      BlockLast(u, q, l, c);
      FittingMore(u, l, c);
    }
  }

  lemma RecordIs(u: Setup, line: Bytes)
    ensures Record(u, line) == Fitting(u, line) + Spaces(u, u.cbs - |line|)
  {
  }

  lemma BlockOneLine(u: Setup, q: BlockState, line: Bytes)
    requires q.col == 0 && u.nl !in line
    ensures Block(u, q, line + [u.nl]) == (Record(u, line), BlockState(0, q.cut + if |line| > u.cbs then 1 else 0))
  {
    hide Block; hide Fitting; hide Spaces; hide Record;
    BlockInLine(u, q, line);
    BlockLast(u, q, line, u.nl);
    RecordIs(u, line);
  }

  // For all lines and an unfinished last one: block gives the record of each,
  // and r_truncate is the number of those that were cut.
  lemma {:induction false} BlockLines(u: Setup, lines: seq<Bytes>)
    requires Lines(u, lines)
    ensures Block(u, BlockState(0, 0), Text(u, lines)) == (Records(u, lines), BlockState(0, Cut(u, lines)))
    decreases |lines|
  {
    if lines != [] {
      var ls, l := lines[..|lines| - 1], lines[|lines| - 1];
      BlockLines(u, ls);
      assert Text(u, lines) == Text(u, ls) + (l + [u.nl]);
      BlockSplits(u, BlockState(0, 0), Text(u, ls), l + [u.nl]);
      BlockOneLine(u, BlockState(0, Cut(u, ls)), l);
    }
  }

  lemma BlockUnfinished(u: Setup, q: BlockState, last: Bytes)
    requires q.col == 0 && u.nl !in last
    ensures var (y, q1) := Block(u, q, last);
      && y + BlockEnd(u, q1) == (if last == [] then [] else Record(u, last))
      && q1.cut == q.cut + if |last| > u.cbs then 1 else 0
  {
    hide Block; hide Spaces; hide Record;
    BlockInLine(u, q, last);
    RecordIs(u, last);
  }

  lemma Associates(a: Bytes, b: Bytes, c: Bytes)
    ensures (a + b) + c == a + (b + c)
  {
  }

  lemma BlockWhole(u: Setup, lines: seq<Bytes>, last: Bytes)
    requires Lines(u, lines) && u.nl !in last
    ensures var (x, q) := Block(u, BlockState(0, 0), Text(u, lines) + last);
      && x + BlockEnd(u, q) == Records(u, lines) + (if last == [] then [] else Record(u, last))
      && q.cut == Cut(u, lines) + if |last| > u.cbs then 1 else 0
  {
    hide Block; hide BlockEnd; hide Record; hide Records; hide Text; hide Cut;
    BlockLines(u, lines);
    BlockSplits(u, BlockState(0, 0), Text(u, lines), last);
    var q1 := BlockState(0, Cut(u, lines));
    BlockUnfinished(u, q1, last);
    Associates(Records(u, lines), Block(u, q1, last).0, BlockEnd(u, Block(u, q1, last).1));
  }

  // ---------------------------------------------------------------- unblock

  // col and pending_spaces; the counter is left at -1 once spaces have been
  // put out.
  datatype UnblockState = UnblockState(col: nat, pending: int)

  // The spaces that while (pending_spaces--) puts out: an int that is counted
  // down to 0 and, from below 0, wraps round.
  function Owed(pending: int): nat {
    pending % WORD
  }

  // A character in its record.
  function InRecord(u: Setup, pending: int, c: Byte): (Bytes, int) {
    if c == u.sp then ([], pending + 1)
    else if pending != 0 then (Spaces(u, Owed(pending)) + [c], -1)
    else ([c], 0)
  }

  function UnblockStep(u: Setup, q: UnblockState, c: Byte): (Bytes, UnblockState) {
    var full := q.col >= u.cbs;
    var (a, p) := InRecord(u, if full then 0 else q.pending, c);
    ((if full then [u.nl] else []) + a, UnblockState(if full then 1 else q.col + 1, p))
  }

  function Unblock(u: Setup, q: UnblockState, s: Bytes): (Bytes, UnblockState) {
    if s == [] then ([], q) else
    var (a, q1) := Unblock(u, q, s[..|s| - 1]);
    var (b, q2) := UnblockStep(u, q1, s[|s| - 1]);
    (a + b, q2)
  }

  function UnblockEnd(u: Setup, q: UnblockState): Bytes {
    if q.col == u.cbs then [u.nl] else []
  }

  lemma UnblockNone(u: Setup, q: UnblockState)
    ensures Unblock(u, q, []) == ([], q)
  {
  }

  lemma UnblockLast(u: Setup, q: UnblockState, s: Bytes, c: Byte)
    ensures var (a, q1) := Unblock(u, q, s); var (b, q2) := UnblockStep(u, q1, c); Unblock(u, q, s + [c]) == (a + b, q2)
  {
    assert (s + [c])[..|s + [c]| - 1] == s;
  }

  lemma {:induction false} UnblockSplits(u: Setup, q: UnblockState, a: Bytes, b: Bytes)
    ensures var (x, q1) := Unblock(u, q, a); var (y, q2) := Unblock(u, q1, b); Unblock(u, q, a + b) == (x + y, q2)
    decreases |b|
  {
    var (x, q1) := Unblock(u, q, a);
    if b == [] {
      assert a + b == a && x + [] == x;
    } else {
      hide Unblock; hide UnblockStep;
      var b0, c := b[..|b| - 1], b[|b| - 1];
      assert a + b == (a + b0) + [c] && b == b0 + [c];
      UnblockSplits(u, q, a, b0);
      UnblockLast(u, q, a + b0, c);
      UnblockLast(u, q1, b0, c);
      var (y, q2) := Unblock(u, q1, b0);
      var (z, _) := UnblockStep(u, q2, c);
      assert (x + y) + z == x + (y + z);
    }
  }

  // What is left of a record r, with p pending spaces, as the program puts it
  // out and as it should be without its trailing spaces.
  function Emitted(u: Setup, r: Bytes, p: int): Bytes {
    if r == [] then [] else
    var (a, p1) := InRecord(u, p, r[0]);
    a + Emitted(u, r[1..], p1)
  }

  function Stripped(u: Setup, r: Bytes, q: nat): Bytes {
    if r == [] then []
    else if r[0] == u.sp then Stripped(u, r[1..], q + 1)
    else Spaces(u, q) + [r[0]] + Stripped(u, r[1..], 0)
  }

  predicate Blank(u: Setup, r: Bytes) {
    forall i :: 0 <= i < |r| ==> r[i] == u.sp
  }

  // At most one character follows the first run of spaces, trailing spaces
  // apart; q for the spaces in front.
  predicate OneGap(u: Setup, r: Bytes, q: nat) {
    if r == [] then true
    else if r[0] == u.sp then OneGap(u, r[1..], q + 1)
    else if q == 0 then OneGap(u, r[1..], 0)
    else Blank(u, r[1..])
  }

  lemma {:induction false} BlankEmits(u: Setup, r: Bytes, p: int, q: nat)
    requires Blank(u, r)
    ensures Emitted(u, r, p) == [] && Stripped(u, r, q) == []
    decreases |r|
  {
    if r != [] {
      BlankEmits(u, r[1..], p + 1, q + 1);
    }
  }

  // Once the counter is one too low, the next character comes out wrong.
  lemma {:induction false} OffByOne(u: Setup, r: Bytes, q: nat)
    requires q + |r| < WORD
    ensures Emitted(u, r, q - 1) == Stripped(u, r, q) <==> Blank(u, r)
    decreases |r|
  {
    if r == [] {
    } else if r[0] == u.sp {
      OffByOne(u, r[1..], q + 1);
      assert Blank(u, r) <==> Blank(u, r[1..]);
    } else {
      var e := Emitted(u, r, q - 1);
      var n := if q == 1 then 0 else Owed(q - 1);
      assert n != q;
      assert e == Spaces(u, n) + [r[0]] + Emitted(u, r[1..], if q == 1 then 0 else -1);
      var t := Stripped(u, r, q);
      if n < q {
        assert e[n] == r[0] && t[n] == u.sp;
      } else {
        assert e[q] == u.sp && t[q] == r[0];
      }
    }
  }

  // A record comes out without its trailing spaces, exactly if it has one gap.
  lemma {:induction false} EmittedIff(u: Setup, r: Bytes, q: nat)
    requires q + |r| < WORD
    ensures Emitted(u, r, q) == Stripped(u, r, q) <==> OneGap(u, r, q)
    decreases |r|
  {
    if r == [] {
    } else if r[0] == u.sp {
      EmittedIff(u, r[1..], q + 1);
    } else if q == 0 {
      EmittedIff(u, r[1..], 0);
      assert Spaces(u, 0) + [r[0]] == [r[0]];
      assert Emitted(u, r, 0) == [r[0]] + Emitted(u, r[1..], 0);
      assert Stripped(u, r, 0) == [r[0]] + Stripped(u, r[1..], 0);
      SameHead([r[0]], Emitted(u, r[1..], 0), Stripped(u, r[1..], 0));
    } else {
      OffByOne(u, r[1..], 0);
      assert Owed(q) == q;
      SameHead(Spaces(u, q) + [r[0]], Emitted(u, r[1..], -1), Stripped(u, r[1..], 0));
    }
  }

  lemma SameHead(h: Bytes, a: Bytes, b: Bytes)
    ensures h + a == h + b <==> a == b
  {
    assert (h + a)[|h|..] == a && (h + b)[|h|..] == b;
  }

  // ------------------------------------------------------- unblock after block

  lemma {:induction false} UnblockInRecord(u: Setup, q: UnblockState, r: Bytes)
    requires q.col + |r| <= u.cbs
    ensures Unblock(u, q, r).0 == Emitted(u, r, q.pending) && Unblock(u, q, r).1.col == q.col + |r|
    decreases |r|
  {
    if r != [] {
      assert r == [r[0]] + r[1..] && [r[0]][..0] == [];
      UnblockSplits(u, q, [r[0]], r[1..]);
      UnblockFirst(u, q, r[0]);
      UnblockInRecord(u, UnblockStep(u, q, r[0]).1, r[1..]);
      assert [] + InRecord(u, q.pending, r[0]).0 == InRecord(u, q.pending, r[0]).0;
    }
  }

  lemma UnblockFirst(u: Setup, q: UnblockState, c: Byte)
    ensures Unblock(u, q, [c]) == UnblockStep(u, q, c)
  {
    UnblockLast(u, q, [], c);
    assert [] + [c] == [c];
    assert [] + UnblockStep(u, q, c).0 == UnblockStep(u, q, c).0;
  }

  // Behind a full record the next one begins with the newline of the last.
  lemma UnblockNext(u: Setup, p: int, s: Bytes)
    requires u.cbs > 0 && s != []
    ensures var (x, q) := Unblock(u, UnblockState(0, 0), s); Unblock(u, UnblockState(u.cbs, p), s) == ([u.nl] + x, q)
  {
    hide Unblock; hide InRecord;
    var c, t := s[0], s[1..];
    assert s == [c] + t;
    UnblockFirst(u, UnblockState(0, 0), c);
    UnblockFirst(u, UnblockState(u.cbs, p), c);
    UnblockSplits(u, UnblockState(0, 0), [c], t);
    UnblockSplits(u, UnblockState(u.cbs, p), [c], t);
    var a := InRecord(u, 0, c).0;
    assert [] + a == a;
    var q := UnblockStep(u, UnblockState(0, 0), c).1;
    assert ([u.nl] + a) + Unblock(u, q, t).0 == [u.nl] + (a + Unblock(u, q, t).0);
  }

  // The lines that unblock makes of the records of lines.
  function Came(u: Setup, lines: seq<Bytes>): seq<Bytes> {
    seq(|lines|, i requires 0 <= i < |lines| => Emitted(u, Record(u, lines[i]), 0))
  }

  lemma {:induction false} UnblockRecords(u: Setup, lines: seq<Bytes>)
    requires u.cbs > 0
    ensures var (x, q) := Unblock(u, UnblockState(0, 0), Records(u, lines));
      x + UnblockEnd(u, q) == Text(u, Came(u, lines)) && (lines != [] ==> q.col == u.cbs)
  {
    hide Unblock; hide Emitted; hide Came; hide Text; hide Record;
    if lines == [] {
      NoRecords(u);
    } else {
      var ls, l := lines[..|lines| - 1], lines[|lines| - 1];
      var r := Record(u, l);
      UnblockRecords(u, ls);
      UnblockInRecord(u, UnblockState(0, 0), r);
      CameLast(u, ls, l);
      assert lines == ls + [l];
      UnblockSplits(u, UnblockState(0, 0), Records(u, ls), r);
      if ls == [] {
        NoRecords(u);
        assert [] + Emitted(u, r, 0) == Emitted(u, r, 0);
      } else {
        var (x, q) := Unblock(u, UnblockState(0, 0), Records(u, ls));
        UnblockNext(u, q.pending, r);
        Associates(x, [u.nl], Emitted(u, r, 0));
      }
    }
  }

  // A record that the input ends in before it is full comes out behind the
  // newline of the one before it, and has none of its own.
  lemma UnblockUnfinished(u: Setup, lines: seq<Bytes>, last: Bytes)
    requires 0 < |last| < u.cbs
    ensures var (x, q) := Unblock(u, UnblockState(0, 0), Records(u, lines) + last);
      x + UnblockEnd(u, q) == Text(u, Came(u, lines)) + Emitted(u, last, 0)
  {
    hide Unblock; hide Emitted; hide Came; hide Text; hide Record;
    UnblockRecords(u, lines);
    UnblockSplits(u, UnblockState(0, 0), Records(u, lines), last);
    UnblockInRecord(u, UnblockState(0, 0), last);
    var (x, q) := Unblock(u, UnblockState(0, 0), Records(u, lines));
    var e := Emitted(u, last, 0);
    if lines == [] {
      NoRecords(u);
      assert Records(u, lines) == [];
    } else {
      UnblockNext(u, q.pending, last);
      Associates(x, [u.nl], e);
    }
    assert Unblock(u, UnblockState(0, 0), last).0 == e;
    assert (Text(u, Came(u, lines)) + e) + [] == Text(u, Came(u, lines)) + e;
  }

  lemma NoRecords(u: Setup)
    ensures Unblock(u, UnblockState(0, 0), []) == ([], UnblockState(0, 0)) && Text(u, Came(u, [])) == []
  {
  }

  lemma CameLast(u: Setup, ls: seq<Bytes>, l: Bytes)
    ensures Came(u, ls + [l]) == Came(u, ls) + [Emitted(u, Record(u, l), 0)]
    ensures Text(u, Came(u, ls + [l])) == Text(u, Came(u, ls)) + Emitted(u, Record(u, l), 0) + [u.nl]
  {
    var c := Came(u, ls + [l]);
    assert c[..|c| - 1] == Came(u, ls);
  }

  // A line that comes back: no spaces at its end, one gap at most.
  predicate Kept(u: Setup, line: Bytes) {
    (line == [] || line[|line| - 1] != u.sp) && OneGap(u, line, 0)
  }

  lemma {:induction false} StrippedPadded(u: Setup, line: Bytes, k: nat, q: nat)
    requires line != [] && line[|line| - 1] != u.sp
    ensures Stripped(u, line + Spaces(u, k), q) == Spaces(u, q) + line
    decreases |line|
  {
    var r := line + Spaces(u, k);
    assert r[0] == line[0] && r[1..] == line[1..] + Spaces(u, k);
    if |line| == 1 {
      assert line[1..] + Spaces(u, k) == Spaces(u, k);
      BlankEmits(u, Spaces(u, k), 0, 0);
      assert Spaces(u, q) + [r[0]] + [] == Spaces(u, q) + line;
    } else if line[0] == u.sp {
      StrippedPadded(u, line[1..], k, q + 1);
      SpacesSum(u, q, 1);
      assert Spaces(u, 1) == [u.sp];
      assert Spaces(u, q) + [u.sp] + line[1..] == Spaces(u, q) + line;
    } else {
      StrippedPadded(u, line[1..], k, 0);
      assert Spaces(u, q) + [r[0]] + (Spaces(u, 0) + line[1..]) == Spaces(u, q) + line;
    }
  }

  lemma {:induction false} OneGapPadded(u: Setup, line: Bytes, k: nat, q: nat)
    ensures OneGap(u, line + Spaces(u, k), q) <==> OneGap(u, line, q)
    decreases |line|
  {
    var r := line + Spaces(u, k);
    if line == [] {
      assert r == Spaces(u, k);
      BlankGap(u, Spaces(u, k), q);
    } else {
      assert r[0] == line[0] && r[1..] == line[1..] + Spaces(u, k);
      OneGapPadded(u, line[1..], k, if line[0] == u.sp then q + 1 else 0);
      if Blank(u, line[1..]) {
        assert Blank(u, r[1..]);
      } else {
        var i :| 0 <= i < |line[1..]| && line[1..][i] != u.sp;
        assert r[1..][i] != u.sp;
      }
    }
  }

  lemma {:induction false} BlankGap(u: Setup, r: Bytes, q: nat)
    requires Blank(u, r)
    ensures OneGap(u, r, q)
    decreases |r|
  {
    if r != [] {
      BlankGap(u, r[1..], q + 1);
    }
  }

  // What is put out ends in no space and holds no newline that is not there.
  lemma {:induction false} EmittedEnd(u: Setup, r: Bytes, p: int)
    requires u.nl != u.sp && u.nl !in r
    ensures var e := Emitted(u, r, p); (e == [] || e[|e| - 1] != u.sp) && u.nl !in e
    decreases |r|
  {
    if r != [] {
      assert r[0] in r;
      EmittedEnd(u, r[1..], InRecord(u, p, r[0]).1);
    }
  }

  lemma KeptIff(u: Setup, line: Bytes)
    requires Ok(u) && u.nl !in line && |line| <= u.cbs < WORD
    ensures Emitted(u, Record(u, line), 0) == line <==> Kept(u, line)
    ensures u.nl !in Emitted(u, Record(u, line), 0)
  {
    hide Emitted; hide Stripped; hide OneGap; hide Spaces;
    var k := u.cbs - |line|;
    var r := Record(u, line);
    assert r == line + Spaces(u, k);
    EmittedEnd(u, r, 0);
    OneGapPadded(u, line, k, 0);
    if line == [] {
      BlankEmits(u, r, 0, 0);
      BlankGap(u, [], 0);
    } else if line[|line| - 1] != u.sp {
      StrippedPadded(u, line, k, 0);
      assert Spaces(u, 0) + line == line;
      EmittedIff(u, r, 0);
    }
  }

  lemma {:induction false} TextInjective(u: Setup, a: seq<Bytes>, b: seq<Bytes>)
    requires Lines(u, a) && Lines(u, b) && |a| == |b|
    ensures Text(u, a) == Text(u, b) <==> a == b
    decreases |a|
  {
    if a != [] && Text(u, a) == Text(u, b) {
      var a0, b0, x, y := a[..|a| - 1], b[..|b| - 1], a[|a| - 1], b[|b| - 1];
      TextEnds(u, a0);
      TextEnds(u, b0);
      var s, t := Text(u, a0), Text(u, b0);
      assert (s + x + [u.nl])[..|s + x|] == s + x && (t + y + [u.nl])[..|t + y|] == t + y;
      LastLine(u, s, x, t, y);
      TextInjective(u, a0, b0);
      assert a == a0 + [x] && b == b0 + [y];
    }
  }

  lemma TextEnds(u: Setup, a: seq<Bytes>)
    ensures a != [] ==> Text(u, a) != [] && Text(u, a)[|Text(u, a)| - 1] == u.nl
    ensures a == [] ==> Text(u, a) == []
  {
  }

  lemma LastLine(u: Setup, s: Bytes, x: Bytes, t: Bytes, y: Bytes)
    requires s + x == t + y && u.nl !in x && u.nl !in y
    requires s == [] || s[|s| - 1] == u.nl
    requires t == [] || t[|t| - 1] == u.nl
    ensures s == t && x == y
  {
    var z := s + x;
    assert z == t + y;
    assert s != [] ==> z[|s| - 1] == u.nl;
    assert t != [] ==> z[|t| - 1] == u.nl;
    assert forall i :: |s| <= i < |z| ==> z[i] == x[i - |s|];
    assert forall i :: |t| <= i < |z| ==> z[i] == y[i - |t|];
    assert |s| == |t|;
    assert z[..|s|] == s && z[..|s|] == t && z[|s|..] == x && z[|s|..] == y;
  }

  // conv=block followed by conv=unblock.
  function Back(u: Setup, s: Bytes): Bytes {
    var (x, q) := Block(u, BlockState(0, 0), s);
    var (y, q2) := Unblock(u, UnblockState(0, 0), x + BlockEnd(u, q));
    y + UnblockEnd(u, q2)
  }

  // For every text of finished lines that fit: it comes back exactly if every
  // line is one that does.
  lemma BackIff(u: Setup, lines: seq<Bytes>)
    requires Ok(u) && u.cbs < WORD && Lines(u, lines) && forall i :: 0 <= i < |lines| ==> |lines[i]| <= u.cbs
    ensures Back(u, Text(u, lines)) == Text(u, lines) <==> forall i :: 0 <= i < |lines| ==> Kept(u, lines[i])
  {
    hide Block; hide Unblock; hide Kept; hide Text; hide Record; hide Emitted;
    BlockWhole(u, lines, []);
    assert Text(u, lines) + [] == Text(u, lines) && Records(u, lines) + [] == Records(u, lines);
    UnblockRecords(u, lines);
    forall i | 0 <= i < |lines|
      ensures Came(u, lines)[i] == lines[i] <==> Kept(u, lines[i])
      ensures u.nl !in Came(u, lines)[i]
    {
      KeptIff(u, lines[i]);
    }
    TextInjective(u, Came(u, lines), lines);
  }
}
