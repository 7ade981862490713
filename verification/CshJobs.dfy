// The job table of csh: processes on one list, the processes of a job on a ring.
module CshJobs {

  datatype Flag =
    | PRUNNING | PSTOPPED | PNEXITED | PAEXITED | PSIGNALED | PNOTIFY
    | PFOREGND | PDUMPED | PREPORTED | PINTERRUPTED | PNEEDNOTE

  const BIGINDEX := 9

  class Process {
    var next: Process?
    var friends: Process
    var flags: set<Flag>
    var reason: int
    var index: int
    var pid: int
    var jobid: int
    // the ring of friends, its leader first, and the place of this process there
    ghost var ring: seq<Process>
    ghost var at: int

    constructor (p: int, f: set<Flag>)
      ensures pid == p && flags == f && index == jobid == 0 && next == null
      ensures friends == this && ring == [this] && at == 0
    {
      next, friends, flags, reason, index, pid, jobid := null, this, f, 0, 0, p, 0;
      ring, at := [this], 0;
    }
  }

  // ------------------------------------------------------------ invariant

  ghost function At(procs: seq<Process>, i: int): Process? {
    if 0 <= i < |procs| then procs[i] else null
  }

  ghost predicate Lists(procs: seq<Process>, S: set<Process>) {
    && (forall i :: 0 <= i < |procs| ==> procs[i] in S)
    && (forall x :: x in S ==> x in procs)
    && (forall i, j :: 0 <= i < j < |procs| ==> procs[i] != procs[j])
  }

  lemma ListsMore(procs: seq<Process>, S: set<Process>, pp: Process)
    requires Lists(procs, S) && pp !in S
    ensures Lists([pp] + procs, S + {pp})
  {
    var procs' := [pp] + procs;
    forall x | x in S + {pp} ensures x in procs' {
      if x == pp {
        assert procs'[0] == x;
      } else {
        var i :| 0 <= i < |procs| && procs[i] == x;
        assert procs'[i + 1] == x;
      }
    }
  }

  // The list that starts at `head` holds the processes of S, as procs.
  ghost predicate ListOK(head: Process, procs: seq<Process>, S: set<Process>)
    reads head`next, S`next
  {
    && Lists(procs, S)
    && head !in S
    && head.next == At(procs, 0)
    && (forall i :: 0 <= i < |procs| ==> procs[i].next == At(procs, i + 1))
  }

  // Process x is on its ring, and the ring is closed.
  ghost predicate OnRing(x: Process, S: set<Process>)
    requires x in S
    reads S`friends, S`ring, S`at
  {
    && 0 <= x.at < |x.ring| && x.ring[x.at] == x
    && (forall i :: 0 <= i < |x.ring| ==> x.ring[i] in S)
    && x.friends == x.ring[if x.at + 1 < |x.ring| then x.at + 1 else 0]
    && (forall i :: 0 <= i < |x.ring| ==> x.ring[i].ring == x.ring && x.ring[i].at == i)
  }

  ghost predicate RingsOK(S: set<Process>)
    reads S`friends, S`ring, S`at
  {
    forall x {:trigger OnRing(x, S)} :: x in S ==> OnRing(x, S)
  }

  // The leader of the job of x.
  ghost function Lead(x: Process): Process
    reads x`ring
  {
    if x.ring == [] then x else x.ring[0]
  }

  // A job is live or flushed as a whole; its leader is the process whose pid
  // is the job id.
  ghost predicate Settled(x: Process, S: set<Process>)
    requires x in S && Lead(x) in S
    reads S`ring, S`jobid, S`index, S`pid
  {
    && x.jobid == Lead(x).jobid && x.index == Lead(x).index
    && (x.pid == 0 <==> Lead(x).pid == 0)
    && (x.pid == 0 ==> x.index == 0)
    && (x.pid != 0 ==> x.index >= 1 && Lead(x).pid == x.jobid)
  }

  // Live processes have different pids, live jobs different indices.
  ghost predicate StateOK(S: set<Process>)
    reads S`ring, S`jobid, S`index, S`pid
  {
    && (forall x {:trigger Settled(x, S)} :: x in S && Lead(x) in S ==> Settled(x, S))
    && PidsDiffer(S) && IndicesDiffer(S)
  }

  ghost predicate PidsDiffer(S: set<Process>)
    reads S`pid
  {
    forall x, y {:trigger x.pid, y.pid} :: x in S && y in S && x.pid == y.pid != 0 ==> x == y
  }

  ghost predicate IndicesDiffer(S: set<Process>)
    reads S`index, S`ring
  {
    forall x, y {:trigger x.index, y.index} :: x in S && y in S && x.index == y.index != 0 ==> Lead(x) == Lead(y)
  }

  // The indices in use; 0 is the index of the flushed.
  ghost function Indices(S: set<Process>): set<int>
    reads S`index
  {
    set x | x in S :: x.index
  }

  // The index of a new job where m is the largest and `used` are in use: the
  // next one, or the smallest that is free once the next one is above BIGINDEX.
  ghost predicate NextIndex(i: int, m: int, used: set<int>) {
    && i >= 1 && i !in used
    && (m < BIGINDEX ==> i == m + 1)
    && (m >= BIGINDEX ==> forall j :: 1 <= j < i ==> j in used)
  }

  // m is the largest index in use.
  ghost predicate MaxOK(S: set<Process>, m: int)
    reads S`index
  {
    && m >= 0
    && (forall x :: x in S ==> x.index <= m)
    && (m == 0 || m in Indices(S))
  }

  // The leader of a job that has not been flushed, or null.
  ghost predicate IsJob(x: Process?, S: set<Process>)
    reads S`pid, S`at
  {
    x == null || (x in S && x.pid != 0 && x.at == 0)
  }

  // The current and the previous job are null or different live jobs, and
  // there is no previous job without a current one.
  ghost predicate Recent(job: Process?, cur: Process?, prev: Process?, S: set<Process>)
    reads S`pid, S`at
  {
    && IsJob(job, S) && IsJob(cur, S) && IsJob(prev, S)
    && (cur != null ==> cur != prev)
    && (cur == null ==> prev == null)
  }

  // In a proper table exactly the leader of a live job has its pid as job id.
  lemma LeaderTest(x: Process, S: set<Process>)
    requires RingsOK(S) && StateOK(S) && x in S
    ensures x.pid != 0 ==> (x.pid == x.jobid <==> x.at == 0)
    ensures Lead(x) in S && Lead(x).at == 0 && Lead(Lead(x)) == Lead(x)
    ensures x.at == 0 <==> x == Lead(x)
    ensures x.pid == 0 <==> Lead(x).pid == 0
    ensures x.friends in S && Lead(x.friends) == Lead(x)
    ensures 0 <= x.at < |x.ring|
    ensures x.friends.ring == x.ring
    ensures x.friends.at == if x.at + 1 < |x.ring| then x.at + 1 else 0
  {
    RingPlace(x, S);
    assert OnRing(x, S) && Settled(x, S);
    assert OnRing(Lead(x), S);
  }

  lemma RingStep(y: Process, S: set<Process>, ring: seq<Process>, i: int)
    requires RingsOK(S) && y in S && y.ring == ring && y.at == i
    ensures ring != [] && Lead(y) == ring[0] && 0 <= i < |ring|
    ensures y.friends == ring[if i + 1 < |ring| then i + 1 else 0]
  {
    hide RingsOK;
    OnRingOf(y, S);
  }

  lemma OnRingOf(x: Process, S: set<Process>)
    requires RingsOK(S) && x in S
    ensures OnRing(x, S)
  {
    hide OnRing;
  }

  lemma AllOnRing(S: set<Process>)
    requires RingsOK(S)
    ensures forall x {:trigger OnRing(x, S)} :: x in S ==> OnRing(x, S)
  {
    hide OnRing;
  }

  lemma FromOnRing(S: set<Process>)
    requires forall x {:trigger OnRing(x, S)} :: x in S ==> OnRing(x, S)
    ensures RingsOK(S)
  {
    hide OnRing;
  }

  lemma RingNode(pp: Process, S: set<Process>, i: int)
    requires RingsOK(S) && pp in S && pp.at == 0 && 0 <= i < |pp.ring|
    ensures pp.ring[i] in S && pp.ring[i].at == i && Lead(pp.ring[i]) == pp
    ensures pp.ring[i].friends == pp.ring[if i + 1 < |pp.ring| then i + 1 else 0]
  {
    hide RingsOK; hide OnRing; hide Lead;
    RingPlace(pp, S);
    RingPart(pp, S, i);
    RingStep(pp.ring[i], S, pp.ring, i);
  }

  lemma RingPart(x: Process, S: set<Process>, i: int)
    requires RingsOK(S) && x in S && 0 <= i < |x.ring|
    ensures x.ring[i] in S && x.ring[i].ring == x.ring && x.ring[i].at == i
  {
    hide RingsOK;
    OnRingOf(x, S);
  }

  lemma RingPlace(x: Process, S: set<Process>)
    requires RingsOK(S) && x in S
    ensures Lead(x) in S && Lead(x).at == 0 && Lead(x).ring == x.ring
    ensures 0 <= x.at < |x.ring| && x.ring[x.at] == x
  {
    hide RingsOK;
    OnRingOf(x, S);
  }

  lemma SelfLed(x: Process, S: set<Process>)
    requires RingsOK(S) && x in S
    ensures Lead(x) in S && Lead(Lead(x)) == Lead(x)
    ensures x.at == 0 <==> x == Lead(x)
  {
    hide RingsOK;
    OnRingOf(x, S);
    RingPlace(x, S);
  }

  // The processes of a job, by their places on its ring.
  lemma RingAt(pp: Process, S: set<Process>)
    requires RingsOK(S) && pp in S && pp.at == 0
    ensures pp.ring != [] && pp.ring[0] == pp
    ensures forall i :: 0 <= i < |pp.ring| ==> pp.ring[i] in S && pp.ring[i].at == i && Lead(pp.ring[i]) == pp
    ensures forall i :: 0 <= i < |pp.ring| ==> pp.ring[i].friends == pp.ring[if i + 1 < |pp.ring| then i + 1 else 0]
    ensures forall x :: x in S && Lead(x) == pp ==> 0 <= x.at < |pp.ring| && pp.ring[x.at] == x
  {
    hide RingsOK; hide OnRing; hide Lead;
    RingPlace(pp, S);
    forall i | 0 <= i < |pp.ring|
      ensures pp.ring[i] in S && pp.ring[i].at == i && Lead(pp.ring[i]) == pp
      ensures pp.ring[i].friends == pp.ring[if i + 1 < |pp.ring| then i + 1 else 0]
    {
      RingNode(pp, S, i);
    }
    forall x | x in S && Lead(x) == pp ensures 0 <= x.at < |pp.ring| && pp.ring[x.at] == x {
      RingPlace(x, S);
    }
  }

  lemma ListParts(head: Process, procs: seq<Process>, S: set<Process>)
    requires ListOK(head, procs, S)
    ensures Lists(procs, S) && head !in S && head.next == At(procs, 0)
    ensures forall i :: 0 <= i < |procs| ==> procs[i] in S && procs[i].next == At(procs, i + 1)
  {
  }

  // One more process, behind the head.
  lemma ListMore(head: Process, procs: seq<Process>, S: set<Process>, pp: Process)
    requires Lists(procs, S) && head !in S && pp !in S && pp != head
    requires head.next == pp && pp.next == At(procs, 0)
    requires forall i :: 0 <= i < |procs| ==> procs[i].next == At(procs, i + 1)
    ensures ListOK(head, [pp] + procs, S + {pp})
  {
    hide Lists;
    ListsMore(procs, S, pp);
    var procs' := [pp] + procs;
    forall i | 0 <= i < |procs'| ensures procs'[i].next == At(procs', i + 1) {
      assert i > 0 ==> procs'[i] == procs[i - 1];
    }
  }

  lemma ListAt(head: Process, procs: seq<Process>, S: set<Process>, i: int)
    requires ListOK(head, procs, S) && -1 <= i < |procs|
    ensures i >= 0 ==> procs[i] in S
    ensures (if i == -1 then head else procs[i]).next == At(procs, i + 1)
  {
  }

  lemma InProcs(head: Process, procs: seq<Process>, S: set<Process>)
    requires ListOK(head, procs, S)
    ensures forall y :: y in S <==> y in procs
    ensures forall i, j :: 0 <= i < j < |procs| ==> procs[i] != procs[j]
    ensures head !in S
  {
  }

  lemma IsList(head: Process, procs: seq<Process>, S: set<Process>)
    requires forall i :: 0 <= i < |procs| ==> procs[i] in S
    requires forall x :: x in S ==> x in procs
    requires forall i, j :: 0 <= i < j < |procs| ==> procs[i] != procs[j]
    requires head !in S
    requires head.next == At(procs, 0)
    requires forall i :: 0 <= i < |procs| ==> procs[i].next == At(procs, i + 1)
    ensures ListOK(head, procs, S)
  {
  }

  ghost function Without(s: seq<Process>, k: int): seq<Process>
    requires 0 <= k < |s|
  {
    s[..k] + s[k + 1..]
  }

  lemma WithoutAt(s: seq<Process>, k: int)
    requires 0 <= k < |s| && forall i, j :: 0 <= i < j < |s| ==> s[i] != s[j]
    ensures |Without(s, k)| == |s| - 1
    ensures forall i :: 0 <= i < |s| - 1 ==> Without(s, k)[i] == s[if i < k then i else i + 1]
    ensures forall i, j :: 0 <= i < j < |s| - 1 ==> Without(s, k)[i] != Without(s, k)[j]
    ensures forall x :: x in Without(s, k) <==> x in s && x != s[k]
    ensures forall i :: 0 <= i < |s| ==> At(Without(s, k), i) == At(s, if i < k then i else i + 1)
  {
    forall x | x in s && x != s[k] ensures x in Without(s, k) {
      var i :| 0 <= i < |s| && s[i] == x;
      assert Without(s, k)[if i < k then i else i - 1] == x;
    }
  }

  // ------------------------------------------------------- the recent jobs

  // A new process on a job of its own or on a job of the table.
  lemma StateGrows(pp: Process, S: set<Process>)
    requires StateOK(S) && pp !in S && pp.pid != 0 && pp.index >= 1
    requires forall x :: x in S ==> x.pid != pp.pid
    requires forall x :: x in S ==> Lead(x) in S
    requires if Lead(pp) == pp then pp.jobid == pp.pid && pp.index !in Indices(S)
             else Lead(pp) in S && Lead(Lead(pp)) == Lead(pp) && pp.index == Lead(pp).index && pp.jobid == Lead(pp).pid
    requires Lead(pp) != pp ==> Lead(pp).pid != 0
    ensures StateOK(S + {pp})
  {
    hide Lead;
    forall x | x in S ensures Settled(x, S + {pp}) {
      assert Settled(x, S);
    }
    forall x | x in S && x.index == pp.index ensures Lead(x) == Lead(pp) {
      if Lead(pp) != pp {
        assert x.index == Lead(pp).index;
      }
    }
  }

  lemma RingGrows(pp: Process, S: set<Process>)
    requires RingsOK(S) && pp !in S && pp.friends == pp && pp.ring == [pp] && pp.at == 0
    ensures RingsOK(S + {pp})
  {
    hide RingsOK;
    AllOnRing(S);
    forall x | x in S ensures OnRing(x, S + {pp}) {
      assert OnRing(x, S);
    }
    assert OnRing(pp, S + {pp});
    FromOnRing(S + {pp});
  }

  lemma RecentJob(job: Process?, cur: Process?, prev: Process?, S: set<Process>)
    requires Recent(job, cur, prev, S)
    ensures job != null ==> job in S && job.pid != 0 && job.at == 0
  {
  }

  lemma RecentGrows(job: Process?, cur: Process?, prev: Process?, S: set<Process>, pp: Process)
    requires Recent(job, cur, prev, S)
    ensures Recent(job, cur, prev, S + {pp})
  {
  }

  lemma LiveIndex(x: Process, S: set<Process>)
    requires StateOK(S) && x in S && Lead(x) in S && x.pid != 0
    ensures x.index >= 1
  {
    assert Settled(x, S);
  }

  lemma MaxGrows(pp: Process, S: set<Process>, m: int)
    requires MaxOK(S, m) && pp.index >= 0
    ensures MaxOK(S + {pp}, if pp.index > m then pp.index else m)
  {
    if m != 0 {
      var x :| x in S && x.index == m;
      assert x in S + {pp};
    }
    assert pp in S + {pp};
  }

  // The process pp belongs to the job `job`.
  ghost predicate Entered(pp: Process, job: Process)
    reads pp`ring, pp`index, pp`jobid, job`index, job`pid
  {
    Lead(pp) == job && pp.index == job.index && pp.jobid == job.pid
  }

  // How many friends lead from pp to x on a ring of n.
  ghost function Dist(x: Process, pp: Process, n: int): int
    reads x`at, pp`at
  {
    if x.at >= pp.at then x.at - pp.at else x.at + n - pp.at
  }

  // One step on the ring of pp; who is at the same distance is the same process.
  lemma Around(fp: Process, pp: Process, S: set<Process>)
    requires RingsOK(S) && fp in S && pp in S && Lead(fp) == Lead(pp)
    ensures fp.friends in S && Lead(fp.friends) == Lead(pp) && |fp.ring| == |pp.ring|
    ensures Dist(pp, pp, |pp.ring|) == 0
    ensures fp.friends == pp ==> Dist(fp, pp, |pp.ring|) == |pp.ring| - 1
    ensures fp.friends != pp ==> Dist(fp.friends, pp, |pp.ring|) == Dist(fp, pp, |pp.ring|) + 1 < |pp.ring|
    ensures forall x :: x in S && Lead(x) == Lead(pp) ==> 0 <= Dist(x, pp, |pp.ring|) < |pp.ring|
    ensures forall x :: x in S && Lead(x) == Lead(pp) && Dist(x, pp, |pp.ring|) == Dist(fp, pp, |pp.ring|) ==> x == fp
  {
    hide RingsOK; hide OnRing; hide Lead;
    var lead := Lead(pp);
    SelfLed(pp, S);
    RingPlace(pp, S);
    RingPlace(fp, S);
    RingAt(lead, S);
    assert lead.ring[pp.at] == pp;
    RingStep(fp, S, lead.ring, fp.at);
    RingNode(lead, S, if fp.at + 1 < |lead.ring| then fp.at + 1 else 0);
  }

  // What pgetcurr looks for: a live job other than pp and the current one.
  ghost predicate Candidate(np: Process, pp: Process, cur: Process?)
    reads np`pid, np`at
  {
    np != cur && np != pp && np.pid != 0 && np.at == 0
  }

  ghost predicate Stopped(np: Process)
    reads np`flags
  {
    PSTOPPED in np.flags
  }

  // The first stopped candidate of the list or, where there is none, the
  // first candidate; the list has the most recent process first.
  ghost predicate MostRecent(procs: seq<Process>, k: int, pp: Process, cur: Process?)
    reads procs
  {
    && 0 <= k < |procs| && Candidate(procs[k], pp, cur)
    && (forall i :: 0 <= i < k && Candidate(procs[i], pp, cur) ==> Stopped(procs[k]) && !Stopped(procs[i]))
    && (Stopped(procs[k]) || forall i :: 0 <= i < |procs| && Candidate(procs[i], pp, cur) ==> !Stopped(procs[i]))
  }

  // What pgetcurr returns.
  ghost predicate Pick(q: Process?, procs: seq<Process>, pp: Process, cur: Process?)
    reads procs
  {
    if q == null then forall y :: y in procs ==> !Candidate(y, pp, cur)
    else exists k :: MostRecent(procs, k, pp, cur) && procs[k] == q
  }

  // The processes that have not been flushed, in a set and in a list.
  ghost function Live(S: set<Process>): set<Process>
    reads S`pid
  {
    set x | x in S && x.pid != 0
  }

  ghost function Among(procs: seq<Process>, live: set<Process>): seq<Process> {
    if procs == [] then [] else
      var last := procs[|procs| - 1];
      Among(procs[..|procs| - 1], live) + if last in live then [last] else []
  }

  lemma LiveIn(S: set<Process>)
    ensures Live(S) <= S && forall x :: x in S ==> (x in Live(S) <==> x.pid != 0)
    ensures Among([], Live(S)) == []
  {
  }

  // The processes that are on the list once the loop of pwait has seen `done`.
  ghost function Rest(S0: set<Process>, live: set<Process>, done: seq<Process>): set<Process> {
    set x | x in S0 && (x in live || x !in done)
  }

  ghost function Unswept(a: seq<Process>, i: int, live: set<Process>): seq<Process>
    requires 0 <= i <= |a|
  {
    Among(a[..i], live) + a[i..]
  }

  lemma SweepEnd(a: seq<Process>, S0: set<Process>, live: set<Process>)
    requires forall x :: x in S0 <==> x in a
    ensures Rest(S0, live, a[..0]) == S0 && Unswept(a, 0, live) == a && Among(a[..0], live) == []
    ensures Rest(S0, live, a[..|a|]) == S0 * live && Unswept(a, |a|, live) == Among(a, live)
  {
    assert a[..0] == [] && a[..|a|] == a;
  }

  // What the loop of pwait does to the list when it comes to the i-th process.
  lemma SweepStep(a: seq<Process>, i: int, live: set<Process>, S0: set<Process>)
    requires 0 <= i < |a|
    ensures Rest(S0, live, a[..i + 1]) ==
      if a[i] in live then Rest(S0, live, a[..i]) else Rest(S0, live, a[..i]) - {a[i]}
    ensures |Unswept(a, i, live)| == |Among(a[..i], live)| + |a| - i
    ensures Unswept(a, i, live)[|Among(a[..i], live)|] == a[i]
    ensures a[i] !in live ==> Without(Unswept(a, i, live), |Among(a[..i], live)|) == Unswept(a, i + 1, live)
    ensures a[i] in live ==> Unswept(a, i, live) == Unswept(a, i + 1, live)
    ensures |Among(a[..i + 1], live)| == |Among(a[..i], live)| + if a[i] in live then 1 else 0
  {
    assert a[..i + 1][..i] == a[..i];
    assert a[i..] == [a[i]] + a[i + 1..];
  }

  // Whole jobs are flushed: without the flushed processes the table is proper.
  lemma LiveTable(S: set<Process>, m: int)
    requires RingsOK(S) && StateOK(S) && MaxOK(S, m)
    ensures RingsOK(Live(S)) && StateOK(Live(S)) && MaxOK(Live(S), m)
  {
    hide RingsOK; hide PidsDiffer; hide IndicesDiffer;
    forall x | x in Live(S) ensures OnRing(x, Live(S)) && Settled(x, Live(S)) {
      LiveRing(x, S);
    }
    FromOnRing(Live(S));
    LiveApart(S);
    if m != 0 {
      var x :| x in S && x.index == m;
      LeaderTest(x, S);
      assert Settled(x, S);
      assert x in Live(S);
    }
  }

  lemma LiveApart(S: set<Process>)
    requires PidsDiffer(S) && IndicesDiffer(S)
    ensures PidsDiffer(Live(S)) && IndicesDiffer(Live(S))
  {
  }

  lemma LiveRing(x: Process, S: set<Process>)
    requires RingsOK(S) && StateOK(S) && x in S && x.pid != 0
    ensures OnRing(x, Live(S)) && Lead(x) in Live(S) && Settled(x, Live(S))
  {
    hide RingsOK; hide PidsDiffer; hide IndicesDiffer;
    OnRingOf(x, S);
    LeaderTest(x, S);
    forall i | 0 <= i < |x.ring| ensures x.ring[i] in Live(S) {
      RingPart(x, S, i);
      LeaderTest(x.ring[i], S);
    }
    assert Settled(x, S);
  }

  lemma LiveRecent(job: Process?, cur: Process?, prev: Process?, S: set<Process>)
    requires Recent(job, cur, prev, S)
    ensures Recent(job, cur, prev, Live(S))
  {
  }

  // What wait3 reports of a process.
  datatype Event = WStopped(sig: int) | WSignaled(sig: int, core: bool) | WExited(code: int)

  const SIGINT := 2

  function Status(f: set<Flag>, ev: Event): set<Flag> {
    var g := f - {PRUNNING, PSTOPPED, PREPORTED};
    match ev
    case WStopped(_) => g + {PSTOPPED}
    case WSignaled(sig, core) =>
      g + {if sig == SIGINT then PINTERRUPTED else PSIGNALED} + (if core then {PDUMPED} else {})
    case WExited(code) => g + {if code != 0 then PAEXITED else PNEXITED}
  }

  function Reason(ev: Event): int {
    match ev
    case WStopped(sig) => sig
    case WSignaled(sig, _) => sig
    case WExited(code) => code
  }

  function Marked(f: set<Flag>, on: bool): set<Flag> {
    if on && PSTOPPED in f then f + {PREPORTED} else f
  }

  // A job that is over, of which the user hears at once, is flushed.
  predicate Flushes(jf: set<Flag>, notify: bool) {
    PFOREGND !in jf && PSTOPPED !in jf && (PNOTIFY in jf || notify)
  }

  // A job in the background of which the user hears before the next prompt.
  predicate Notes(jf: set<Flag>, notify: bool) {
    PFOREGND !in jf && !(PNOTIFY in jf || notify)
  }

  // What becomes of the flags of a process of the job; `lead` for its leader.
  function Noted(f: set<Flag>, jf: set<Flag>, notify: bool, lead: bool): set<Flag> {
    if Flushes(jf, notify) then Marked(f, true) - {PNEEDNOTE}
    else if lead && Notes(jf, notify) then Marked(f, true) + {PNEEDNOTE}
    else Marked(f, true)
  }

  // The job fp has become the current one, and the one that was the current
  // job the previous one.
  ghost predicate Became(fp: Process, cur: Process?, prev: Process?, cur0: Process?, prev0: Process?) {
    cur == fp && prev == if cur0 != null && cur0 != fp then cur0 else prev0
  }

  // No process of the job runs, and the user has not heard of it.
  predicate Over(jf: set<Flag>) {
    jf * {PRUNNING, PREPORTED} == {}
  }

  // The flags of x, of the job of pp, as pchild finds them and as it leaves
  // them to the report; f are those before the event of pp.
  ghost function Found(x: Process, pp: Process, f: set<Flag>, ev: Event): set<Flag> {
    if x == pp then Status(f, ev) else f
  }

  ghost function Left(x: Process, pp: Process, f: set<Flag>, ev: Event): set<Flag> {
    if x == pp then Status(f, ev) - {PFOREGND} else f
  }

  // What an event does to the flags f of its process, flag by flag: g are those
  // that pchild leaves, jf those of the job.
  predicate Told(f: set<Flag>, ev: Event, jf: set<Flag>, notify: bool, lead: bool, g: set<Flag>) {
    && PRUNNING !in g && PFOREGND !in g
    && (PSTOPPED in g <==> ev.WStopped?)
    && (PNEXITED in g <==> PNEXITED in f || (ev.WExited? && ev.code == 0))
    && (PAEXITED in g <==> PAEXITED in f || (ev.WExited? && ev.code != 0))
    && (PINTERRUPTED in g <==> PINTERRUPTED in f || (ev.WSignaled? && ev.sig == 2))
    && (PSIGNALED in g <==> PSIGNALED in f || (ev.WSignaled? && ev.sig != 2))
    && (PDUMPED in g <==> PDUMPED in f || (ev.WSignaled? && ev.core))
    && (PNOTIFY in g <==> PNOTIFY in f)
    && (PREPORTED in g <==> ev.WStopped? && PRUNNING !in jf && PREPORTED !in jf)
    && (PNEEDNOTE in g <==> Needs(PNEEDNOTE in f, jf, notify, lead))
  }

  // Of the other processes of the job only two flags may change.
  predicate Untold(f: set<Flag>, jf: set<Flag>, notify: bool, lead: bool, g: set<Flag>) {
    && (forall h :: h != PREPORTED && h != PNEEDNOTE ==> (h in g <==> h in f))
    && (PREPORTED in g <==> PREPORTED in f || (PSTOPPED in f && PRUNNING !in jf && PREPORTED !in jf))
    && (PNEEDNOTE in g <==> Needs(PNEEDNOTE in f, jf, notify, lead))
  }

  // Whether a note of the process is due, where it was so before or not.
  predicate Needs(before: bool, jf: set<Flag>, notify: bool, lead: bool) {
    if PRUNNING in jf || PREPORTED in jf || PFOREGND in jf then before
    else if PNOTIFY in jf || notify then before && PSTOPPED in jf
    else before || lead
  }

  lemma EventTold(f: set<Flag>, ev: Event, jf: set<Flag>, notify: bool, lead: bool)
    ensures Told(f, ev, jf, notify, lead,
      if Over(jf) then Noted(Status(f, ev) - {PFOREGND}, jf, notify, lead) else Status(f, ev) - {PFOREGND})
  {
    OverIs(jf);
  }

  lemma StatusHas(f: set<Flag>, ev: Event)
    ensures var g := Status(f, ev);
      && PRUNNING !in g && PREPORTED !in g && (PSTOPPED in g <==> ev.WStopped?)
      && (PFOREGND in g <==> PFOREGND in f) && (PNOTIFY in g <==> PNOTIFY in f)
  {
  }

  lemma OtherUntold(f: set<Flag>, jf: set<Flag>, notify: bool, lead: bool)
    ensures Untold(f, jf, notify, lead, if Over(jf) then Noted(f, jf, notify, lead) else f)
  {
    OverIs(jf);
  }

  lemma OverIs(jf: set<Flag>)
    ensures Over(jf) <==> PRUNNING !in jf && PREPORTED !in jf
  {
    if PRUNNING !in jf && PREPORTED !in jf {
      assert jf * {PRUNNING, PREPORTED} == {};
    } else {
      assert PRUNNING in jf * {PRUNNING, PREPORTED} || PREPORTED in jf * {PRUNNING, PREPORTED};
    }
  }

  // Where a job goes on, exactly the processes that run or are stopped do, in
  // the foreground or not.
  predicate Resumed(f: set<Flag>, foregnd: bool, g: set<Flag>) {
    if PRUNNING in f || PSTOPPED in f then
      && PRUNNING in g && PSTOPPED !in g && (PFOREGND in g <==> foregnd)
      && forall h :: h !in {PRUNNING, PSTOPPED, PFOREGND} ==> (h in g <==> h in f)
    else g == f
  }

  lemma StartedResumed(f: set<Flag>, foregnd: bool)
    ensures Resumed(f, foregnd, Started(f, foregnd))
  {
  }

  // A process that is not over continues.
  function Started(f: set<Flag>, foregnd: bool): set<Flag> {
    if PRUNNING !in f && PSTOPPED !in f then f
    else if foregnd then f + {PRUNNING, PFOREGND} - {PSTOPPED}
    else f + {PRUNNING} - {PSTOPPED, PFOREGND}
  }

  lemma StartedIs(f: set<Flag>, g: set<Flag>, foregnd: bool)
    requires PRUNNING !in f && PSTOPPED !in f ==> g == f
    requires PRUNNING in f || PSTOPPED in f ==>
      g == if foregnd then f + {PRUNNING} - {PSTOPPED} + {PFOREGND} else f + {PRUNNING} - {PSTOPPED} - {PFOREGND}
    ensures g == Started(f, foregnd)
  {
  }

  lemma LiveMember(x: Process, S: set<Process>, i: int)
    requires RingsOK(S) && StateOK(S) && x in S && x.pid != 0 && 0 <= i < |x.ring|
    ensures x.ring[i] in S && x.ring[i].pid != 0 && (x.ring[i].pid == x.ring[i].jobid <==> i == 0)
  {
    hide RingsOK; hide StateOK; hide OnRing;
    RingPart(x, S, i);
    LeaderTest(x, S);
    LeaderTest(x.ring[i], S);
  }

  lemma SameJob(x: Process, y: Process, S: set<Process>)
    requires RingsOK(S) && StateOK(S) && x in S && y in S && x.pid != 0 && y.pid != 0
    ensures x.index == y.index <==> x in y.ring
  {
    hide RingsOK; hide PidsDiffer; hide OnRing;
    RingPlace(x, S);
    RingPlace(y, S);
    assert Settled(x, S) && Settled(y, S);
    if x in y.ring {
      var i :| 0 <= i < |y.ring| && y.ring[i] == x;
      RingPart(y, S, i);
    }
  }

  lemma IndexLive(x: Process, S: set<Process>)
    requires RingsOK(S) && StateOK(S) && x in S && x.index != 0
    ensures x.pid != 0
  {
    hide RingsOK; hide PidsDiffer; hide IndicesDiffer;
    RingPlace(x, S);
    assert Settled(x, S);
  }

  // The steps of a run; a process is named by its process number.
  datatype Op =
    | Spawn(pid: int, ampersand: bool) | EndJob | Child(pid: int, ev: Event, notify: bool)
    | Flush(pid: int) | Start(pid: int, foregnd: bool) | Reap

  class JobTable {
    const proclist: Process
    var pcurrjob: Process?
    var pcurrent: Process?
    var pprevious: Process?
    var pmaxindex: int
    ghost var procs: seq<Process>
    ghost var S: set<Process>

    ghost predicate CurOK()
      reads this`pcurrent, this`pprevious, this`pcurrjob, this`S, S`pid, S`at
    {
      Recent(pcurrjob, pcurrent, pprevious, S)
    }

    ghost predicate Table()
      reads this`procs, this`S, this`pmaxindex, proclist`next
      reads S`next, S`friends, S`ring, S`at, S`jobid, S`index, S`pid
    {
      ListOK(proclist, procs, S) && RingsOK(S) && StateOK(S) && MaxOK(S, pmaxindex)
    }

    ghost predicate Valid()
      reads this, proclist`next
      reads S`next, S`friends, S`ring, S`at, S`jobid, S`index, S`pid
    {
      Table() && CurOK()
    }

    constructor ()
      ensures Valid() && S == {} && pmaxindex == 0 && pcurrjob == null
    {
      proclist := new Process(0, {});
      pcurrjob, pcurrent, pprevious, pmaxindex := null, null, null, 0;
      procs, S := [], {};
    }

    // pgetcurr: the most recent job that is not pp, preferably stopped
    method Pgetcurr(pp: Process) returns (xp: Process?)
      requires Table()
      ensures Pick(xp, procs, pp, pcurrent)
      ensures xp != null ==> xp in S && Candidate(xp, pp, pcurrent)
    {
      hide ListOK; hide RingsOK; hide StateOK; hide MaxOK;
      xp := null;
      ghost var k := 0;
      ListAt(proclist, procs, S, -1);
      var np := proclist.next;
      ghost var i := 0;
      while np != null
        invariant 0 <= i <= |procs| && np == if i < |procs| then procs[i] else null
        invariant forall j :: 0 <= j < i && Candidate(procs[j], pp, pcurrent) ==>
          !Stopped(procs[j]) && k <= j && xp != null
        invariant xp != null ==> 0 <= k < i && procs[k] == xp && xp in S && Candidate(xp, pp, pcurrent)
        decreases |procs| - i
      {
        ListAt(proclist, procs, S, i);
        LeaderTest(np, S);
        if np != pcurrent && np != pp && np.pid != 0 && np.pid == np.jobid {
          if PSTOPPED in np.flags {
            assert MostRecent(procs, i, pp, pcurrent);
            return np;
          }
          if xp == null {
            xp, k := np, i;
          }
        }
        np, i := np.next, i + 1;
      }
      assert xp != null ==> MostRecent(procs, k, pp, pcurrent);
    }

    // pclrcurr: the job pp is to be neither the current nor the previous job
    method Pclrcurr(pp: Process)
      requires Valid() && IsJob(pp, S)
      modifies this`pcurrent, this`pprevious
      ensures Valid() && pcurrent != pp && pprevious != pp
      ensures pp != old(pcurrent) ==> pcurrent == old(pcurrent)
      ensures pp != old(pcurrent) && pp != old(pprevious) ==> pprevious == old(pprevious)
      ensures pp == old(pcurrent) && old(pprevious) != null ==> pcurrent == old(pprevious)
      ensures pp == old(pcurrent) && old(pprevious) == null ==> Pick(pcurrent, procs, pp, pp)
      ensures pp == old(pcurrent) || pp == old(pprevious) ==> Pick(pprevious, procs, pp, pcurrent)
    {
      hide ListOK; hide RingsOK; hide StateOK; hide MaxOK; hide MostRecent;
      InProcs(proclist, procs, S);
      if pp == pcurrent {
        if pprevious != null {
          pcurrent := pprevious;
          pprevious := Pgetcurr(pp);
        } else {
          pcurrent := Pgetcurr(pp);
          pprevious := Pgetcurr(pp);
        }
      } else if pp == pprevious {
        pprevious := Pgetcurr(pp);
      }
    }

    // the walk along the friends to the leader of the job
    method Leader(pp: Process) returns (fp: Process)
      requires Valid() && pp in S && pp.pid != 0
      ensures fp == Lead(pp) && IsJob(fp, S)
    {
      hide ListOK; hide RingsOK; hide StateOK; hide MaxOK;
      fp := pp;
      LeaderTest(pp, S);
      while fp.pid != fp.jobid
        invariant fp in S && Lead(fp) == Lead(pp) && fp.pid != 0
        invariant 0 <= fp.at < |fp.ring|
        invariant fp.at == 0 ==> fp == Lead(pp)
        invariant fp.pid == fp.jobid ==> fp.at == 0
        decreases if fp.at == 0 then 0 else |fp.ring| - fp.at
      {
        LeaderTest(fp, S);
        fp := fp.friends;
        LeaderTest(fp, S);
      }
    }

    // the largest index in use
    method MaxIndex() returns (idx: int)
      requires ListOK(proclist, procs, S)
      ensures MaxOK(S, idx)
    {
      hide ListOK;
      InProcs(proclist, procs, S);
      ListAt(proclist, procs, S, -1);
      var np := proclist.next;
      idx := 0;
      ghost var i := 0;
      while np != null
        invariant 0 <= i <= |procs| && np == if i < |procs| then procs[i] else null
        invariant idx >= 0 && forall j :: 0 <= j < i ==> procs[j].index <= idx
        invariant idx == 0 || exists j :: 0 <= j < i && procs[j].index == idx
        decreases |procs| - i
      {
        ListAt(proclist, procs, S, i);
        if np.index > idx {
          idx := np.index;
        }
        np, i := np.next, i + 1;
      }
    }

    // flags every process of the ring of the leader pp for deletion
    method Zero(pp: Process)
      requires RingsOK(S) && pp in S && pp.at == 0
      modifies S`index, S`pid, S`flags
      ensures forall x :: x in S && Lead(x) == pp ==>
        x.index == x.pid == 0 && x.flags == old(x.flags) - {PNEEDNOTE}
      ensures forall x :: x in S && Lead(x) != pp ==>
        x.index == old(x.index) && x.pid == old(x.pid) && x.flags == old(x.flags)
    {
      hide RingsOK; hide OnRing; hide Lead;
      ghost var ring := pp.ring;
      RingAt(pp, S);
      var np := pp;
      ghost var i := 0;
      while true
        invariant 0 <= i < |ring| && np == ring[i]
        invariant forall x :: x in S && Lead(x) == pp && x.at < i ==>
          x.index == x.pid == 0 && x.flags == old(x.flags) - {PNEEDNOTE}
        invariant forall x :: x in S && !(Lead(x) == pp && x.at < i) ==>
          x.index == old(x.index) && x.pid == old(x.pid) && x.flags == old(x.flags)
        decreases |ring| - i
      {
        np.index := 0;
        np.pid := 0;
        np.flags := np.flags - {PNEEDNOTE};
        np, i := np.friends, i + 1;
        assert i < |ring| ==> np == ring[i] && ring[i].at == i;
        if np == pp {
          break;
        }
      }
    }

    // The leader of every process is its own leader.
    lemma Leaders()
      requires RingsOK(S)
      ensures forall x :: x in S ==> Lead(x) in S && Lead(Lead(x)) == Lead(x)
      ensures forall x :: x in S ==> (x.at == 0 <==> x == Lead(x))
    {
      hide RingsOK; hide Lead;
      forall x | x in S
        ensures Lead(x) in S && Lead(Lead(x)) == Lead(x) && (x.at == 0 <==> x == Lead(x))
      {
        SelfLed(x, S);
      }
    }

    method ZeroApart(pp: Process)
      requires RingsOK(S) && PidsDiffer(S) && IndicesDiffer(S) && pp in S && pp.at == 0
      modifies S`index, S`pid, S`flags
      ensures PidsDiffer(S) && IndicesDiffer(S)
      ensures forall x :: x in S && Lead(x) == pp ==>
        x.index == x.pid == 0 && x.flags == old(x.flags) - {PNEEDNOTE}
      ensures forall x :: x in S && Lead(x) != pp ==>
        x.index == old(x.index) && x.pid == old(x.pid) && x.flags == old(x.flags)
    {
      hide RingsOK; hide Lead;
      Zero(pp);
      forall x, y | x in S && y in S && x.pid == y.pid != 0 ensures x == y {
        assert old(x.pid) == old(y.pid);
      }
      forall x, y | x in S && y in S && x.index == y.index != 0 ensures Lead(x) == Lead(y) {
        assert old(x.index) == old(y.index);
      }
    }

    // flags the whole job of the leader pp for deletion
    method FlushJob(pp: Process)
      requires RingsOK(S) && StateOK(S) && MaxOK(S, pmaxindex) && pp in S && pp.at == 0
      requires CurOK() && pp != pcurrent && pp != pprevious && pp != pcurrjob
      modifies S`index, S`pid, S`flags
      ensures RingsOK(S) && StateOK(S) && CurOK()
      ensures old(pp.index) != pmaxindex ==> MaxOK(S, pmaxindex)
      ensures forall x :: x in S && Lead(x) == pp ==>
        x.index == x.pid == 0 && x.flags == old(x.flags) - {PNEEDNOTE}
      ensures forall x :: x in S && Lead(x) != pp ==>
        x.index == old(x.index) && x.pid == old(x.pid) && x.flags == old(x.flags)
    {
      hide RingsOK; hide OnRing; hide Lead; hide PidsDiffer; hide IndicesDiffer;
      Leaders();
      forall x | x in S ensures Settled(x, S) {
      }
      assert forall x :: x in S ==> x.index == Lead(x).index;
      ghost var w := if pmaxindex == 0 then pp else var w :| w in S && w.index == pmaxindex; w;
      ZeroApart(pp);
      assert pmaxindex != 0 && old(pp.index) != pmaxindex ==> Lead(w) != pp && w.index == pmaxindex;
      forall x | x in S ensures Settled(x, S) {
        assert old(Settled(x, S));
      }
    }

    // the table no longer points to the job pp
    method Forget(pp: Process)
      requires Valid() && IsJob(pp, S)
      modifies this`pcurrent, this`pprevious, this`pcurrjob
      ensures Valid() && pp != pcurrent && pp != pprevious
      ensures pcurrjob == if old(pcurrjob) == pp then null else old(pcurrjob)
    {
      hide ListOK; hide RingsOK; hide StateOK; hide Lead; hide MaxOK; hide Pick;
      Pclrcurr(pp);
      if pp == pcurrjob {
        pcurrjob := null;
      }
    }

    // the end of pflush: the processes of the job, and pmaxindex
    method FlushAll(fp: Process)
      requires Valid() && fp in S && fp.at == 0 && fp != pcurrent && fp != pprevious && fp != pcurrjob
      modifies this`pmaxindex, S`index, S`pid, S`flags
      ensures Valid()
      ensures forall x :: x in S && Lead(x) == fp ==>
        x.index == x.pid == 0 && x.flags == old(x.flags) - {PNEEDNOTE}
      ensures forall x :: x in S && Lead(x) != fp ==>
        x.index == old(x.index) && x.pid == old(x.pid) && x.flags == old(x.flags)
    {
      hide ListOK; hide RingsOK; hide StateOK; hide Lead; hide MaxOK; hide CurOK;
      var idx := fp.index;
      FlushJob(fp);
      if idx == pmaxindex {
        idx := MaxIndex();
        pmaxindex := idx;
      }
    }

    // pflush: the job of pp is flagged for deletion and forgotten
    method Pflush(pp: Process)
      requires Valid() && pp in S
      modifies this`pcurrent, this`pprevious, this`pcurrjob, this`pmaxindex
      modifies S`index, S`pid, S`flags
      ensures Valid()
      ensures pp.pid == 0
      ensures old(pp.pid) == 0 ==> forall x :: x in S ==>
        x.index == old(x.index) && x.pid == old(x.pid) && x.flags == old(x.flags)
      ensures forall x :: x in S && Lead(x) == Lead(pp) && old(pp.pid) != 0 ==>
        x.index == x.pid == 0 && x.flags == old(x.flags) - {PNEEDNOTE}
      ensures forall x :: x in S && Lead(x) != Lead(pp) ==>
        x.index == old(x.index) && x.pid == old(x.pid) && x.flags == old(x.flags)
      ensures old(pp.pid) != 0 ==> pcurrent != Lead(pp) && pprevious != Lead(pp)
      ensures pcurrjob == if old(pp.pid) != 0 && old(pcurrjob) == Lead(pp) then null else old(pcurrjob)
    {
      hide ListOK; hide RingsOK; hide StateOK; hide Lead; hide MaxOK; hide Pick; hide CurOK;
      if pp.pid == 0 {
        return;
      }
      var fp := Leader(pp);
      Forget(fp);
      SelfLed(pp, S);
      FlushAll(fp);
    }

    // ------------------------------------------------------------- palloc

    // the smallest job index that no process of the list has
    method UnusedIndex() returns (i: int)
      requires ListOK(proclist, procs, S) && MaxOK(S, pmaxindex)
      ensures i >= 1 && i !in Indices(S)
      ensures forall j :: 1 <= j < i ==> j in Indices(S)
      ensures i <= pmaxindex + 1
    {
      hide ListOK;
      InProcs(proclist, procs, S);
      i := 1;
      while true
        invariant 1 <= i <= pmaxindex + 1
        invariant forall j :: 1 <= j < i ==> j in Indices(S)
        decreases pmaxindex + 1 - i
      {
        var used := IndexInUse(i);
        if !used {
          break;
        }
        i := i + 1;
      }
    }

    method IndexInUse(i: int) returns (used: bool)
      requires ListOK(proclist, procs, S)
      ensures used <==> i in Indices(S)
    {
      hide ListOK;
      InProcs(proclist, procs, S);
      ListAt(proclist, procs, S, -1);
      var np := proclist.next;
      ghost var k := 0;
      while np != null
        invariant 0 <= k <= |procs| && np == if k < |procs| then procs[k] else null
        invariant forall j :: 0 <= j < k ==> procs[j].index != i
        decreases |procs| - k
      {
        ListAt(proclist, procs, S, k);
        if np.index == i {
          return true;
        }
        np, k := np.next, k + 1;
      }
      return false;
    }

    // puts pp at the end of the ring of the leader lead
    method LastOn(lead: Process) returns (fp: Process)
      requires RingsOK(S) && lead in S && lead.at == 0
      ensures lead.ring != [] && fp == lead.ring[|lead.ring| - 1] && fp in S
    {
      hide RingsOK; hide OnRing; hide Lead;
      RingAt(lead, S);
      fp := lead;
      ghost var i := 0;
      while fp.friends != lead
        invariant 0 <= i < |lead.ring| && fp == lead.ring[i]
        decreases |lead.ring| - i
      {
        fp, i := fp.friends, i + 1;
      }
      assert lead.ring[if i + 1 < |lead.ring| then i + 1 else 0].at == if i + 1 < |lead.ring| then i + 1 else 0;
    }

    method Join(lead: Process, pp: Process)
      requires RingsOK(S) && lead in S && lead.at == 0 && pp !in S
      modifies S`ring, S`friends, pp`friends, pp`ring, pp`at
      ensures RingsOK(S + {pp}) && Lead(pp) == lead && pp.at > 0
      ensures forall x :: x in S ==> Lead(x) == old(Lead(x))
    {
      hide RingsOK;
      ghost var ring := lead.ring;
      RingAt(lead, S);
      AllOnRing(S);
      pp.friends := lead;
      var fp := LastOn(lead);
      fp.friends := pp;
      ghost var r, T := ring + [pp], S + {pp};
      forall x | x in S && x.ring == ring {
        x.ring := r;
      }
      pp.ring, pp.at := r, |ring|;
      forall k | 0 <= k < |r| ensures r[k] in T && r[k].ring == r && r[k].at == k {
        assert k < |ring| ==> r[k] == ring[k] && old(OnRing(lead, S));
      }
      assert OnRing(pp, T);
      forall x | x in S ensures OnRing(x, T) {
        assert old(OnRing(x, S));
      }
      FromOnRing(T);
    }

    method JoinRing(lead: Process, pp: Process)
      requires RingsOK(S) && StateOK(S) && lead in S && lead.at == 0 && pp !in S && CurOK()
      modifies S`ring, S`friends, pp`friends, pp`ring, pp`at
      ensures RingsOK(S + {pp}) && Lead(pp) == lead && pp.at > 0 && StateOK(S)
      ensures forall x :: x in S ==> Lead(x) == old(Lead(x)) && Lead(x) in S
      ensures Lead(lead) == lead && CurOK()
    {
      hide RingsOK; hide OnRing; hide Lead; hide PidsDiffer; hide Recent;
      Leaders();
      forall x | x in S ensures Settled(x, S) {
      }
      Join(lead, pp);
      forall x | x in S ensures Settled(x, S) {
        assert old(Settled(x, S));
      }
      forall x, y | x in S && y in S && x.index == y.index != 0 ensures Lead(x) == Lead(y) {
        assert old(Lead(x)) == old(Lead(y));
      }
    }

    // adds pp to the job lead
    method JoinJob(lead: Process, pp: Process)
      requires RingsOK(S) && StateOK(S) && MaxOK(S, pmaxindex) && CurOK()
      requires lead in S && lead.pid != 0 && lead.at == 0
      requires pp !in S && pp.pid != 0 && forall x :: x in S ==> x.pid != pp.pid
      modifies S`ring, S`friends, pp`friends, pp`ring, pp`at, pp`index, pp`jobid
      ensures RingsOK(S + {pp}) && StateOK(S + {pp}) && MaxOK(S + {pp}, pmaxindex)
      ensures Recent(pcurrjob, pcurrent, pprevious, S + {pp})
      ensures Lead(pp) == lead && pp.at > 0 && pp.index == lead.index && pp.jobid == lead.pid
      ensures forall x :: x in S ==> Lead(x) == old(Lead(x))
    {
      hide RingsOK; hide OnRing; hide Lead; hide StateOK; hide Recent; hide Indices;
      pp.index := lead.index;
      pp.jobid := lead.pid;
      JoinRing(lead, pp);
      LiveIndex(lead, S);
      StateGrows(pp, S);
      MaxGrows(pp, S, pmaxindex);
      RecentGrows(pcurrjob, pcurrent, pprevious, S, pp);
    }

    // the index of a new job
    method NewIndex() returns (i: int)
      requires ListOK(proclist, procs, S) && MaxOK(S, pmaxindex)
      modifies this`pmaxindex
      ensures NextIndex(i, old(pmaxindex), Indices(S))
      ensures pmaxindex == if i > old(pmaxindex) then i else old(pmaxindex)
    {
      hide ListOK;
      if pmaxindex < BIGINDEX {
        pmaxindex := pmaxindex + 1;
        i := pmaxindex;
      } else {
        i := UnusedIndex();
        if i > pmaxindex {
          pmaxindex := i;
        }
      }
    }

    // makes the new job pp a current one
    method NewRecent(pp: Process)
      requires CurOK() && pp !in S && pp.pid != 0 && pp.at == 0
      modifies this`pcurrjob, this`pcurrent, this`pprevious
      ensures Recent(pcurrjob, pcurrent, pprevious, S + {pp}) && pcurrjob == pp
      ensures pcurrent == if old(pcurrent) == null then pp else old(pcurrent)
      ensures pprevious == if old(pcurrent) != null && old(pprevious) == null then pp else old(pprevious)
    {
      pcurrjob := pp;
      if pcurrent == null {
        pcurrent := pp;
      } else if pprevious == null {
        pprevious := pp;
      }
    }

    // makes pp a job of its own
    method NewJob(pp: Process)
      requires Valid() && pcurrjob == null
      requires pp !in S && pp.pid != 0 && forall x :: x in S ==> x.pid != pp.pid
      requires pp.friends == pp && pp.ring == [pp] && pp.at == 0
      modifies this`pmaxindex, this`pcurrjob, this`pcurrent, this`pprevious, pp`index, pp`jobid
      ensures RingsOK(S + {pp}) && StateOK(S + {pp}) && MaxOK(S + {pp}, pmaxindex)
      ensures Recent(pcurrjob, pcurrent, pprevious, S + {pp})
      ensures Lead(pp) == pp && pcurrjob == pp && pp.jobid == pp.pid && pp.index >= 1
      ensures NextIndex(pp.index, old(pmaxindex), old(Indices(S)))
      ensures pcurrent == if old(pcurrent) == null then pp else old(pcurrent)
      ensures pprevious == if old(pcurrent) != null && old(pprevious) == null then pp else old(pprevious)
    {
      hide ListOK; hide RingsOK; hide OnRing; hide StateOK; hide MaxOK; hide Indices; hide Recent;
      pp.jobid := pp.pid;
      var i := NewIndex();
      pp.index := i;
      NewRecent(pp);
      Leaders();
      StateGrows(pp, S);
      RingGrows(pp, S);
      MaxGrows(pp, S, old(pmaxindex));
    }

    // puts pp in the current job or, where there is none, in a new one
    method Enter(pp: Process)
      requires Valid() && pp !in S && pp.pid != 0 && forall x :: x in S ==> x.pid != pp.pid
      requires pp.friends == pp && pp.ring == [pp] && pp.at == 0
      modifies this`pmaxindex, this`pcurrjob, this`pcurrent, this`pprevious
      modifies S`ring, S`friends, pp`friends, pp`ring, pp`at, pp`index, pp`jobid
      ensures ListOK(proclist, procs, S)
      ensures RingsOK(S + {pp}) && StateOK(S + {pp}) && MaxOK(S + {pp}, pmaxindex)
      ensures Recent(pcurrjob, pcurrent, pprevious, S + {pp})
      ensures pcurrjob == (if old(pcurrjob) == null then pp else old(pcurrjob)) && Entered(pp, pcurrjob)
      ensures old(pcurrjob) != null ==>
        pcurrent == old(pcurrent) && pprevious == old(pprevious) && pmaxindex == old(pmaxindex)
      ensures old(pcurrjob) == null ==>
        && NextIndex(pp.index, old(pmaxindex), old(Indices(S)))
        && pcurrent == (if old(pcurrent) == null then pp else old(pcurrent))
        && pprevious == (if old(pcurrent) != null && old(pprevious) == null then pp else old(pprevious))
      ensures forall x :: x in S ==> Lead(x) == old(Lead(x))
    {
      hide ListOK; hide RingsOK; hide OnRing; hide StateOK; hide MaxOK; hide Indices; hide Lead; hide Recent;
      hide NextIndex;
      RecentJob(pcurrjob, pcurrent, pprevious, S);
      if pcurrjob != null {
        JoinJob(pcurrjob, pp);
      } else {
        NewJob(pp);
      }
    }

    // puts pp at the head of the list
    method Push(pp: Process)
      requires ListOK(proclist, procs, S) && pp !in S && pp != proclist
      requires RingsOK(S + {pp}) && StateOK(S + {pp}) && MaxOK(S + {pp}, pmaxindex)
      requires Recent(pcurrjob, pcurrent, pprevious, S + {pp})
      modifies proclist`next, pp`next, this`procs, this`S
      ensures Valid() && procs == [pp] + old(procs) && S == old(S) + {pp}
    {
      hide RingsOK; hide StateOK; hide MaxOK; hide Recent; hide ListOK; hide Lists; hide At;
      ListParts(proclist, procs, S);
      pp.next := proclist.next;
      proclist.next := pp;
      ListMore(proclist, procs, S, pp);
      procs, S := [pp] + procs, S + {pp};
    }

    lemma NotHead()
      requires Valid()
      ensures proclist !in S
    {
      hide RingsOK; hide StateOK; hide MaxOK; hide Recent;
    }

    // palloc: a new running process with the fresh process number pid, in
    // the current job or, where there is none, in a new one
    method Palloc(pid: int, ampersand: bool) returns (pp: Process)
      requires Valid() && pid != 0 && forall x :: x in S ==> x.pid != pid
      modifies this, proclist`next, S`ring, S`friends
      ensures Valid() && fresh(pp) && procs == [pp] + old(procs) && S == old(S) + {pp}
      ensures pp.pid == pid && pp.flags == if ampersand then {PRUNNING} else {PRUNNING, PFOREGND}
      ensures pcurrjob == (if old(pcurrjob) == null then pp else old(pcurrjob)) && Entered(pp, pcurrjob)
      ensures old(pcurrjob) != null ==>
        pcurrent == old(pcurrent) && pprevious == old(pprevious) && pmaxindex == old(pmaxindex)
      ensures old(pcurrjob) == null ==>
        && NextIndex(pp.index, old(pmaxindex), old(Indices(S)))
        && pcurrent == (if old(pcurrent) == null then pp else old(pcurrent))
        && pprevious == (if old(pcurrent) != null && old(pprevious) == null then pp else old(pprevious))
      ensures forall x :: x in old(S) ==> Lead(x) == old(Lead(x))
    {
      hide Valid; hide ListOK; hide RingsOK; hide StateOK; hide MaxOK; hide Indices; hide Lead; hide Recent;
      hide NextIndex; hide Entered;
      NotHead();
      pp := new Process(pid, if ampersand then {PRUNNING} else {PRUNNING, PFOREGND});
      Enter(pp);
      Push(pp);
    }

    // ------------------------------------------------------------- pchild

    method Find(pid: int) returns (pp: Process?)
      requires Valid()
      ensures pp == null ==> forall x :: x in S ==> x.pid != pid
      ensures pp != null ==> pp in S && pp.pid == pid
    {
      hide ListOK;
      InProcs(proclist, procs, S);
      ListAt(proclist, procs, S, -1);
      pp := proclist.next;
      ghost var k := 0;
      while pp != null
        invariant 0 <= k <= |procs| && pp == if k < |procs| then procs[k] else null
        invariant forall j :: 0 <= j < k ==> procs[j].pid != pid
        decreases |procs| - k
      {
        ListAt(proclist, procs, S, k);
        if pid == pp.pid {
          return;
        }
        pp, k := pp.next, k + 1;
      }
    }

    // the flags of all processes of the job of pp
    method JobFlags(pp: Process) returns (f: set<Flag>)
      requires Valid() && pp in S
      ensures forall x :: x in S && Lead(x) == Lead(pp) ==> x.flags <= f
      ensures forall g :: g in f ==> exists x :: x in S && Lead(x) == Lead(pp) && g in x.flags
    {
      hide RingsOK; hide ListOK; hide StateOK; hide MaxOK; hide CurOK; hide Lead;
      f := {};
      var fp := pp;
      RingPlace(pp, S);
      Around(pp, pp, S);
      ghost var d, n := 0, |pp.ring|;
      while true
        invariant 0 <= d < n && fp in S && Lead(fp) == Lead(pp) && Dist(fp, pp, n) == d
        invariant forall x :: x in S && Lead(x) == Lead(pp) && Dist(x, pp, n) < d ==> x.flags <= f
        invariant forall g :: g in f ==> exists x :: x in S && Lead(x) == Lead(pp) && g in x.flags
        decreases n - d
      {
        f := f + fp.flags;
        Around(fp, pp, S);
        fp := fp.friends;
        if fp == pp {
          break;
        }
        d := d + 1;
      }
    }

    // the stopped processes of the job of pp count as reported
    method MarkStopped(pp: Process)
      requires Valid() && pp in S
      modifies S`flags
      ensures forall x :: x in S ==>
        x.flags == Marked(old(x.flags), Lead(x) == Lead(pp))
    {
      hide RingsOK; hide ListOK; hide StateOK; hide MaxOK; hide CurOK; hide Lead;
      var fp := pp;
      RingPlace(pp, S);
      Around(pp, pp, S);
      ghost var d, n := 0, |pp.ring|;
      while true
        invariant 0 <= d < n && fp in S && Lead(fp) == Lead(pp) && Dist(fp, pp, n) == d
        invariant forall x :: x in S ==>
          x.flags == Marked(old(x.flags), Lead(x) == Lead(pp) && Dist(x, pp, n) < d)
        decreases n - d
      {
        Around(fp, pp, S);
        if PSTOPPED in fp.flags {
          fp.flags := fp.flags + {PREPORTED};
        }
        fp := fp.friends;
        if fp == pp {
          break;
        }
        d := d + 1;
      }
    }

    // a job that stopped becomes the current one, any other is no longer recent
    method MakeCurrent(fp: Process, stopped: bool)
      requires Valid() && IsJob(fp, S)
      modifies this`pcurrent, this`pprevious
      ensures Valid()
      ensures stopped ==> Became(fp, pcurrent, pprevious, old(pcurrent), old(pprevious))
      ensures !stopped ==> pcurrent != fp && pprevious != fp
    {
      hide ListOK; hide RingsOK; hide StateOK; hide MaxOK; hide Pick; hide Lead;
      if stopped {
        if pcurrent != null && pcurrent != fp {
          pprevious := pcurrent;
        }
        pcurrent := fp;
      } else {
        Pclrcurr(fp);
      }
    }

    // what pchild does when no process of the job of pp runs any more
    method Report(pp: Process, jf: set<Flag>, notify: bool)
      requires Valid() && pp in S && pp.pid != 0
      modifies this`pcurrent, this`pprevious, this`pcurrjob, this`pmaxindex
      modifies S`index, S`pid, S`flags
      ensures Valid()
      ensures PSTOPPED in jf ==> Became(Lead(pp), pcurrent, pprevious, old(pcurrent), old(pprevious))
      ensures PSTOPPED !in jf ==> pcurrent != Lead(pp) && pprevious != Lead(pp)
      ensures pcurrjob == if Flushes(jf, notify) && old(pcurrjob) == Lead(pp) then null else old(pcurrjob)
      ensures forall x :: x in S && (Lead(x) != Lead(pp) || !Flushes(jf, notify)) ==>
        x.pid == old(x.pid) && x.index == old(x.index)
      ensures forall x :: x in S && Lead(x) == Lead(pp) && Flushes(jf, notify) ==> x.pid == x.index == 0
      ensures forall x :: x in S && Lead(x) != Lead(pp) ==> x.flags == old(x.flags)
      ensures forall x :: x in S && Lead(x) == Lead(pp) ==> x.flags == Noted(old(x.flags), jf, notify, x == Lead(pp))
    {
      hide ListOK; hide RingsOK; hide StateOK; hide MaxOK; hide CurOK; hide Lead; hide Became;
      SelfLed(pp, S);
      MarkStopped(pp);
      var fp := Leader(pp);
      MakeCurrent(fp, PSTOPPED in jf);
      if PFOREGND !in jf {
        if PNOTIFY in jf || notify {
          if PSTOPPED !in jf {
            Pflush(pp);
          }
        } else {
          fp.flags := fp.flags + {PNEEDNOTE};
        }
      }
    }

    // pchild: the process pid has stopped or is over; jf are the flags of
    // its job as the signal found them
    method Reap(pid: int, ev: Event, notify: bool) returns (pp: Process?, jf: set<Flag>)
      requires Valid() && pid != 0
      modifies this`pcurrent, this`pprevious, this`pcurrjob, this`pmaxindex
      modifies S`index, S`pid, S`flags, S`reason
      ensures Valid()
      ensures pp == null <==> forall x :: x in S ==> old(x.pid) != pid
      ensures pp != null ==> pp in S && old(pp.pid) == pid
      ensures pp != null ==> pp.reason == if ev.WExited? then ev.code else ev.sig
      ensures pp != null ==> forall x :: x in S && Lead(x) == Lead(pp) ==> Found(x, pp, old(x.flags), ev) <= jf
      ensures pp != null ==> forall g :: g in jf ==>
        exists x :: x in S && Lead(x) == Lead(pp) && g in Found(x, pp, old(x.flags), ev)
      ensures pp == null || !Over(jf) ==>
        pcurrent == old(pcurrent) && pprevious == old(pprevious) && pcurrjob == old(pcurrjob)
      ensures pp != null && Over(jf) && PSTOPPED in jf ==>
        Became(Lead(pp), pcurrent, pprevious, old(pcurrent), old(pprevious))
      ensures pp != null && Over(jf) && PSTOPPED !in jf ==> pcurrent != Lead(pp) && pprevious != Lead(pp)
      ensures pp != null ==>
        pcurrjob == (if Over(jf) && Flushes(jf, notify) && old(pcurrjob) == Lead(pp) then null else old(pcurrjob))
      ensures forall x :: x in S && (pp == null || Lead(x) != Lead(pp) || !Over(jf) || !Flushes(jf, notify)) ==>
        x.pid == old(x.pid) && x.index == old(x.index)
      ensures pp != null && Over(jf) && Flushes(jf, notify) ==>
        forall x :: x in S && Lead(x) == Lead(pp) ==> x.pid == x.index == 0
      ensures forall x :: x in S && (pp == null || Lead(x) != Lead(pp)) ==> x.flags == old(x.flags)
      ensures pp != null && Over(jf) ==> forall x :: x in S && Lead(x) == Lead(pp) ==>
        x.flags == Noted(Left(x, pp, old(x.flags), ev), jf, notify, x == Lead(pp))
      ensures pp != null && !Over(jf) ==> forall x :: x in S && Lead(x) == Lead(pp) ==>
        x.flags == Left(x, pp, old(x.flags), ev)
    {
      hide Valid; hide Lead; hide Became; hide Status; hide Noted; hide Flushes;
      jf := {};
      pp := Find(pid);
      if pp == null {
        return;
      }
      pp.flags := Status(pp.flags, ev);
      pp.reason := Reason(ev);
      jf := JobFlags(pp);
      pp.flags := pp.flags - {PFOREGND};
      if jf * {PRUNNING, PREPORTED} == {} {
        Report(pp, jf, notify);
      }
    }

    lemma JobTold(f: set<Flag>, pp: Process, ev: Event, jf: set<Flag>, notify: bool)
      requires Over(jf) ==> pp.flags == Noted(Left(pp, pp, f, ev), jf, notify, pp == Lead(pp))
      requires !Over(jf) ==> pp.flags == Left(pp, pp, f, ev)
      ensures Told(f, ev, jf, notify, pp == Lead(pp), pp.flags)
    {
      hide Told; hide Noted; hide Status; hide Over; hide Lead;
      EventTold(f, ev, jf, notify, pp == Lead(pp));
    }

    lemma OtherTold(f: set<Flag>, x: Process, pp: Process, ev: Event, jf: set<Flag>, notify: bool)
      requires x != pp
      requires Over(jf) ==> x.flags == Noted(Left(x, pp, f, ev), jf, notify, x == Lead(pp))
      requires !Over(jf) ==> x.flags == Left(x, pp, f, ev)
      ensures Untold(f, jf, notify, x == Lead(pp), x.flags)
    {
      hide Untold; hide Noted; hide Over; hide Lead;
      OtherUntold(f, jf, notify, x == Lead(pp));
    }

    // pchild: the process pid has stopped or is over; jf are the flags of
    // its job as the signal found them
    method Pchild(pid: int, ev: Event, notify: bool) returns (pp: Process?, jf: set<Flag>)
      requires Valid() && pid != 0
      modifies this`pcurrent, this`pprevious, this`pcurrjob, this`pmaxindex
      modifies S`index, S`pid, S`flags, S`reason
      ensures Valid()
      ensures pp == null <==> forall x :: x in S ==> old(x.pid) != pid
      ensures pp != null ==> pp in S && old(pp.pid) == pid
      ensures pp != null ==> pp.reason == if ev.WExited? then ev.code else ev.sig
      ensures pp != null ==> forall x :: x in S && Lead(x) == Lead(pp) ==> Found(x, pp, old(x.flags), ev) <= jf
      ensures pp != null ==> forall g :: g in jf ==>
        exists x :: x in S && Lead(x) == Lead(pp) && g in Found(x, pp, old(x.flags), ev)
      ensures pp == null || !Over(jf) ==>
        pcurrent == old(pcurrent) && pprevious == old(pprevious) && pcurrjob == old(pcurrjob)
      ensures pp != null && Over(jf) && PSTOPPED in jf ==>
        Became(Lead(pp), pcurrent, pprevious, old(pcurrent), old(pprevious))
      ensures pp != null && Over(jf) && PSTOPPED !in jf ==> pcurrent != Lead(pp) && pprevious != Lead(pp)
      ensures pp != null ==>
        pcurrjob == (if Over(jf) && Flushes(jf, notify) && old(pcurrjob) == Lead(pp) then null else old(pcurrjob))
      ensures forall x :: x in S && (pp == null || Lead(x) != Lead(pp) || !Over(jf) || !Flushes(jf, notify)) ==>
        x.pid == old(x.pid) && x.index == old(x.index)
      ensures pp != null && Over(jf) && Flushes(jf, notify) ==>
        forall x :: x in S && Lead(x) == Lead(pp) ==> x.pid == x.index == 0
      ensures forall x :: x in S && (pp == null || Lead(x) != Lead(pp)) ==> x.flags == old(x.flags)
      ensures pp != null && Over(jf) ==> forall x :: x in S && Lead(x) == Lead(pp) ==>
        x.flags == Noted(Left(x, pp, old(x.flags), ev), jf, notify, x == Lead(pp))
      ensures pp != null && !Over(jf) ==> forall x :: x in S && Lead(x) == Lead(pp) ==>
        x.flags == Left(x, pp, old(x.flags), ev)
      ensures pp != null ==> Told(old(pp.flags), ev, jf, notify, pp == Lead(pp), pp.flags)
      ensures pp != null ==> forall x :: x in S && x != pp && Lead(x) == Lead(pp) ==>
        Untold(old(x.flags), jf, notify, x == Lead(pp), x.flags)
      ensures pp != null ==> forall g {:trigger g in jf} :: g in {PRUNNING, PREPORTED, PSTOPPED} ==>
        (g in jf <==>
          (g == PSTOPPED && ev.WStopped?) || exists x :: x in S && x != pp && Lead(x) == Lead(pp) && g in old(x.flags))
      ensures pp != null ==> forall g {:trigger g in jf} :: g in {PFOREGND, PNOTIFY} ==>
        (g in jf <==> exists x :: x in S && Lead(x) == Lead(pp) && g in old(x.flags))
    {
      hide Valid; hide Lead; hide Became; hide Status; hide Noted; hide Flushes; hide Told; hide Untold; hide Over;
      hide Left;
      pp, jf := Reap(pid, ev, notify);
      if pp != null {
        StatusHas(old(pp.flags), ev);
        JobTold(old(pp.flags), pp, ev, jf, notify);
        forall x | x in S && x != pp && Lead(x) == Lead(pp)
          ensures Untold(old(x.flags), jf, notify, x == Lead(pp), x.flags)
        {
          OtherTold(old(x.flags), x, pp, ev, jf, notify);
        }
      }
    }

    // the flags of one process of a job that goes on
    method Resume(np: Process, foregnd: bool)
      modifies np`flags
      ensures np.flags == Started(old(np.flags), foregnd)
    {
      var f := np.flags;
      if PRUNNING in f || PSTOPPED in f {
        f := f + {PRUNNING};
        f := f - {PSTOPPED};
        f := if foregnd then f + {PFOREGND} else f - {PFOREGND};
      }
      StartedIs(np.flags, f, foregnd);
      np.flags := f;
    }

    // lets every process of the job pp continue that is not over
    method Continue(pp: Process, foregnd: bool) returns (jf: set<Flag>)
      requires Valid() && IsJob(pp, S)
      modifies S`flags
      ensures forall x :: x in S && Lead(x) == pp ==> x.flags == Started(old(x.flags), foregnd)
      ensures forall x :: x in S && Lead(x) != pp ==> x.flags == old(x.flags)
      ensures forall x :: x in S && Lead(x) == pp ==> old(x.flags) <= jf
      ensures forall g :: g in jf ==> exists x :: x in S && Lead(x) == pp && g in old(x.flags)
    {
      hide RingsOK; hide ListOK; hide StateOK; hide MaxOK; hide CurOK; hide Lead; hide Started; hide Dist;
      jf := {};
      var np := pp;
      SelfLed(pp, S);
      RingPlace(pp, S);
      Around(pp, pp, S);
      ghost var d, n := 0, |pp.ring|;
      while true
        invariant 0 <= d < n && np in S && Lead(np) == Lead(pp) && Dist(np, pp, n) == d
        invariant forall x :: x in S && Lead(x) == pp && Dist(x, pp, n) < d ==>
          x.flags == Started(old(x.flags), foregnd)
        invariant forall x :: x in S && !(Lead(x) == pp && Dist(x, pp, n) < d) ==> x.flags == old(x.flags)
        invariant forall x :: x in S && Lead(x) == pp && Dist(x, pp, n) < d ==> old(x.flags) <= jf
        invariant forall g :: g in jf ==> exists x :: x in S && Lead(x) == pp && g in old(x.flags)
        decreases n - d
      {
        Around(np, pp, S);
        jf := jf + np.flags;
        Resume(np, foregnd);
        np := np.friends;
        if np == pp {
          break;
        }
        d := d + 1;
      }
    }

    // pstart: the job continues in the foreground or in the background
    method Pstart(pp: Process, foregnd: bool) returns (jf: set<Flag>)
      requires Valid() && IsJob(pp, S)
      modifies this`pcurrent, this`pprevious, S`flags
      ensures Valid()
      ensures !foregnd ==> pcurrent != pp && pprevious != pp
      ensures foregnd ==> pcurrent == old(pcurrent) && pprevious == old(pprevious)
      ensures forall x :: x in S && Lead(x) == pp ==> x.flags == Started(old(x.flags), foregnd)
      ensures forall x :: x in S && Lead(x) == pp ==> Resumed(old(x.flags), foregnd, x.flags)
      ensures forall x :: x in S && Lead(x) != pp ==> x.flags == old(x.flags)
      ensures forall x :: x in S && Lead(x) == pp ==> old(x.flags) <= jf
      ensures forall g :: g in jf ==> exists x :: x in S && Lead(x) == pp && g in old(x.flags)
    {
      hide Valid; hide Lead; hide Started; hide Pick; hide Resumed;
      jf := Continue(pp, foregnd);
      forall x | x in S && Lead(x) == pp ensures Resumed(old(x.flags), foregnd, x.flags) {
        StartedResumed(old(x.flags), foregnd);
      }
      if !foregnd {
        Pclrcurr(pp);
      }
    }

    // -------------------------------------------------------------- pwait

    // takes the process after fp, the k-th, off the list
    method TakeOff(fp: Process, pp: Process, ghost k: nat)
      requires ListOK(proclist, procs, S) && k < |procs| && pp == procs[k]
      requires fp == if k == 0 then proclist else procs[k - 1]
      modifies fp`next, this`procs, this`S
      ensures procs == Without(old(procs), k) && S == old(S) - {pp}
      ensures |procs| == |old(procs)| - 1 && (k > 0 ==> procs[k - 1] == fp)
      ensures ListOK(proclist, procs, S)
    {
      hide ListOK; hide Without; hide At;
      ghost var was := procs;
      InProcs(proclist, was, S);
      WithoutAt(was, k);
      ListAt(proclist, was, S, -1);
      forall i | 0 <= i < |was|
        ensures was[i] in S && was[i].next == At(was, i + 1)
      {
        ListAt(proclist, was, S, i);
      }
      fp.next := pp.next;
      procs, S := Without(was, k), S - {pp};
      forall i | 0 <= i < |procs|
        ensures procs[i].next == At(procs, i + 1)
      {
        assert i == k - 1 <==> procs[i] == fp;
        assert procs[i].next == old(was[if i < k - 1 then i else i + 1].next);
      }
      IsList(proclist, procs, S);
    }

    // the loop of pwait over the list
    method SweepList()
      requires ListOK(proclist, procs, S)
      modifies this`procs, this`S, proclist`next, S`next
      ensures ListOK(proclist, procs, S)
      ensures procs == old(Among(procs, Live(S))) && S == old(Live(S))
    {
      hide ListOK; hide Among; hide Without; hide Live; hide Rest; hide Unswept;
      ghost var a, S0, live := procs, S, Live(S);
      InProcs(proclist, procs, S);
      LiveIn(S);
      SweepEnd(a, S, live);
      ListAt(proclist, procs, S, -1);
      var fp := proclist;
      var pp := fp.next;
      ghost var i, k := 0, 0;
      while pp != null
        invariant 0 <= i <= |a| && k == |Among(a[..i], live)| && |procs| == k + |a| - i
        invariant ListOK(proclist, procs, S) && procs == Unswept(a, i, live)
        invariant fp == (if k == 0 then proclist else procs[k - 1]) && (fp == proclist || fp in S0)
        invariant pp == At(procs, k)
        invariant S == Rest(S0, live, a[..i])
        decreases |a| - i
      {
        ListAt(proclist, procs, S, k);
        SweepStep(a, i, live, S0);
        if pp.pid == 0 {
          TakeOff(fp, pp, k);
          pp := fp;
        } else {
          k := k + 1;
        }
        i := i + 1;
        ListAt(proclist, procs, S, k - 1);
        fp := pp;
        pp := pp.next;
      }
      SweepEnd(a, S0, live);
    }

    // the processes that were flushed leave the list and are freed
    method Sweep()
      requires Valid()
      modifies this`procs, this`S, proclist`next, S`next
      ensures Valid() && procs == old(Among(procs, Live(S))) && S == old(Live(S))
    {
      hide RingsOK; hide StateOK; hide MaxOK; hide Recent; hide ListOK; hide Among; hide Live;
      LiveTable(S, pmaxindex);
      LiveRecent(pcurrjob, pcurrent, pprevious, S);
      LiveIn(S);
      SweepList();
    }

    // ---------------------------------------------------------- whole runs

    // What a proper table means: two live processes are on the same ring
    // exactly if they have the same index, a ring is live as a whole and has
    // one leader, and pmaxindex is the largest index in use.
    lemma Proper()
      requires Valid()
      ensures forall x :: x in S && x.pid != 0 ==> forall i :: 0 <= i < |x.ring| ==>
        x.ring[i] in S && x.ring[i].pid != 0 && (x.ring[i].pid == x.ring[i].jobid <==> i == 0)
      ensures forall x, y :: x in S && y in S && x.pid != 0 && y.pid != 0 ==> (x.index == y.index <==> x in y.ring)
      ensures forall x :: x in S ==> x.index <= pmaxindex
      ensures pmaxindex != 0 ==> exists x :: x in S && x.index == pmaxindex && x.pid != 0
      ensures pcurrent != null ==> pcurrent in S && pcurrent.pid == pcurrent.jobid != 0 && pcurrent != pprevious
      ensures pprevious != null ==> pprevious in S && pprevious.pid == pprevious.jobid != 0
    {
      hide ListOK; hide RingsOK; hide StateOK; hide OnRing; hide Lead;
      forall x | x in S && x.pid != 0
        ensures forall i :: 0 <= i < |x.ring| ==>
          x.ring[i] in S && x.ring[i].pid != 0 && (x.ring[i].pid == x.ring[i].jobid <==> i == 0)
      {
        forall i | 0 <= i < |x.ring|
          ensures x.ring[i] in S && x.ring[i].pid != 0 && (x.ring[i].pid == x.ring[i].jobid <==> i == 0)
        {
          LiveMember(x, S, i);
        }
      }
      forall x, y | x in S && y in S && x.pid != 0 && y.pid != 0
        ensures x.index == y.index <==> x in y.ring
      {
        SameJob(x, y, S);
      }
      forall x | x in S ensures x.pid == x.jobid != 0 <==> x.pid != 0 && x.at == 0 {
        LeaderTest(x, S);
      }
      if pmaxindex != 0 {
        var x :| x in S && x.index == pmaxindex;
        IndexLive(x, S);
      }
    }

    method Exec(op: Op)
      requires Valid()
      modifies this, proclist`next, S
      ensures Valid() && forall x :: x in S ==> x in old(S) || fresh(x)
    {
      hide Valid; hide Lead; hide Entered; hide NextIndex; hide Indices; hide Became; hide Noted;
      hide Status; hide Found; hide Left; hide Started; hide Live; hide Among; hide Pick;
      NotHead();
      match op
      case Spawn(pid, ampersand) =>
        var x := Find(pid);
        if pid != 0 && x == null {
          var pp := Palloc(pid, ampersand);
        }
      case EndJob =>
        EndCurrent();
      case Child(pid, ev, notify) =>
        if pid != 0 {
          var pp, jf := Pchild(pid, ev, notify);
        }
      case Flush(pid) =>
        var pp := Find(pid);
        if pp != null {
          Pflush(pp);
        }
      case Start(pid, foregnd) =>
        var pp := Find(pid);
        if pp != null && pp.pid != 0 {
          pp := Leader(pp);
          var jf := Pstart(pp, foregnd);
        }
      case Reap =>
        LiveIn(S);
        Sweep();
    }

    // pendjob: the next process begins a new job
    method EndCurrent()
      requires Valid()
      modifies this`pcurrjob
      ensures Valid() && pcurrjob == null
    {
      hide ListOK; hide RingsOK; hide StateOK; hide MaxOK;
      pcurrjob := null;
    }

    // every run keeps the table proper
    method Run(ops: seq<Op>)
      requires Valid()
      modifies this, proclist`next, S
      ensures Valid()
    {
      hide Valid;
      for n := 0 to |ops|
        invariant Valid() && forall x :: x in S ==> x in old(S) || fresh(x)
      {
        Exec(ops[n]);
      }
    }
  }
}
