/** What the jobs of a test run come back with: which were cut short by an interrupt, and what the
    collector makes of the others. */
module Verdicts {
  import opened WorkerPool

  // ---------- one job per id ----------

  lemma {:induction false} NoneWithId(jobs: seq<Job>, id: nat)
    ensures Count(jobs, id) == 0 <==> forall j :: j in jobs ==> j.id != id
  {
    if jobs != [] {
      NoneWithId(jobs[1..], id);
      assert forall j :: j in jobs <==> j == jobs[0] || j in jobs[1..];
    }
  }

  lemma {:induction false} OneWithId(jobs: seq<Job>, id: nat) returns (j: Job)
    requires Count(jobs, id) == 1
    ensures j in jobs && j.id == id && forall k :: k in jobs && k.id == id ==> k == j
  {
    assert forall k :: k in jobs <==> k == jobs[0] || k in jobs[1..];
    if jobs[0].id == id {
      j := jobs[0];
      NoneWithId(jobs[1..], id);
    } else {
      j := OneWithId(jobs[1..], id);
    }
  }

  /** The jobs that an interrupt cut short. */
  ghost function Broken(jobs: seq<Job>): set<nat> {
    set j | j in jobs && j.isBreak :: j.id
  }

  /** Every job comes back: broken, or skipped as it was to be, or with the return code that its
      test program gave. */
  lemma CameBack(c: Config, s: State, i: nat) returns (j: Job)
    requires Finished(c, s) && i < |c.jobs|
    ensures j in s.collected && j.id == i && forall k :: k in s.collected && k.id == i ==> k == j
    ensures j.isBreak <==> i in Broken(s.collected)
    ensures j.isSkip <==> c.jobs[i].isSkip
    ensures i !in Broken(s.collected) && !c.jobs[i].isSkip ==> i < |c.results| && j.returncode == c.results[i]
  {
    j := OneWithId(s.collected, i);
    assert Returned(c, s.threadExit, j);
  }

  /** Nothing is cut short without an interrupt. */
  lemma BrokenByInterrupt(c: Config, s: State)
    requires Finished(c, s) && !s.threadExit
    ensures Broken(s.collected) == {}
  {
    forall j | j in s.collected ensures !j.isBreak {
      assert Returned(c, false, j);
    }
  }

  // ---------- what an interrupt cuts short ----------

  ghost predicate InHand(w: Worker, id: nat) {
    (w.Running? && w.job.id == id) || (w.Putting? && w.job.id == id && !w.job.isBreak)
  }

  ghost predicate Unbroken(jobs: seq<Job>, id: nat) {
    exists j :: j in jobs && j.id == id && !j.isBreak
  }

  ghost predicate SomeInHand(ws: seq<Worker>, id: nat) {
    exists w :: 0 <= w < |ws| && InHand(ws[w], id)
  }

  /** Job id is being run, or has come through without a break. */
  ghost predicate Committed(s: State, id: nat) {
    SomeInHand(s.workers, id) || Unbroken(s.outputQueue, id) || Unbroken(s.collected, id)
  }

  lemma HandChanged(ws: seq<Worker>, w: nat, x: Worker, id: nat)
    requires w < |ws|
    ensures InHand(x, id) ==> SomeInHand(ws[w := x], id)
    ensures InHand(x, id) == InHand(ws[w], id) ==> (SomeInHand(ws[w := x], id) <==> SomeInHand(ws, id))
    ensures SomeInHand(ws[w := x], id) && !InHand(x, id) ==> SomeInHand(ws, id)
    ensures SomeInHand(ws, id) && !InHand(ws[w], id) ==> SomeInHand(ws[w := x], id)
  {
    var vs := ws[w := x];
    assert vs[w] == x;
    if SomeInHand(vs, id) {
      var v :| 0 <= v < |vs| && InHand(vs[v], id);
      assert v != w ==> InHand(ws[v], id);
    }
    if SomeInHand(ws, id) {
      var v :| 0 <= v < |ws| && InHand(ws[v], id);
      assert v != w ==> InHand(vs[v], id);
    }
  }

  lemma UnbrokenAppend(jobs: seq<Job>, j: Job, id: nat)
    ensures Unbroken(jobs + [j], id) <==> Unbroken(jobs, id) || (j.id == id && !j.isBreak)
  {
    if Unbroken(jobs, id) {
      var k :| k in jobs && k.id == id && !k.isBreak;
      assert k in jobs + [j];
    }
    assert j in jobs + [j];
  }

  lemma UnbrokenHead(jobs: seq<Job>, id: nat)
    requires jobs != []
    ensures Unbroken(jobs, id) <==> Unbroken(jobs[1..], id) || (jobs[0].id == id && !jobs[0].isBreak)
  {
    if Unbroken(jobs[1..], id) {
      var k :| k in jobs[1..] && k.id == id && !k.isBreak;
      assert k in jobs;
    }
  }

  ghost predicate WholeRuns(ws: seq<Worker>) {
    forall w :: 0 <= w < |ws| && ws[w].Running? ==> !ws[w].job.isBreak
  }

  /** A worker runs no job with the break flag, as it looks at the flag first. */
  lemma WholeKept(c: Config, s: State, s': State)
    requires WholeRuns(s.workers) && Next(c, s, s')
    ensures WholeRuns(s'.workers)
  {
  }

  lemma {:induction false} RunIsWhole(c: Config, run: seq<State>, i: nat)
    requires IsRun(c, run) && i < |run|
    ensures WholeRuns(run[i].workers)
  {
    if i > 0 {
      RunIsWhole(c, run, i - 1);
      assert Next(c, run[i - 1], run[i]);
      WholeKept(c, run[i - 1], run[i]);
    }
  }

  lemma WorkerCommits(c: Config, s: State, w: nat, id: nat)
    requires WholeRuns(s.workers) && s.threadExit && WorkerEnabled(s, w)
    ensures Committed(WorkerNext(c, s, w), id) <==> Committed(s, id)
  {
    var s' := WorkerNext(c, s, w);
    HandChanged(s.workers, w, s'.workers[w], id);
    if s.workers[w].Putting? {
      UnbrokenAppend(s.outputQueue, s.workers[w].job, id);
    }
  }

  lemma MainCommits(c: Config, s: State, id: nat)
    requires MainEnabled(c, s)
    ensures Committed(MainNext(c, s), id) <==> Committed(s, id)
  {
    if s.main.Collecting? && s.main.next < |c.jobs| {
      UnbrokenHead(s.outputQueue, id);
      UnbrokenAppend(s.collected, s.outputQueue[0], id);
    }
  }

  ghost function CommittedIds(s: State): iset<nat> {
    iset id: nat | Committed(s, id)
  }

  lemma WorkerCommitsNone(c: Config, s: State, w: nat)
    requires WholeRuns(s.workers) && s.threadExit && WorkerEnabled(s, w)
    ensures CommittedIds(WorkerNext(c, s, w)) == CommittedIds(s)
  {
    forall id: nat ensures Committed(WorkerNext(c, s, w), id) <==> Committed(s, id) {
      WorkerCommits(c, s, w, id);
    }
  }

  lemma MainCommitsNone(c: Config, s: State)
    requires MainEnabled(c, s)
    ensures CommittedIds(MainNext(c, s)) == CommittedIds(s)
  {
    forall id: nat ensures Committed(MainNext(c, s), id) <==> Committed(s, id) {
      MainCommits(c, s, id);
    }
  }

  /** Once an interrupt has come, no job is committed any more, and none that was is lost. */
  lemma StepCommits(c: Config, s: State, s': State)
    requires WholeRuns(s.workers) && s.threadExit && Next(c, s, s')
    ensures s'.threadExit && CommittedIds(s') == CommittedIds(s)
  {
    if w: nat :| WorkerEnabled(s, w) && s' == WorkerNext(c, s, w) {
      WorkerCommitsNone(c, s, w);
    } else {
      MainCommitsNone(c, s);
    }
  }

  lemma CommitsAlong(c: Config, run: seq<State>, k: nat)
    requires WellFormed(c) && IsRun(c, run) && 0 < k < |run| && run[k - 1].threadExit
    ensures run[k].threadExit && CommittedIds(run[k]) == CommittedIds(run[k - 1])
  {
    RunIsWhole(c, run, k - 1);
    assert Next(c, run[k - 1], run[k]);
    StepCommits(c, run[k - 1], run[k]);
  }

  lemma {:induction false} CommittedSince(c: Config, run: seq<State>, i: nat, k: nat)
    requires WellFormed(c) && IsRun(c, run) && i <= k < |run| && run[i].threadExit
    ensures run[k].threadExit && CommittedIds(run[k]) == CommittedIds(run[i])
    decreases k
  {
    if i < k {
      CommittedSince(c, run, i, k - 1);
      CommitsAlong(c, run, k);
    }
  }

  lemma FinishedCommitted(c: Config, s: State, id: nat)
    requires WellFormed(c) && Finished(c, s) && |s.workers| == c.processors && id < |c.jobs|
    ensures id in CommittedIds(s) <==> id !in Broken(s.collected)
  {
    var j := CameBack(c, s, id);
  }

  /** Of a finished run, the jobs that come back broken are exactly those that no worker was running
      and that had not come through when the interrupt came. */
  lemma InterruptBreaks(c: Config, run: seq<State>, i: nat, id: nat)
    requires WellFormed(c) && IsRun(c, run) && run[|run| - 1].main == Done
    requires i < |run| && run[i].threadExit && id < |c.jobs|
    ensures id in Broken(run[|run| - 1].collected) <==> !Committed(run[i], id)
  {
    EveryRunFinishes(c, run);
    RunInvariant(c, run, |run| - 1);
    CommittedSince(c, run, i, |run| - 1);
    FinishedCommitted(c, run[|run| - 1], id);
    assert id in CommittedIds(run[i]) <==> Committed(run[i], id);
  }

  // ---------- the five tallies ----------

  datatype Status = BREAK | PASS | FAIL | CRASH | SKIP | VALGR

  /** How the collector reads a job that came back. */
  function StatusOf(job: Job): Status {
    if job.isBreak then BREAK
    else if job.isSkip then SKIP
    else if job.returncode == 0 then PASS
    else if job.returncode == 1 then FAIL
    else if job.returncode == 2 then VALGR
    else CRASH
  }

  ghost function StatusCount(jobs: seq<Job>, status: Status): nat {
    if jobs == [] then 0 else
      var n := |jobs| - 1;
      StatusCount(jobs[..n], status) + if StatusOf(jobs[n]) == status then 1 else 0
  }

  ghost function StatusIds(jobs: seq<Job>, status: Status): set<nat> {
    set j | j in jobs && StatusOf(j) == status :: j.id
  }

  ghost predicate EachOnce(jobs: seq<Job>) {
    forall id: nat :: Count(jobs, id) <= 1
  }

  lemma EachOnceFront(jobs: seq<Job>, j: Job)
    requires EachOnce(jobs + [j])
    ensures EachOnce(jobs) && forall k :: k in jobs ==> k.id != j.id
  {
    forall id: nat ensures Count(jobs, id) <= 1 {
      CountAppend(jobs, j, id);
      assert Count(jobs + [j], id) <= 1;
    }
    CountAppend(jobs, j, j.id);
    NoneWithId(jobs, j.id);
  }

  lemma StatusIdsAppend(jobs: seq<Job>, j: Job, status: Status)
    ensures StatusIds(jobs + [j], status) == StatusIds(jobs, status) + if StatusOf(j) == status then {j.id} else {}
  {
    assert forall k :: k in jobs + [j] <==> k in jobs || k == j;
  }

  /** Counting jobs is counting their ids. */
  lemma {:induction false} CountIsSize(jobs: seq<Job>, status: Status)
    requires EachOnce(jobs)
    ensures StatusCount(jobs, status) == |StatusIds(jobs, status)|
    decreases |jobs|
  {
    if jobs != [] {
      var n := |jobs| - 1;
      assert jobs == jobs[..n] + [jobs[n]];
      EachOnceFront(jobs[..n], jobs[n]);
      StatusIdsAppend(jobs[..n], jobs[n], status);
      CountIsSize(jobs[..n], status);
      assert jobs[n].id !in StatusIds(jobs[..n], status);
    }
  }

  /** The jobs that came back whole and were run, and whose test program returned such a code. */
  ghost function RanWith(c: Config, broken: set<nat>, wanted: int -> bool): set<nat>
    requires |c.results| == |c.jobs|
  {
    set i | 0 <= i < |c.jobs| && i !in broken && !c.jobs[i].isSkip && wanted(c.results[i])
  }

  /** The jobs that came back whole and were to be skipped. */
  ghost function SkippedOf(c: Config, broken: set<nat>): set<nat> {
    set i | 0 <= i < |c.jobs| && i !in broken && c.jobs[i].isSkip
  }

  /** What the ids of a status are, by the jobs as they were dispatched and what their programs
      returned. */
  lemma StatusIdsExact(c: Config, s: State)
    requires WellFormed(c) && Finished(c, s)
    ensures var jobs, broken := s.collected, Broken(s.collected);
      && StatusIds(jobs, SKIP) == SkippedOf(c, broken)
      && StatusIds(jobs, PASS) == RanWith(c, broken, code => code == 0)
      && StatusIds(jobs, FAIL) == RanWith(c, broken, code => code == 1)
      && StatusIds(jobs, VALGR) == RanWith(c, broken, code => code == 2)
      && StatusIds(jobs, CRASH) == RanWith(c, broken, code => code < 0 || code > 2)
  {
    forall j | j in s.collected ensures j.id < |c.jobs| {
      assert Returned(c, s.threadExit, j);
    }
    forall i | 0 <= i < |c.jobs|
      ensures exists j :: j in s.collected && j.id == i && (j.isBreak <==> i in Broken(s.collected))
                && j.isSkip == c.jobs[i].isSkip && forall k :: k in s.collected && k.id == i ==> k == j
    {
      var j := CameBack(c, s, i);
    }
    forall i | 0 <= i < |c.jobs| && i !in Broken(s.collected) && !c.jobs[i].isSkip
      ensures forall k :: k in s.collected && k.id == i ==> k.returncode == c.results[i]
    {
      var j := CameBack(c, s, i);
    }
  }

  ghost predicate Good(job: Job) {
    !job.isBreak && (job.isSkip || job.returncode == 0)
  }

  lemma {:induction false} AllGood(jobs: seq<Job>)
    ensures StatusCount(jobs, PASS) + StatusCount(jobs, SKIP) <= |jobs|
    ensures StatusCount(jobs, PASS) + StatusCount(jobs, SKIP) == |jobs|
      <==> forall i :: 0 <= i < |jobs| ==> Good(jobs[i])
  {
    if jobs != [] {
      AllGood(jobs[..|jobs| - 1]);
    }
  }

  /** No job was cut short, and every one was skipped or its test program returned 0. */
  ghost predicate Success(c: Config, broken: set<nat>)
    requires |c.results| == |c.jobs|
  {
    broken == {} && forall i :: 0 <= i < |c.jobs| ==> c.jobs[i].isSkip || c.results[i] == 0
  }

  /** Passed and skipped jobs add up to all jobs exactly in that case. */
  lemma SuccessExact(c: Config, s: State)
    requires WellFormed(c) && Finished(c, s)
    ensures StatusCount(s.collected, PASS) + StatusCount(s.collected, SKIP) == |c.jobs|
       <==> Success(c, Broken(s.collected))
  {
    AllGood(s.collected);
    forall i | 0 <= i < |c.jobs|
      ensures i !in Broken(s.collected) && (c.jobs[i].isSkip || c.results[i] == 0)
        <==> forall j :: j in s.collected && j.id == i ==> Good(j)
    {
      var j := CameBack(c, s, i);
    }
    forall j | j in s.collected ensures j.id < |c.jobs| {
      assert Returned(c, s.threadExit, j);
    }
    assert Broken(s.collected) == {} <==> forall i :: 0 <= i < |c.jobs| ==> i !in Broken(s.collected);
  }
}
