/** The worker pool of test.py as a transition system: one step is one queue operation, one
    test of a job's flags, one finished test program, or the delivery of an interrupt. */
module WorkerPool {

  /** The fields of a Job that the pool looks at; id tells Job objects apart. */
  datatype Job = Job(id: nat, isBreak: bool, isSkip: bool, returncode: int)

  /** What a worker thread is about to do: get from the input queue, examine the job it got,
      run it, put it on the output queue, or nothing any more. */
  datatype Worker = Waiting | Holding(job: Job) | Running(job: Job) | Putting(job: Job) | Exited

  /** Where the main thread is, and how far in its current loop. */
  datatype Main =
    | Dispatching(next: nat)
    | Stopping(next: nat)
    | Collecting(next: nat)
    | Joining(next: nat)
    | Done

  datatype State = State(inputQueue: seq<Job>, outputQueue: seq<Job>, workers: seq<Worker>,
                         main: Main, threadExit: bool, collected: seq<Job>)

  /** results[i] is what the test program of job i returns when it is run. */
  datatype Config = Config(jobs: seq<Job>, processors: nat, results: seq<int>)

  /** The jobs queued for work carry no break flag; ids number them. */
  ghost predicate WellFormed(c: Config) {
    && c.processors >= 1 && |c.results| == |c.jobs|
    && forall i :: 0 <= i < |c.jobs| ==> c.jobs[i].id == i && !c.jobs[i].isBreak
  }

  /** The special job that tells a worker to exit. */
  function Pill(c: Config): Job {
    Job(|c.jobs|, true, false, 0)
  }

  /** The return code of a test program. */
  function Code(c: Config, job: Job): int {
    if job.id < |c.results| then c.results[job.id] else 0
  }

  // ---------- transitions ----------

  function Initial(c: Config): State {
    State([], [], seq(c.processors, _ => Waiting), Dispatching(0), false, [])
  }

  /** Whether a worker can go on, given the input queue. */
  predicate Ready(worker: Worker, inputQueue: seq<Job>) {
    match worker
    case Waiting => inputQueue != []
    case Exited => false
    case _ => true
  }

  predicate WorkerEnabled(s: State, w: nat) {
    w < |s.workers| && Ready(s.workers[w], s.inputQueue)
  }

  /** One step of worker w. */
  function WorkerNext(c: Config, s: State, w: nat): State
    requires WorkerEnabled(s, w)
  {
    match s.workers[w]
    case Waiting => s.(inputQueue := s.inputQueue[1..], workers := s.workers[w := Holding(s.inputQueue[0])])
    case Holding(job) =>
      var next :=
        if job.isBreak then Exited
        else if s.threadExit then Putting(job.(isBreak := true))
        else if job.isSkip then Putting(job)
        else Running(job);
      s.(workers := s.workers[w := next])
    case Running(job) => s.(workers := s.workers[w := Putting(job.(returncode := Code(c, job)))])
    case Putting(job) => s.(outputQueue := s.outputQueue + [job], workers := s.workers[w := Waiting])
  }

  /** Whether the main thread can go on, given the output queue and the workers to join. */
  predicate MainReady(main: Main, jobs: nat, outputQueue: seq<Job>, workers: seq<Worker>) {
    match main
    case Dispatching(_) => true
    case Stopping(_) => true
    case Collecting(k) => k < jobs ==> outputQueue != []
    case Joining(k) => k < |workers| ==> workers[k].Exited?
    case Done => false
  }

  predicate MainEnabled(c: Config, s: State) {
    MainReady(s.main, |c.jobs|, s.outputQueue, s.workers)
  }

  function MainNext(c: Config, s: State): State
    requires MainEnabled(c, s)
  {
    match s.main
    case Dispatching(k) =>
      if k < |c.jobs| then s.(inputQueue := s.inputQueue + [c.jobs[k]], main := Dispatching(k + 1))
      else s.(main := Stopping(0))
    case Stopping(k) =>
      if k < c.processors then s.(inputQueue := s.inputQueue + [Pill(c)], main := Stopping(k + 1))
      else s.(main := Collecting(0))
    case Collecting(k) =>
      if k < |c.jobs| then
        s.(outputQueue := s.outputQueue[1..], collected := s.collected + [s.outputQueue[0]], main := Collecting(k + 1))
      else s.(main := Joining(0))
    case Joining(k) =>
      if k < |s.workers| then s.(main := Joining(k + 1)) else s.(main := Done)
  }

  ghost predicate Next(c: Config, s: State, s': State) {
    || (exists w: nat :: WorkerEnabled(s, w) && s' == WorkerNext(c, s, w))
    || (MainEnabled(c, s) && s' == MainNext(c, s))
    || (!s.threadExit && s' == s.(threadExit := true))
  }

  /** A run from the start, one step at a time, in any interleaving. */
  ghost predicate IsRun(c: Config, run: seq<State>) {
    && run != [] && run[0] == Initial(c)
    && forall i :: 0 <= i < |run| - 1 ==> Next(c, run[i], run[i + 1])
  }

  // ---------- counting ----------

  /** How often job id occurs in a queue. */
  ghost function Count(s: seq<Job>, id: nat): nat {
    if s == [] then 0 else (if s[0].id == id then 1 else 0) + Count(s[1..], id)
  }

  lemma {:induction false} CountAppend(s: seq<Job>, j: Job, id: nat)
    ensures Count(s + [j], id) == Count(s, id) + if j.id == id then 1 else 0
  {
    if s != [] {
      assert (s + [j])[1..] == s[1..] + [j];
      CountAppend(s[1..], j, id);
    }
  }

  /** A worker has a dispatched job in hand; a pill does not count. */
  ghost predicate Carries(w: Worker) {
    w.Running? || w.Putting? || (w.Holding? && !w.job.isBreak)
  }

  ghost function CarriedTotal(ws: seq<Worker>): nat {
    if ws == [] then 0 else (if Carries(ws[0]) then 1 else 0) + CarriedTotal(ws[1..])
  }

  ghost predicate CarriesId(w: Worker, id: nat) {
    Carries(w) && w.job.id == id
  }

  ghost function CarriedCount(ws: seq<Worker>, id: nat): nat {
    if ws == [] then 0 else (if CarriesId(ws[0], id) then 1 else 0) + CarriedCount(ws[1..], id)
  }

  lemma {:induction false} CarriedCountUpdate(ws: seq<Worker>, w: nat, x: Worker, id: nat)
    requires w < |ws|
    ensures CarriedCount(ws[w := x], id) + (if CarriesId(ws[w], id) then 1 else 0)
      == CarriedCount(ws, id) + if CarriesId(x, id) then 1 else 0
  {
    if w > 0 {
      CarriedCountUpdate(ws[1..], w - 1, x, id);
      assert ws[w := x][1..] == ws[1..][w - 1 := x];
    } else {
      assert ws[w := x][1..] == ws[1..];
    }
  }

  lemma {:induction false} CarriedTotalUpdate(ws: seq<Worker>, w: nat, x: Worker)
    requires w < |ws|
    ensures CarriedTotal(ws[w := x]) + (if Carries(ws[w]) then 1 else 0)
      == CarriedTotal(ws) + if Carries(x) then 1 else 0
  {
    if w > 0 {
      CarriedTotalUpdate(ws[1..], w - 1, x);
      assert ws[w := x][1..] == ws[1..][w - 1 := x];
    } else {
      assert ws[w := x][1..] == ws[1..];
    }
  }

  lemma {:induction false} CarriedTotalZero(ws: seq<Worker>)
    ensures CarriedTotal(ws) == 0 <==> forall i :: 0 <= i < |ws| ==> !Carries(ws[i])
  {
    if ws != [] {
      CarriedTotalZero(ws[1..]);
      assert forall i :: 1 <= i < |ws| ==> ws[i] == ws[1..][i - 1];
      assert forall i :: 0 <= i < |ws| - 1 ==> ws[1..][i] == ws[i + 1];
    }
  }

  /** Workers that have taken their pill. */
  ghost predicate Pilled(w: Worker) {
    w.Exited? || (w.Holding? && w.job.isBreak)
  }

  ghost function PilledCount(ws: seq<Worker>): nat {
    if ws == [] then 0 else (if Pilled(ws[0]) then 1 else 0) + PilledCount(ws[1..])
  }

  lemma {:induction false} PilledUpdate(ws: seq<Worker>, w: nat, x: Worker)
    requires w < |ws|
    ensures PilledCount(ws[w := x]) + (if Pilled(ws[w]) then 1 else 0) == PilledCount(ws) + if Pilled(x) then 1 else 0
  {
    if w > 0 {
      PilledUpdate(ws[1..], w - 1, x);
      assert ws[w := x][1..] == ws[1..][w - 1 := x];
    } else {
      assert ws[w := x][1..] == ws[1..];
    }
  }

  lemma {:induction false} PilledBound(ws: seq<Worker>)
    ensures PilledCount(ws) <= |ws|
    ensures PilledCount(ws) == |ws| <==> forall i :: 0 <= i < |ws| ==> Pilled(ws[i])
    ensures PilledCount(ws) == 0 <==> forall i :: 0 <= i < |ws| ==> !Pilled(ws[i])
  {
    if ws != [] {
      PilledBound(ws[1..]);
      assert forall i :: 1 <= i < |ws| ==> ws[i] == ws[1..][i - 1];
      assert forall i :: 0 <= i < |ws| - 1 ==> ws[1..][i] == ws[i + 1];
    }
  }

  // ---------- what every reachable state satisfies ----------

  ghost function Dispatched(c: Config, s: State): nat {
    if s.main.Dispatching? then s.main.next else |c.jobs|
  }

  ghost function PillsSent(c: Config, s: State): nat {
    match s.main
    case Dispatching(_) => 0
    case Stopping(k) => k
    case _ => c.processors
  }

  /** How many dispatched jobs have left the input queue. */
  ghost function Taken(s: State): nat {
    CarriedTotal(s.workers) + |s.outputQueue| + |s.collected|
  }

  /** How often job id occurs outside the input queue. */
  ghost function Occurrences(s: State, id: nat): nat {
    CarriedCount(s.workers, id) + Count(s.outputQueue, id) + Count(s.collected, id)
  }

  ghost predicate ExitedUpto(ws: seq<Worker>, k: nat) {
    k <= |ws| && forall i :: 0 <= i < k ==> ws[i].Exited?
  }

  ghost predicate MainOk(c: Config, s: State) {
    match s.main
    case Dispatching(k) => k <= |c.jobs| && s.collected == []
    case Stopping(k) => k <= c.processors && s.collected == []
    case Collecting(k) => k == |s.collected| <= |c.jobs|
    case Joining(k) => k <= c.processors && |s.collected| == |c.jobs| && ExitedUpto(s.workers, k)
    case Done => |s.collected| == |c.jobs| && ExitedUpto(s.workers, c.processors)
  }

  /** The input queue: the jobs not yet taken, in dispatch order, and behind them the pills;
      nobody takes a pill while a job remains. */
  ghost predicate InputOk(c: Config, s: State) {
    && Taken(s) <= Dispatched(c, s) <= |c.jobs|
    && PilledCount(s.workers) <= PillsSent(c, s)
    && (PilledCount(s.workers) > 0 ==> Taken(s) == |c.jobs|)
    && s.inputQueue == c.jobs[Taken(s)..Dispatched(c, s)] + Pills(c, PillsSent(c, s) - PilledCount(s.workers))
  }

  ghost function Pills(c: Config, k: nat): seq<Job> {
    seq(k, _ => Pill(c))
  }

  /** Each job taken is in exactly one place: some worker's hands, the output queue, or the
      collector's. */
  ghost predicate Conserved(s: State) {
    forall id: nat :: Occurrences(s, id) == if id < Taken(s) then 1 else 0
  }

  ghost predicate Untouched(c: Config, j: Job) {
    j.id < |c.jobs| && j == c.jobs[j.id]
  }

  /** A job that comes back is the one dispatched, but for the break flag, which only an
      interrupt sets, and the return code, which is that of its test program if it was run. */
  ghost predicate Returned(c: Config, threadExit: bool, j: Job) {
    && j.id < |c.jobs|
    && j.isSkip == c.jobs[j.id].isSkip
    && (j.isBreak ==> threadExit)
    && (if j.isBreak || j.isSkip then j.returncode == c.jobs[j.id].returncode
        else j.id < |c.results| && j.returncode == c.results[j.id])
  }

  ghost predicate WorkerOk(c: Config, threadExit: bool, w: Worker) {
    match w
    case Waiting => true
    case Exited => true
    case Holding(j) => if j.isBreak then j == Pill(c) else Untouched(c, j)
    case Running(j) => Untouched(c, j) && !j.isSkip
    case Putting(j) => Returned(c, threadExit, j)
  }

  ghost predicate ContentOk(c: Config, s: State) {
    && (forall w :: 0 <= w < |s.workers| ==> WorkerOk(c, s.threadExit, s.workers[w]))
    && (forall i :: 0 <= i < |s.outputQueue| ==> Returned(c, s.threadExit, s.outputQueue[i]))
    && (forall i :: 0 <= i < |s.collected| ==> Returned(c, s.threadExit, s.collected[i]))
  }

  ghost predicate Inv(c: Config, s: State) {
    && WellFormed(c) && |s.workers| == c.processors
    && MainOk(c, s) && InputOk(c, s) && Conserved(s) && ContentOk(c, s)
  }

  lemma {:induction false} WaitingWorkers(n: nat, id: nat)
    ensures CarriedTotal(seq(n, _ => Waiting)) == 0 == CarriedCount(seq(n, _ => Waiting), id)
    ensures PilledCount(seq(n, _ => Waiting)) == 0
  {
    if n > 0 {
      assert seq(n, _ => Waiting)[1..] == seq(n - 1, _ => Waiting);
      WaitingWorkers(n - 1, id);
    }
  }

  lemma InitialInv(c: Config)
    requires WellFormed(c)
    ensures Inv(c, Initial(c))
  {
    var s := Initial(c);
    WaitingWorkers(c.processors, 0);
    forall id: nat ensures Occurrences(s, id) == 0 {
      WaitingWorkers(c.processors, id);
    }
    assert c.jobs[0..0] + Pills(c, 0) == [];
  }

  /** The input queue after its head is taken. */
  lemma QueueHead(c: Config, t: nat, d: nat, k: nat)
    requires t <= d <= |c.jobs|
    ensures var q := c.jobs[t..d] + Pills(c, k);
      if t < d then q[0] == c.jobs[t] && q[1..] == c.jobs[t + 1..d] + Pills(c, k)
      else k > 0 ==> q[0] == Pill(c) && q[1..] == c.jobs[t..d] + Pills(c, k - 1)
  {
    var q := c.jobs[t..d] + Pills(c, k);
    if t < d {
      assert q[1..] == c.jobs[t..d][1..] + Pills(c, k) && c.jobs[t..d][1..] == c.jobs[t + 1..d];
    } else if k > 0 {
      assert c.jobs[t..d] == [] && q == Pills(c, k) && q[1..] == Pills(c, k - 1);
    }
  }

  /** What the head of the input queue is, and what its removal leaves. */
  lemma InputHead(c: Config, s: State)
    requires Inv(c, s) && s.inputQueue != []
    ensures var t, d, k := Taken(s), Dispatched(c, s), PillsSent(c, s) - PilledCount(s.workers);
      if t < d
      then s.inputQueue[0] == c.jobs[t] && s.inputQueue[1..] == c.jobs[t + 1..d] + Pills(c, k)
      else k > 0 && t == |c.jobs| && s.inputQueue[0] == Pill(c) && s.inputQueue[1..] == c.jobs[t..d] + Pills(c, k - 1)
  {
    QueueHead(c, Taken(s), Dispatched(c, s), PillsSent(c, s) - PilledCount(s.workers));
  }

  lemma GetConserved(c: Config, s: State, w: nat, s': State)
    requires Conserved(s) && WorkerEnabled(s, w) && s.workers[w].Waiting? && s' == WorkerNext(c, s, w)
    requires !s.inputQueue[0].isBreak ==> s.inputQueue[0].id == Taken(s)
    ensures Conserved(s')
  {
    CarriedTotalUpdate(s.workers, w, s'.workers[w]);
    forall id: nat ensures Occurrences(s', id) == if id < Taken(s') then 1 else 0 {
      CarriedCountUpdate(s.workers, w, s'.workers[w], id);
      assert Occurrences(s, id) == if id < Taken(s) then 1 else 0;
    }
  }

  lemma GetInput(c: Config, s: State, w: nat, s': State)
    requires Inv(c, s) && WorkerEnabled(s, w) && s.workers[w].Waiting? && s' == WorkerNext(c, s, w)
    ensures InputOk(c, s') && WorkerOk(c, s.threadExit, s'.workers[w])
    ensures !s.inputQueue[0].isBreak ==> s.inputQueue[0].id == Taken(s)
  {
    InputHead(c, s);
    CarriedTotalUpdate(s.workers, w, s'.workers[w]);
    PilledUpdate(s.workers, w, s'.workers[w]);
  }

  /** Replacing a worker that has not exited disturbs neither the joins nor the other jobs. */
  lemma ReplaceWorker(c: Config, s: State, w: nat, x: Worker, s': State)
    requires |s.workers| == c.processors && MainOk(c, s) && ContentOk(c, s)
    requires w < |s.workers| && !s.workers[w].Exited? && WorkerOk(c, s.threadExit, x)
    requires s' == s.(workers := s.workers[w := x], inputQueue := s'.inputQueue)
    ensures MainOk(c, s') && ContentOk(c, s')
  {
    forall i | 0 <= i < |s'.workers| ensures WorkerOk(c, s'.threadExit, s'.workers[i]) {
      assert i != w ==> WorkerOk(c, s.threadExit, s.workers[i]);
    }
  }

  /** Getting from the input queue: the head goes into the hands of worker w. */
  lemma GetKeepsInv(c: Config, s: State, w: nat)
    requires Inv(c, s) && WorkerEnabled(s, w) && s.workers[w].Waiting?
    ensures Inv(c, WorkerNext(c, s, w))
  {
    var s' := WorkerNext(c, s, w);
    GetInput(c, s, w, s');
    GetConserved(c, s, w, s');
    ReplaceWorker(c, s, w, s'.workers[w], s');
  }

  ghost predicate KeepsHold(held: Worker, x: Worker) {
    && Carries(x) == Carries(held) && (Carries(x) ==> x.job.id == held.job.id)
    && (Pilled(x) <==> Pilled(held))
  }

  lemma KeepConserved(s: State, w: nat, x: Worker)
    requires Conserved(s) && w < |s.workers| && KeepsHold(s.workers[w], x)
    ensures Conserved(s.(workers := s.workers[w := x]))
  {
    var s' := s.(workers := s.workers[w := x]);
    CarriedTotalUpdate(s.workers, w, x);
    forall id: nat ensures Occurrences(s', id) == if id < Taken(s') then 1 else 0 {
      CarriedCountUpdate(s.workers, w, x, id);
      assert Occurrences(s, id) == if id < Taken(s) then 1 else 0;
    }
  }

  lemma KeepInput(c: Config, s: State, w: nat, x: Worker)
    requires InputOk(c, s) && w < |s.workers| && KeepsHold(s.workers[w], x)
    ensures InputOk(c, s.(workers := s.workers[w := x]))
  {
    CarriedTotalUpdate(s.workers, w, x);
    PilledUpdate(s.workers, w, x);
  }

  /** A worker that keeps what it has in hand changes nothing else. */
  lemma KeepCarrying(c: Config, s: State, w: nat, x: Worker)
    requires Inv(c, s) && w < |s.workers| && !s.workers[w].Exited?
    requires KeepsHold(s.workers[w], x) && WorkerOk(c, s.threadExit, x)
    ensures Inv(c, s.(workers := s.workers[w := x]))
  {
    KeepConserved(s, w, x);
    KeepInput(c, s, w, x);
    ReplaceWorker(c, s, w, x, s.(workers := s.workers[w := x]));
  }

  lemma PutConserved(c: Config, s: State, w: nat)
    requires Conserved(s) && w < |s.workers| && s.workers[w].Putting?
    ensures Conserved(WorkerNext(c, s, w)) && Taken(WorkerNext(c, s, w)) == Taken(s)
  {
    var s' := WorkerNext(c, s, w);
    CarriedTotalUpdate(s.workers, w, Waiting);
    forall id: nat ensures Occurrences(s', id) == if id < Taken(s') then 1 else 0 {
      CarriedCountUpdate(s.workers, w, Waiting, id);
      CountAppend(s.outputQueue, s.workers[w].job, id);
      assert Occurrences(s, id) == if id < Taken(s) then 1 else 0;
    }
  }

  lemma PutContent(c: Config, s: State, w: nat)
    requires |s.workers| == c.processors && MainOk(c, s) && ContentOk(c, s)
    requires w < |s.workers| && s.workers[w].Putting?
    ensures MainOk(c, WorkerNext(c, s, w)) && ContentOk(c, WorkerNext(c, s, w))
  {
    var s' := WorkerNext(c, s, w);
    ReplaceWorker(c, s, w, Waiting, s.(workers := s'.workers));
    assert WorkerOk(c, s.threadExit, s.workers[w]);
  }

  lemma PutKeepsInv(c: Config, s: State, w: nat)
    requires Inv(c, s) && w < |s.workers| && s.workers[w].Putting?
    ensures Inv(c, WorkerNext(c, s, w))
  {
    PutConserved(c, s, w);
    PutContent(c, s, w);
    PilledUpdate(s.workers, w, Waiting);
  }

  lemma WorkerKeepsInv(c: Config, s: State, w: nat)
    requires Inv(c, s) && WorkerEnabled(s, w)
    ensures Inv(c, WorkerNext(c, s, w))
  {
    match s.workers[w]
    case Waiting => GetKeepsInv(c, s, w);
    case Holding(job) => KeepCarrying(c, s, w, WorkerNext(c, s, w).workers[w]);
    case Running(job) => KeepCarrying(c, s, w, WorkerNext(c, s, w).workers[w]);
    case Putting(job) => PutKeepsInv(c, s, w);
  }

  /** Before the pills the next job goes behind the others. */
  lemma QueueGrows(c: Config, t: nat, k: nat)
    requires t <= k < |c.jobs|
    ensures c.jobs[t..k] + Pills(c, 0) + [c.jobs[k]] == c.jobs[t..k + 1] + Pills(c, 0)
  {
    assert Pills(c, 0) == [] && c.jobs[t..k] + [c.jobs[k]] == c.jobs[t..k + 1];
  }

  lemma DispatchKeepsInv(c: Config, s: State)
    requires Inv(c, s) && s.main.Dispatching?
    ensures Inv(c, MainNext(c, s))
  {
    var k, s' := s.main.next, MainNext(c, s);
    assert forall id: nat :: Occurrences(s', id) == Occurrences(s, id);
    if k < |c.jobs| {
      assert PilledCount(s.workers) == 0;
      QueueGrows(c, Taken(s), k);
    }
  }

  lemma StopKeepsInv(c: Config, s: State)
    requires Inv(c, s) && s.main.Stopping?
    ensures Inv(c, MainNext(c, s))
  {
    var k, s' := s.main.next, MainNext(c, s);
    assert forall id: nat :: Occurrences(s', id) == Occurrences(s, id);
    if k < c.processors {
      var e := PilledCount(s.workers);
      assert Pills(c, k - e) + [Pill(c)] == Pills(c, k + 1 - e);
      assert s'.inputQueue == c.jobs[Taken(s)..|c.jobs|] + (Pills(c, k - e) + [Pill(c)]);
    }
  }

  lemma CollectKeepsInv(c: Config, s: State)
    requires Inv(c, s) && s.main.Collecting? && MainEnabled(c, s)
    ensures Inv(c, MainNext(c, s))
  {
    var k, s' := s.main.next, MainNext(c, s);
    if k < |c.jobs| {
      forall id: nat ensures Occurrences(s', id) == Occurrences(s, id) {
        CountAppend(s.collected, s.outputQueue[0], id);
      }
    } else {
      assert forall id: nat :: Occurrences(s', id) == Occurrences(s, id);
    }
  }

  lemma JoinKeepsInv(c: Config, s: State)
    requires Inv(c, s) && s.main.Joining? && MainEnabled(c, s)
    ensures Inv(c, MainNext(c, s))
  {
    assert forall id: nat :: Occurrences(MainNext(c, s), id) == Occurrences(s, id);
  }

  lemma MainKeepsInv(c: Config, s: State)
    requires Inv(c, s) && MainEnabled(c, s)
    ensures Inv(c, MainNext(c, s))
  {
    match s.main
    case Dispatching(_) => DispatchKeepsInv(c, s);
    case Stopping(_) => StopKeepsInv(c, s);
    case Collecting(_) => CollectKeepsInv(c, s);
    case Joining(_) => JoinKeepsInv(c, s);
  }

  lemma InterruptKeepsInv(c: Config, s: State)
    requires Inv(c, s)
    ensures Inv(c, s.(threadExit := true))
  {
    var s' := s.(threadExit := true);
    assert forall id: nat :: Occurrences(s', id) == Occurrences(s, id);
    forall w | 0 <= w < |s'.workers| ensures WorkerOk(c, true, s'.workers[w]) {
      assert WorkerOk(c, s.threadExit, s.workers[w]);
    }
  }

  lemma StepKeepsInv(c: Config, s: State, s': State)
    requires Inv(c, s) && Next(c, s, s')
    ensures Inv(c, s')
  {
    if w: nat :| WorkerEnabled(s, w) && s' == WorkerNext(c, s, w) {
      WorkerKeepsInv(c, s, w);
    } else if MainEnabled(c, s) && s' == MainNext(c, s) {
      MainKeepsInv(c, s);
    } else {
      InterruptKeepsInv(c, s);
    }
  }

  // ---------- no deadlock ----------

  ghost predicate CanStep(c: Config, s: State) {
    MainEnabled(c, s) || exists w: nat :: WorkerEnabled(s, w)
  }

  lemma CarrierExists(ws: seq<Worker>) returns (w: nat)
    requires CarriedTotal(ws) > 0
    ensures w < |ws| && Carries(ws[w])
  {
    CarriedTotalZero(ws);
    w :| w < |ws| && Carries(ws[w]);
  }

  /** While a result is missing, some worker can move. */
  lemma CollectorFed(c: Config, s: State)
    requires Inv(c, s) && s.main.Collecting? && |s.collected| < |c.jobs| && s.outputQueue == []
    ensures exists w: nat :: WorkerEnabled(s, w)
  {
    if Taken(s) == |c.jobs| {
      var w := CarrierExists(s.workers);
      assert WorkerEnabled(s, w);
    } else {
      PilledBound(s.workers);
      assert !Pilled(s.workers[0]) && s.inputQueue[0] == c.jobs[Taken(s)];
      assert WorkerEnabled(s, 0);
    }
  }

  /** While a worker has not exited, there is a pill for it or it is about to move. */
  lemma WorkerExits(c: Config, s: State, w: nat)
    requires Inv(c, s) && s.main.Joining? && w < c.processors && !s.workers[w].Exited?
    ensures WorkerEnabled(s, w)
  {
    if s.workers[w].Waiting? {
      PilledBound(s.workers);
      assert !Pilled(s.workers[w]);
      assert |Pills(c, PillsSent(c, s) - PilledCount(s.workers))| > 0;
    }
  }

  /** The run is over only when the main thread is done. */
  lemma Progress(c: Config, s: State)
    requires Inv(c, s) && s.main != Done
    ensures CanStep(c, s)
  {
    if s.main.Collecting? && s.main.next < |c.jobs| && s.outputQueue == [] {
      CollectorFed(c, s);
    } else if s.main.Joining? && s.main.next < |s.workers| && !s.workers[s.main.next].Exited? {
      WorkerExits(c, s, s.main.next);
    }
  }

  // ---------- every run is finite ----------

  ghost function QueueWork(q: seq<Job>): nat {
    if q == [] then 0 else (if q[0].isBreak then 2 else 4) + QueueWork(q[1..])
  }

  lemma {:induction false} QueueWorkAppend(q: seq<Job>, j: Job)
    ensures QueueWork(q + [j]) == QueueWork(q) + if j.isBreak then 2 else 4
  {
    if q != [] {
      assert (q + [j])[1..] == q[1..] + [j];
      QueueWorkAppend(q[1..], j);
    }
  }

  ghost function WorkerWork(w: Worker): nat {
    match w
    case Waiting => 0
    case Exited => 0
    case Holding(job) => if job.isBreak then 1 else 3
    case Running(_) => 2
    case Putting(_) => 1
  }

  ghost function WorkersWork(ws: seq<Worker>): nat {
    if ws == [] then 0 else WorkerWork(ws[0]) + WorkersWork(ws[1..])
  }

  lemma {:induction false} WorkersWorkUpdate(ws: seq<Worker>, w: nat, x: Worker)
    requires w < |ws|
    ensures WorkersWork(ws[w := x]) + WorkerWork(ws[w]) == WorkersWork(ws) + WorkerWork(x)
  {
    if w > 0 {
      WorkersWorkUpdate(ws[1..], w - 1, x);
      assert ws[w := x][1..] == ws[1..][w - 1 := x];
    } else {
      assert ws[w := x][1..] == ws[1..];
    }
  }

  /** What the main thread has left to do, counting the worker steps that each job and pill
      still to be queued will cause. */
  ghost function MainWork(c: Config, s: State): int {
    var n, p := |c.jobs|, c.processors;
    match s.main
    case Dispatching(k) => 5 * (n - k) + 3 * p + n + p + 4
    case Stopping(k) => 3 * (p - k) + n + p + 3
    case Collecting(k) => n - k + p + 2
    case Joining(k) => p - k + 1
    case Done => 0
  }

  /** An upper bound on the number of steps left. */
  ghost function Measure(c: Config, s: State): int {
    MainWork(c, s) + QueueWork(s.inputQueue) + WorkersWork(s.workers) + if s.threadExit then 0 else 1
  }

  lemma WorkerDecreases(c: Config, s: State, w: nat)
    requires WorkerEnabled(s, w)
    ensures Measure(c, WorkerNext(c, s, w)) < Measure(c, s)
  {
    WorkersWorkUpdate(s.workers, w, WorkerNext(c, s, w).workers[w]);
    match s.workers[w]
    case Waiting => QueueWorkHead(s.inputQueue);
    case Holding(_) =>
    case Running(_) =>
    case Putting(_) =>
  }

  lemma QueueWorkHead(q: seq<Job>)
    requires q != []
    ensures QueueWork(q) == (if q[0].isBreak then 2 else 4) + QueueWork(q[1..])
  {
  }

  lemma MainDecreases(c: Config, s: State)
    requires Inv(c, s) && MainEnabled(c, s)
    ensures Measure(c, MainNext(c, s)) < Measure(c, s)
  {
    if s.main.Dispatching? && s.main.next < |c.jobs| {
      QueueWorkAppend(s.inputQueue, c.jobs[s.main.next]);
    } else if s.main.Stopping? {
      QueueWorkAppend(s.inputQueue, Pill(c));
    }
  }

  lemma StepDecreases(c: Config, s: State, s': State)
    requires Inv(c, s) && Next(c, s, s')
    ensures Measure(c, s') < Measure(c, s)
  {
    if w: nat :| WorkerEnabled(s, w) && s' == WorkerNext(c, s, w) {
      WorkerDecreases(c, s, w);
    } else if MainEnabled(c, s) && s' == MainNext(c, s) {
      MainDecreases(c, s);
    }
  }

  lemma {:induction false} IdleWorkers(n: nat)
    ensures WorkersWork(seq(n, _ => Waiting)) == 0
  {
    if n > 0 {
      assert seq(n, _ => Waiting)[1..] == seq(n - 1, _ => Waiting);
      IdleWorkers(n - 1);
    }
  }

  lemma {:induction false} RunInvariant(c: Config, run: seq<State>, i: nat)
    requires WellFormed(c) && IsRun(c, run) && i < |run|
    ensures Inv(c, run[i]) && Measure(c, run[i]) + i <= 6 * |c.jobs| + 4 * c.processors + 5
  {
    if i == 0 {
      InitialInv(c);
      IdleWorkers(c.processors);
    } else {
      RunInvariant(c, run, i - 1);
      assert Next(c, run[i - 1], run[i]);
      StepKeepsInv(c, run[i - 1], run[i]);
      StepDecreases(c, run[i - 1], run[i]);
    }
  }

  // ---------- the outcome ----------

  /** What a finished run leaves: nothing queued, every worker gone, every job collected
      exactly once and as it was dispatched, up to the flags that running it may set. */
  ghost predicate Finished(c: Config, s: State) {
    && s.main == Done && s.inputQueue == [] && s.outputQueue == []
    && |s.collected| == |c.jobs|
    && ExitedUpto(s.workers, c.processors)
    && (forall id: nat :: Count(s.collected, id) == if id < |c.jobs| then 1 else 0)
    && (forall i :: 0 <= i < |s.collected| ==> Returned(c, s.threadExit, s.collected[i]))
  }

  lemma {:induction false} NothingCarried(ws: seq<Worker>, id: nat)
    requires forall i :: 0 <= i < |ws| ==> ws[i].Exited?
    ensures CarriedTotal(ws) == 0 == CarriedCount(ws, id) && PilledCount(ws) == |ws|
  {
    if ws != [] {
      NothingCarried(ws[1..], id);
    }
  }

  lemma DoneFinished(c: Config, s: State)
    requires Inv(c, s) && s.main == Done && |s.workers| == c.processors
    ensures Finished(c, s)
  {
    NothingCarried(s.workers, 0);
    forall id: nat ensures Count(s.collected, id) == if id < |c.jobs| then 1 else 0 {
      NothingCarried(s.workers, id);
      assert Occurrences(s, id) == if id < Taken(s) then 1 else 0;
    }
  }

  /** For any interleaving and any moment of interrupt: every run is finite, a run that can
      go no further has finished, and a finished run has lost and duplicated nothing. */
  lemma EveryRunFinishes(c: Config, run: seq<State>)
    requires WellFormed(c) && IsRun(c, run)
    ensures |run| <= 6 * |c.jobs| + 4 * c.processors + 6
    ensures var last := run[|run| - 1];
      (CanStep(c, last) <==> last.main != Done) && (last.main == Done ==> Finished(c, last))
  {
    var last := run[|run| - 1];
    RunInvariant(c, run, |run| - 1);
    if last.main == Done {
      DoneFinished(c, last);
      forall w: nat ensures !WorkerEnabled(last, w) {}
    } else {
      Progress(c, last);
    }
  }

  // ---------- pills ----------

  /** Worker w takes the special job from the queue. */
  ghost predicate TakesPill(c: Config, s: State, s': State, w: nat) {
    && w < |s.workers| == |s'.workers|
    && s.workers[w] == Waiting && s'.workers[w] == Holding(Pill(c))
  }

  /** How often worker w takes a pill in a run. */
  ghost function PillsTaken(c: Config, run: seq<State>, w: nat): nat {
    if |run| < 2 then 0 else
      var n := |run| - 1;
      PillsTaken(c, run[..n], w) + if TakesPill(c, run[n - 1], run[n], w) then 1 else 0
  }

  /** A worker that gets or holds a job with the break flag gets or holds the special job. */
  lemma WorkerTakesPill(c: Config, s: State, v: nat, w: nat)
    requires WorkerEnabled(s, v) && w < |s.workers|
    requires s.workers[v].Waiting? ==> s.inputQueue[0].isBreak ==> s.inputQueue[0] == Pill(c)
    ensures var s' := WorkerNext(c, s, v);
      (if Pilled(s'.workers[w]) then 1 else 0)
        == (if Pilled(s.workers[w]) then 1 else 0) + if TakesPill(c, s, s', w) then 1 else 0
  {
  }

  /** A step makes a worker one that has its pill exactly by taking one, and never undoes that. */
  lemma StepTakesPill(c: Config, s: State, s': State, w: nat)
    requires Inv(c, s) && Next(c, s, s') && w < c.processors
    ensures |s'.workers| == c.processors
    ensures (if Pilled(s'.workers[w]) then 1 else 0)
         == (if Pilled(s.workers[w]) then 1 else 0) + if TakesPill(c, s, s', w) then 1 else 0
  {
    if v: nat :| WorkerEnabled(s, v) && s' == WorkerNext(c, s, v) {
      if s.workers[v].Waiting? {
        InputHead(c, s);
      }
      WorkerTakesPill(c, s, v, w);
    }
  }

  lemma {:induction false} PillsSoFar(c: Config, run: seq<State>, w: nat)
    requires WellFormed(c) && IsRun(c, run) && w < c.processors
    ensures |run[|run| - 1].workers| == c.processors
    ensures PillsTaken(c, run, w) == if Pilled(run[|run| - 1].workers[w]) then 1 else 0
    decreases |run|
  {
    var n := |run| - 1;
    if n > 0 {
      var front := run[..n];
      PillsSoFar(c, front, w);
      RunInvariant(c, run, n - 1);
      assert Next(c, run[n - 1], run[n]);
      StepTakesPill(c, run[n - 1], run[n], w);
    }
  }

  /** In a run that has come to its end every worker has taken exactly one pill. */
  lemma OnePillEach(c: Config, run: seq<State>, w: nat)
    requires WellFormed(c) && IsRun(c, run) && run[|run| - 1].main == Done && w < c.processors
    ensures PillsTaken(c, run, w) == 1
  {
    PillsSoFar(c, run, w);
    RunInvariant(c, run, |run| - 1);
  }
}
