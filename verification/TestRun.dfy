/** The object that test.py's main thread, worker threads and interrupt handler act on: each
    method is one atomic action, in place, and Run lets them interleave in any way. */
module TestRun {
  import opened Verdicts
  import opened WorkerPool

  class TestRun {
    const config: Config
    var inputQueue: seq<Job>
    var outputQueue: seq<Job>
    var workers: seq<Worker>
    var main: Main
    var threadExit: bool
    var totalTests: nat
    var passedTests: nat
    var skippedTests: nat
    var failedTests: nat
    var crashedTests: nat
    var valgrindErrors: nat
    // The jobs the collector has seen.
    ghost var collected: seq<Job>

    ghost function View(): State
      reads this
    {
      State(inputQueue, outputQueue, workers, main, threadExit, collected)
    }

    /** The tallies are those of the given jobs. */
    ghost predicate Tallied(jobs: seq<Job>)
      reads this`passedTests, this`skippedTests, this`failedTests, this`crashedTests, this`valgrindErrors
    {
      && passedTests == StatusCount(jobs, PASS)
      && skippedTests == StatusCount(jobs, SKIP)
      && failedTests == StatusCount(jobs, FAIL)
      && crashedTests == StatusCount(jobs, CRASH)
      && valgrindErrors == StatusCount(jobs, VALGR)
    }

    ghost predicate Valid()
      reads this
    {
      && Inv(config, View())
      && totalTests == (if main.Dispatching? then main.next else |config.jobs|)
      && Tallied(collected)
    }

    constructor (config: Config)
      requires WellFormed(config)
      ensures this.config == config && View() == Initial(config) && Valid()
    {
      this.config := config;
      inputQueue, outputQueue, workers := [], [], seq(config.processors, _ => Waiting);
      main, threadExit := Dispatching(0), false;
      totalTests, passedTests, skippedTests, failedTests, crashedTests, valgrindErrors := 0, 0, 0, 0, 0, 0;
      collected := [];
      new;
      InitialInv(config);
    }

    predicate CanTurn(w: nat)
      reads this
    {
      w < |workers| && Ready(workers[w], inputQueue)
    }

    method SigintHook()
      requires Valid()
      modifies this`threadExit
      ensures Valid() && View() == old(View()).(threadExit := true)
    {
      InterruptKeepsInv(config, View());
      threadExit := true;
    }

    /** Looks at the flags of the job that worker w has got. */
    method Examine(w: nat)
      requires w < |workers| && workers[w].Holding?
      modifies this`workers
      ensures View() == WorkerNext(config, old(View()), w)
    {
      var job := workers[w].job;
      if job.isBreak {
        workers := workers[w := Exited];
      } else if threadExit {
        workers := workers[w := Putting(job.(isBreak := true))];
      } else if job.isSkip {
        workers := workers[w := Putting(job)];
      } else {
        workers := workers[w := Running(job)];
      }
    }

    /** Runs the job's test program to its end. */
    method RunJobSynchronously(job: Job) returns (code: int)
      ensures code == Code(config, job)
    {
      code := Code(config, job);
    }

    /** What worker w does next, without the invariant. */
    method Act(w: nat)
      requires CanTurn(w)
      modifies this`inputQueue, this`outputQueue, this`workers
      ensures View() == WorkerNext(config, old(View()), w)
    {
      match workers[w] {
        case Waiting =>
          workers := workers[w := Holding(inputQueue[0])];
          inputQueue := inputQueue[1..];
        case Holding(_) =>
          Examine(w);
        case Running(job) =>
          var code := RunJobSynchronously(job);
          workers := workers[w := Putting(job.(returncode := code))];
        case Putting(job) =>
          outputQueue := outputQueue + [job];
          workers := workers[w := Waiting];
      }
    }

    /** One action of worker w. */
    method WorkerTurn(w: nat)
      requires Valid() && CanTurn(w)
      modifies this`inputQueue, this`outputQueue, this`workers
      ensures Valid() && WorkerEnabled(old(View()), w) && View() == WorkerNext(config, old(View()), w)
    {
      WorkerKeepsInv(config, View(), w);
      Act(w);
    }

    predicate MainCanTurn()
      reads this
    {
      MainReady(main, |config.jobs|, outputQueue, workers)
    }

    /** Adds one returned job to the tallies. */
    method Tally(job: Job, ghost seen: seq<Job>)
      requires Tallied(seen)
      modifies this`passedTests, this`skippedTests, this`failedTests, this`crashedTests, this`valgrindErrors
      ensures Tallied(seen + [job])
    {
      assert (seen + [job])[..|seen|] == seen;
      if job.isBreak {
        return;
      }
      if job.isSkip {
        skippedTests := skippedTests + 1;
      } else if job.returncode == 0 {
        passedTests := passedTests + 1;
      } else if job.returncode == 1 {
        failedTests := failedTests + 1;
      } else if job.returncode == 2 {
        valgrindErrors := valgrindErrors + 1;
      } else {
        crashedTests := crashedTests + 1;
      }
    }

    method Dispatch()
      requires Valid() && main.Dispatching?
      modifies this`inputQueue, this`totalTests, this`main
      ensures Valid() && View() == MainNext(config, old(View()))
    {
      MainKeepsInv(config, View());
      if main.next < |config.jobs| {
        inputQueue := inputQueue + [config.jobs[main.next]];
        totalTests := totalTests + 1;
        main := Dispatching(main.next + 1);
      } else {
        main := Stopping(0);
      }
    }

    method Stop()
      requires Valid() && main.Stopping?
      modifies this`inputQueue, this`main
      ensures Valid() && View() == MainNext(config, old(View()))
    {
      MainKeepsInv(config, View());
      if main.next < config.processors {
        inputQueue := inputQueue + [Pill(config)];
        main := Stopping(main.next + 1);
      } else {
        main := Collecting(0);
      }
    }

    method CollectOne()
      requires Valid() && main.Collecting? && main.next < |config.jobs| && outputQueue != []
      modifies this
      ensures Valid() && View() == MainNext(config, old(View()))
    {
      ghost var after := MainNext(config, View());
      CollectKeepsInv(config, View());
      var job := outputQueue[0];
      Tally(job, collected);
      outputQueue := outputQueue[1..];
      collected := collected + [job];
      main := Collecting(main.next + 1);
      assert View() == after;
    }

    method Collect()
      requires Valid() && main.Collecting? && MainCanTurn()
      modifies this
      ensures Valid() && View() == MainNext(config, old(View()))
    {
      if main.next < |config.jobs| {
        CollectOne();
      } else {
        CollectKeepsInv(config, View());
        main := Joining(0);
      }
    }

    method Join()
      requires Valid() && main.Joining? && MainCanTurn()
      modifies this`main
      ensures Valid() && View() == MainNext(config, old(View()))
    {
      MainKeepsInv(config, View());
      main := if main.next < |workers| then Joining(main.next + 1) else Done;
    }

    /** One action of the main thread. */
    method MainTurn()
      requires Valid() && MainCanTurn()
      modifies this
      ensures Valid() && MainEnabled(config, old(View())) && View() == MainNext(config, old(View()))
    {
      match main {
        case Dispatching(_) => Dispatch();
        case Stopping(_) => Stop();
        case Collecting(_) => Collect();
        case Joining(_) => Join();
      }
    }

    /** Main thread, workers and interrupts interleave in any order until the main thread is
        done.  That some alternative is always open is the absence of deadlock. */
    method Run() returns (exitCode: int)
      requires Valid()
      modifies this
      ensures Valid() && Finished(config, View()) && totalTests == |config.jobs|
      ensures Tells(Broken(collected))
      ensures Broken(collected) != {} ==> threadExit
      ensures exitCode == 0 || exitCode == 1
      ensures exitCode == 0 <==> (
        && Broken(collected) == {}
        && forall i :: 0 <= i < |config.jobs| ==> config.jobs[i].isSkip || config.results[i] == 0)
    {
      while main != Done
        invariant Valid()
        decreases Measure(config, View())
      {
        Open();
        if {
          case w: nat :| w < |workers| && CanTurn(w) =>
            WorkerDecreases(config, View(), w);
            WorkerTurn(w);
          case MainCanTurn() =>
            MainDecreases(config, View());
            MainTurn();
          case !threadExit =>
            SigintHook();
        }
      }
      DoneFinished(config, View());
      VerdictsTold();
      exitCode := if passedTests + skippedTests == totalTests then 0 else 1;
    }

    /** The tallies, by the jobs as they were dispatched and what their test programs returned; broken
        ones are in none of them. */
    ghost predicate Tells(broken: set<nat>)
      requires |config.results| == |config.jobs|
      reads this`passedTests, this`skippedTests, this`failedTests, this`crashedTests, this`valgrindErrors
    {
      && skippedTests == |SkippedOf(config, broken)|
      && passedTests == |RanWith(config, broken, code => code == 0)|
      && failedTests == |RanWith(config, broken, code => code == 1)|
      && valgrindErrors == |RanWith(config, broken, code => code == 2)|
      && crashedTests == |RanWith(config, broken, code => code < 0 || code > 2)|
    }

    lemma VerdictsTold()
      requires Valid() && Finished(config, View())
      ensures Tells(Broken(collected)) && (Broken(collected) != {} ==> threadExit)
      ensures passedTests + skippedTests == |config.jobs| <==> Success(config, Broken(collected))
    {
      forall id: nat ensures Count(collected, id) <= 1 {
        assert Count(View().collected, id) == if id < |config.jobs| then 1 else 0;
      }
      forall status ensures StatusCount(collected, status) == |StatusIds(collected, status)| {
        CountIsSize(collected, status);
      }
      StatusIdsExact(config, View());
      SuccessExact(config, View());
      if !threadExit {
        BrokenByInterrupt(config, View());
      }
    }

    lemma Open()
      requires Valid() && main != Done
      ensures MainCanTurn() || exists w: nat :: w < |workers| && CanTurn(w)
      ensures Measure(config, View()) >= 0
    {
      Progress(config, View());
      if w: nat :| WorkerEnabled(View(), w) {
        assert CanTurn(w);
      }
    }
  }
}
