/** What waf-tools/shellcmd.py starts, how it wires it and when it stops, read off the nodes of a
    pipeline. */
module ShellWiring {
  import opened Options
  import opened ShellScript
  import opened ShellSyntax

  // ---------- places in a pipeline ----------

  /** How many of the first i nodes are commands. */
  ghost function CommandsBefore(ns: seq<Node>, i: nat): nat
    requires i <= |ns|
  {
    if i == 0 then 0 else CommandsBefore(ns, i - 1) + if ns[i - 1].Command? then 1 else 0
  }

  /** Node i is command number k. */
  ghost predicate IsCommand(ns: seq<Node>, i: nat, k: nat) {
    i < |ns| && ns[i].Command? && CommandsBefore(ns, i) == k
  }

  /** A pipe stands before node i, or before the cds in front of it. */
  ghost predicate PipedInto(ns: seq<Node>, i: nat)
    requires i <= |ns|
  {
    i >= 2 && (ns[i - 1].Pipe? || (ns[i - 2].Chdir? && PipedInto(ns, i - 2)))
  }

  /** The directories of the cds before node i. */
  ghost function DirsBefore(ns: seq<Node>, i: nat): seq<string>
    requires i <= |ns|
  {
    if i == 0 then [] else
      DirsBefore(ns, i - 1) + if ns[i - 1].Chdir? && ns[i - 1].dir.Some? then [ns[i - 1].dir.value] else []
  }

  /** Where cds lead from ".": an absolute directory starts afresh, another one goes below the one
      before it, with a slash between them unless that one ends in a slash. */
  ghost function Directory(cds: seq<string>): string {
    if cds == [] then "." else
      var dir, parent := cds[|cds| - 1], Directory(cds[..|cds| - 1]);
      if "/" <= dir then dir
      else if parent != "" && parent[|parent| - 1] != '/' then parent + "/" + dir
      else parent + dir
  }

  // ---------- what a run is to be ----------

  /** Node i, command number k, is started so. */
  ghost predicate StartedAs(ns: seq<Node>, i: nat, k: nat, l: Launch)
    requires IsCommand(ns, i, k)
  {
    var c, cds := ns[i].cmd, DirsBefore(ns, i);
    && l.argv == c.argv && l.stdout == c.stdout && l.stderr == c.stderr && l.env == c.env
    && (if PipedInto(ns, i) then k > 0 && l.stdin == FromProcess(k - 1)
        else l.stdin == if c.stdin.Some? then FromFile(c.stdin.value) else Inherit)
    && (if cds == [] then l.cwd == None else l.cwd == Some(Directory(cds)))
  }

  /** No cd before node i lacks its directory. */
  ghost predicate CdsComplete(ns: seq<Node>, i: nat)
    requires i <= |ns|
  {
    forall j :: 0 <= j < i && ns[j].Chdir? ==> ns[j].dir.Some?
  }

  ghost predicate AllStarted(ns: seq<Node>, log: seq<Launch>) {
    forall i: nat, k: nat :: IsCommand(ns, i, k) && k < |log| ==> StartedAs(ns, i, k, log[k]) && CdsComplete(ns, i)
  }

  /** The operator behind a command lets the run go on. */
  ghost predicate LetsOn(op: Node, code: int) {
    (op.And? ==> code == 0) && (op.Or? ==> code != 0)
  }

  /** After the first n commands the run went on: each returned 0 before && and something else
      before ||. */
  ghost predicate WentOn(ns: seq<Node>, log: seq<Launch>, codes: ExitCodes, n: nat)
    requires n <= |log|
  {
    forall i: nat, k: nat :: IsCommand(ns, i, k) && k < n ==>
      i + 1 < |ns| && LetsOn(ns[i + 1], codes(log[..k + 1], k))
  }

  /** The run stops behind node i, the last command started, and returns its code. */
  ghost predicate StopsAfter(ns: seq<Node>, i: nat, log: seq<Launch>, codes: ExitCodes, code: int) {
    && log != [] && IsCommand(ns, i, |log| - 1) && code == codes(log, |log| - 1)
    && (i == |ns| - 1 || (ns[i + 1].And? && code != 0) || (ns[i + 1].Or? && code == 0))
  }

  /** The run comes to a cd, node j, that has no directory or nothing after it. */
  ghost predicate BadCd(ns: seq<Node>, j: nat, log: seq<Launch>) {
    && j < |ns| && ns[j].Chdir? && (j == |ns| - 1 || ns[j].dir.None?)
    && CommandsBefore(ns, j) == |log| && CdsComplete(ns, j)
  }

  ghost predicate Described(ns: seq<Node>, codes: ExitCodes, r: Outcome) {
    match r
    case Nothing => false
    case Returned(code, log) =>
      && AllStarted(ns, log)
      && (exists i: nat :: StopsAfter(ns, i, log, codes, code))
      && WentOn(ns, log, codes, |log| - 1)
    case Raised(log) =>
      && AllStarted(ns, log) && (exists j: nat :: BadCd(ns, j, log)) && WentOn(ns, log, codes, |log|)
  }

  // ---------- the run is that ----------

  lemma {:induction false} CommandsGrow(ns: seq<Node>, i: nat, j: nat)
    requires i <= j <= |ns|
    ensures CommandsBefore(ns, i) <= CommandsBefore(ns, j)
    ensures i < j && ns[i].Command? ==> CommandsBefore(ns, i) < CommandsBefore(ns, j)
    decreases j
  {
    if i < j {
      CommandsGrow(ns, i, j - 1);
    }
  }

  /** A command has one number. */
  lemma SameCommand(ns: seq<Node>, i: nat, j: nat, k: nat)
    requires IsCommand(ns, i, k) && IsCommand(ns, j, k)
    ensures i == j
  {
    if i < j {
      CommandsGrow(ns, i, j);
    } else if j < i {
      CommandsGrow(ns, j, i);
    }
  }

  lemma {:induction false} CdsLeadAway(cds: seq<string>)
    ensures Directory(cds) != "" && (cds != [] ==> '/' in Directory(cds) && Directory(cds) != ".")
  {
    if cds != [] {
      var dir, parent := cds[|cds| - 1], Directory(cds[..|cds| - 1]);
      CdsLeadAway(cds[..|cds| - 1]);
      if "/" <= dir {
        assert dir[0] == '/';
      } else if parent[|parent| - 1] == '/' {
        assert (parent + dir)[|parent| - 1] == '/';
      } else {
        assert (parent + "/" + dir)[|parent|] == '/';
      }
    }
  }

  /** The run has come to node i. */
  ghost predicate At(ns: seq<Node>, i: nat, p: Place, codes: ExitCodes) {
    && i <= |ns| && |p.log| == CommandsBefore(ns, i)
    && p.cwd == Directory(DirsBefore(ns, i))
    && p.feed == (if PipedInto(ns, i) then Some(|p.log| - 1) else None)
    && (PipedInto(ns, i) ==> |p.log| > 0)
    && AllStarted(ns, p.log) && WentOn(ns, p.log, codes, |p.log|) && CdsComplete(ns, i)
  }

  /** One command more is started. */
  lemma StartOne(ns: seq<Node>, i: nat, p: Place, codes: ExitCodes)
    requires At(ns, i, p, codes) && i < |ns| && ns[i].Command?
    ensures var log := p.log + [LaunchOf(ns[i].cmd, p.cwd, p.feed)];
      AllStarted(ns, log) && WentOn(ns, log, codes, |log| - 1)
  {
    var k := |p.log|;
    var log := p.log + [LaunchOf(ns[i].cmd, p.cwd, p.feed)];
    CdsLeadAway(DirsBefore(ns, i));
    assert StartedAs(ns, i, k, log[k]);
    forall j: nat, m: nat | IsCommand(ns, j, m) && m < |log| ensures StartedAs(ns, j, m, log[m]) && CdsComplete(ns, j) {
      if m == k {
        SameCommand(ns, i, j, k);
      }
    }
    forall j: nat, m: nat | IsCommand(ns, j, m) && m < k ensures log[..m + 1] == p.log[..m + 1] {}
  }

  lemma PassedCommand(ns: seq<Node>, i: nat)
    requires i + 2 < |ns| && ns[i].Command? && IsOp(ns[i + 1])
    ensures CommandsBefore(ns, i + 2) == CommandsBefore(ns, i) + 1
    ensures PipedInto(ns, i + 2) <==> ns[i + 1].Pipe?
    ensures DirsBefore(ns, i + 2) == DirsBefore(ns, i)
    ensures CdsComplete(ns, i) ==> CdsComplete(ns, i + 2)
  {
    assert CommandsBefore(ns, i + 1) == CommandsBefore(ns, i) + 1;
    assert DirsBefore(ns, i + 2) == DirsBefore(ns, i + 1);
  }

  lemma WentOnOne(ns: seq<Node>, i: nat, log: seq<Launch>, codes: ExitCodes)
    requires log != [] && IsCommand(ns, i, |log| - 1) && WentOn(ns, log, codes, |log| - 1)
    requires i + 1 < |ns| && LetsOn(ns[i + 1], codes(log, |log| - 1))
    ensures WentOn(ns, log, codes, |log|)
  {
    forall j: nat, m: nat | IsCommand(ns, j, m) && m < |log|
      ensures j + 1 < |ns| && LetsOn(ns[j + 1], codes(log[..m + 1], m))
    {
      if m == |log| - 1 {
        SameCommand(ns, i, j, m);
        assert log[..m + 1] == log;
      }
    }
  }

  /** The run goes on behind a command. */
  lemma GoOn(ns: seq<Node>, i: nat, p: Place, codes: ExitCodes)
    requires At(ns, i, p, codes) && Alternating(ns[i..]) && ns[i].Command? && i + 2 < |ns|
    requires var next := Launched(p, Item([], ns[i].cmd)); LetsOn(ns[i + 1], codes(next.log, |p.log|))
    ensures var next := Launched(p, Item([], ns[i].cmd));
      At(ns, i + 2, if ns[i + 1].Pipe? then next else next.(feed := None), codes)
  {
    StartOne(ns, i, p, codes);
    assert PairOk(ns[i..][0], ns[i..][1]);
    PassedCommand(ns, i);
    WentOnOne(ns, i, Launched(p, Item([], ns[i].cmd)).log, codes);
  }

  /** One directory more. */
  lemma JoinOne(cds: seq<string>, dir: string)
    ensures Directory(cds + [dir]) == Join(Directory(cds), dir)
  {
    assert (cds + [dir])[..|cds|] == cds;
  }

  lemma PassedCd(ns: seq<Node>, i: nat)
    requires i + 2 < |ns| && ns[i].Chdir? && ns[i].dir.Some? && ns[i + 1].And?
    ensures CommandsBefore(ns, i + 2) == CommandsBefore(ns, i) && (PipedInto(ns, i + 2) <==> PipedInto(ns, i))
    ensures DirsBefore(ns, i + 2) == DirsBefore(ns, i) + [ns[i].dir.value]
    ensures CdsComplete(ns, i) ==> CdsComplete(ns, i + 2)
  {
    assert CommandsBefore(ns, i + 1) == CommandsBefore(ns, i);
    assert DirsBefore(ns, i + 2) == DirsBefore(ns, i + 1);
  }

  lemma PassCd(ns: seq<Node>, i: nat, p: Place, codes: ExitCodes)
    requires At(ns, i, p, codes) && Alternating(ns[i..]) && ns[i].Chdir? && ns[i].dir.Some? && i + 2 < |ns|
    ensures At(ns, i + 2, p.(cwd := Join(p.cwd, ns[i].dir.value)), codes)
  {
    assert PairOk(ns[i..][0], ns[i..][1]);
    PassedCd(ns, i);
    JoinOne(DirsBefore(ns, i), ns[i].dir.value);
  }

  lemma {:induction false} EvalFrom(ns: seq<Node>, i: nat, p: Place, codes: ExitCodes)
    requires i < |ns| && Alternating(ns[i..]) && At(ns, i, p, codes)
    ensures Described(ns, codes, Eval(ScriptOf(ns[i..]), p, codes))
    decreases |ns| - i
  {
    var rest := ns[i..];
    assert |rest| > 2 ==> rest[2..] == ns[i + 2..];
    if ns[i].Chdir? {
      EvalChdir(rest, p, codes);
      if |rest| == 1 || ns[i].dir.None? {
        assert BadCd(ns, i, p.log);
      } else {
        PassCd(ns, i, p, codes);
        EvalFrom(ns, i + 2, p.(cwd := Join(p.cwd, ns[i].dir.value)), codes);
      }
    } else {
      EvalCommand(rest, p, codes);
      var next := Launched(p, Item([], ns[i].cmd));
      var code := codes(next.log, |p.log|);
      StartOne(ns, i, p, codes);
      if |rest| == 1 || (!ns[i + 1].Pipe? && ns[i + 1].And? != (code == 0)) {
        assert StopsAfter(ns, i, next.log, codes, code);
      } else {
        var after := if ns[i + 1].Pipe? then next else next.(feed := None);
        GoOn(ns, i, p, codes);
        EvalFrom(ns, i + 2, after, codes);
      }
    }
  }

  lemma RunDescribed(ns: seq<Node>, codes: ExitCodes)
    requires Alternating(ns)
    ensures Described(ns, codes, Eval(ScriptOf(ns), Place(".", [], None), codes))
  {
    assert ns[0..] == ns;
    EvalFrom(ns, 0, Place(".", [], None), codes);
  }

  // ---------- and nothing else is ----------

  lemma {:induction false} CommandAt(ns: seq<Node>, n: nat, k: nat) returns (i: nat)
    requires n <= |ns| && k < CommandsBefore(ns, n)
    ensures i < n && IsCommand(ns, i, k)
  {
    if k < CommandsBefore(ns, n - 1) {
      i := CommandAt(ns, n - 1, k);
    } else {
      i := n - 1;
    }
  }

  lemma LogsReach(ns: seq<Node>, codes: ExitCodes, r: Outcome)
    requires Described(ns, codes, r)
    ensures |r.log| <= CommandsBefore(ns, |ns|)
  {
    if r.Returned? {
      var i: nat :| StopsAfter(ns, i, r.log, codes, r.code);
      CommandsGrow(ns, i, |ns|);
    } else {
      var j: nat :| BadCd(ns, j, r.log);
      CommandsGrow(ns, j, |ns|);
    }
  }

  /** Two logs of one pipeline agree as far as both go. */
  lemma LogsAgree(ns: seq<Node>, l: seq<Launch>, m: seq<Launch>)
    requires AllStarted(ns, l) && AllStarted(ns, m) && |l| <= |m| <= CommandsBefore(ns, |ns|)
    ensures l == m[..|l|]
  {
    forall k | 0 <= k < |l| ensures l[k] == m[k] {
      var i := CommandAt(ns, |ns|, k);
      assert StartedAs(ns, i, k, l[k]) && StartedAs(ns, i, k, m[k]);
    }
  }

  /** Where a run returns, no run of the pipeline goes on. */
  lemma ReturnIsLast(ns: seq<Node>, i: nat, stop: seq<Launch>, codes: ExitCodes, code: int, log: seq<Launch>, n: nat)
    requires StopsAfter(ns, i, stop, codes, code) && n <= |log| && WentOn(ns, log, codes, n)
    requires |stop| <= |log| && stop == log[..|stop|]
    ensures n < |stop|
  {
  }

  /** Past the cd where a run raises, no run of the pipeline starts anything. */
  lemma RaiseIsLast(ns: seq<Node>, j: nat, stop: seq<Launch>, log: seq<Launch>)
    requires BadCd(ns, j, stop) && AllStarted(ns, log) && |stop| <= |log| <= CommandsBefore(ns, |ns|)
    ensures |log| == |stop|
  {
    if |stop| < |log| {
      var i := CommandAt(ns, |ns|, |stop|);
      if i < j {
        CommandsGrow(ns, i, j);
      }
    }
  }

  lemma OrderedOutcomes(ns: seq<Node>, codes: ExitCodes, r: Outcome, s: Outcome)
    requires Described(ns, codes, r) && Described(ns, codes, s) && |r.log| <= |s.log|
    ensures r == s
  {
    LogsReach(ns, codes, s);
    LogsAgree(ns, r.log, s.log);
    assert s.log[..|s.log|] == s.log && r.log[..|r.log|] == r.log;
    if r.Returned? {
      var i: nat :| StopsAfter(ns, i, r.log, codes, r.code);
      ReturnIsLast(ns, i, r.log, codes, r.code, s.log, if s.Returned? then |s.log| - 1 else |s.log|);
    } else {
      var j: nat :| BadCd(ns, j, r.log);
      RaiseIsLast(ns, j, r.log, s.log);
      if s.Returned? {
        var i: nat :| StopsAfter(ns, i, s.log, codes, s.code);
        ReturnIsLast(ns, i, s.log, codes, s.code, r.log, |r.log|);
      }
    }
  }

  /** The description fits one outcome only. */
  lemma DescribedOnce(ns: seq<Node>, codes: ExitCodes, r: Outcome, s: Outcome)
    requires Described(ns, codes, r) && Described(ns, codes, s)
    ensures r == s
  {
    if |r.log| <= |s.log| {
      OrderedOutcomes(ns, codes, r, s);
    } else {
      OrderedOutcomes(ns, codes, s, r);
    }
  }
}
