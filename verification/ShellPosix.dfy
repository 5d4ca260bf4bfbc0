/** When the evaluator of waf-tools/shellcmd.py, in which && and || nest to the right, agrees with
    one in which they nest to the left, as section 2.9.3 of the POSIX Shell Command Language has
    them. */
module ShellPosix {
  import opened Options
  import opened ShellScript
  import opened ShellSyntax

  /** Whether an operator goes on after a status. */
  predicate GoesOn(op: Node, code: int) {
    op.And? == (code == 0)
  }

  /** The run with operators nesting to the left: one that does not go on skips what it joins, and
      the status so far meets the operator after that. */
  ghost function LeftRun(ns: seq<Node>, p: Place, codes: ExitCodes): Outcome
    requires Alternating(ns)
    decreases |ns|
  {
    match ns[0]
    case Chdir(dir) =>
      if |ns| == 1 || dir.None? then Raised(p.log)
      else LeftRun(ns[2..], p.(cwd := Join(p.cwd, dir.value)), codes)
    case Command(c) =>
      var next := Launched(p, Item([], c));
      var code := codes(next.log, |p.log|);
      if |ns| == 1 then Returned(code, next.log)
      else if ns[1].Pipe? then LeftRun(ns[2..], next, codes)
      else if GoesOn(ns[1], code) then LeftRun(ns[2..], next.(feed := None), codes)
      else Skipped(ns[2..], next.(feed := None), code, codes)
  }

  /** The run from a command that is not to be started; a cd that is skipped changes nothing. */
  ghost function Skipped(ns: seq<Node>, p: Place, code: int, codes: ExitCodes): Outcome
    requires Alternating(ns)
    decreases |ns|
  {
    if |ns| == 1 then Returned(code, p.log)
    else if !ns[1].Pipe? && GoesOn(ns[1], code) then LeftRun(ns[2..], p, codes)
    else Skipped(ns[2..], p, code, codes)
  }

  /** An operator of the other kind stands later; the && after a cd counts. */
  ghost predicate OtherKind(ns: seq<Node>, op: Node)
    requires Alternating(ns) && (op.And? || op.Or?)
    decreases |ns|
  {
    |ns| > 1 && ((!ns[1].Pipe? && ns[1] != op) || OtherKind(ns[2..], op))
  }

  /** The first && or || after a command is followed by one of the other kind, and no cd raises
      before it. */
  ghost predicate Mixed(ns: seq<Node>)
    requires Alternating(ns)
    decreases |ns|
  {
    |ns| > 1 && match ns[0]
      case Chdir(dir) => dir.Some? && Mixed(ns[2..])
      case Command(_) => if ns[1].Pipe? then Mixed(ns[2..]) else OtherKind(ns[2..], ns[1])
  }

  // ---------- where no kinds mix ----------

  lemma {:induction false} OneKindNotMixed(ns: seq<Node>, op: Node)
    requires Alternating(ns) && (op.And? || op.Or?) && !OtherKind(ns, op)
    ensures !Mixed(ns)
    decreases |ns|
  {
    if |ns| > 1 {
      OneKindNotMixed(ns[2..], op);
    }
  }

  lemma {:induction false} OneKindSkipsAll(ns: seq<Node>, op: Node, p: Place, code: int, codes: ExitCodes)
    requires Alternating(ns) && (op.And? || op.Or?) && !OtherKind(ns, op) && !GoesOn(op, code)
    ensures Skipped(ns, p, code, codes) == Returned(code, p.log)
    decreases |ns|
  {
    if |ns| > 1 {
      OneKindSkipsAll(ns[2..], op, p, code, codes);
    }
  }

  lemma {:induction false} UnmixedAgrees(ns: seq<Node>, p: Place, codes: ExitCodes)
    requires Alternating(ns) && !Mixed(ns)
    ensures Eval(ScriptOf(ns), p, codes) == LeftRun(ns, p, codes)
    decreases |ns|
  {
    if ns[0].Chdir? {
      EvalChdir(ns, p, codes);
      if |ns| > 1 && ns[0].dir.Some? {
        UnmixedAgrees(ns[2..], p.(cwd := Join(p.cwd, ns[0].dir.value)), codes);
      }
    } else {
      EvalCommand(ns, p, codes);
      if |ns| > 1 {
        UnmixedStep(ns, p, codes);
      }
    }
  }

  lemma UnmixedStep(ns: seq<Node>, p: Place, codes: ExitCodes)
    requires Alternating(ns) && !Mixed(ns) && ns[0].Command? && |ns| > 1
    ensures var next := Launched(p, Item([], ns[0].cmd));
      var code := codes(next.log, |p.log|);
      if ns[1].Pipe? then Eval(ScriptOf(ns[2..]), next, codes) == LeftRun(ns[2..], next, codes)
      else if GoesOn(ns[1], code)
      then Eval(ScriptOf(ns[2..]), next.(feed := None), codes) == LeftRun(ns[2..], next.(feed := None), codes)
      else Skipped(ns[2..], next.(feed := None), code, codes) == Returned(code, next.log)
    decreases |ns|, 0
  {
    var next := Launched(p, Item([], ns[0].cmd));
    var code := codes(next.log, |p.log|);
    if ns[1].Pipe? {
      UnmixedAgrees(ns[2..], next, codes);
    } else if GoesOn(ns[1], code) {
      OneKindNotMixed(ns[2..], ns[1]);
      UnmixedAgrees(ns[2..], next.(feed := None), codes);
    } else {
      OneKindSkipsAll(ns[2..], ns[1], next.(feed := None), code, codes);
    }
  }

  // ---------- where they do ----------

  /** A run raises, or it starts something. */
  lemma {:induction false} LeftRunMoves(ns: seq<Node>, p: Place, codes: ExitCodes)
    requires Alternating(ns)
    ensures var r := LeftRun(ns, p, codes);
      (r.Raised? && |r.log| >= |p.log|) || (r.Returned? && |r.log| > |p.log|)
    decreases |ns|, 1
  {
    if ns[0].Chdir? {
      if |ns| > 1 && ns[0].dir.Some? {
        LeftRunMoves(ns[2..], p.(cwd := Join(p.cwd, ns[0].dir.value)), codes);
      }
    } else if |ns| > 1 {
      var next := Launched(p, Item([], ns[0].cmd));
      var code := codes(next.log, |p.log|);
      if ns[1].Pipe? {
        LeftRunMoves(ns[2..], next, codes);
      } else if GoesOn(ns[1], code) {
        LeftRunMoves(ns[2..], next.(feed := None), codes);
      } else {
        SkippedKeeps(ns[2..], next.(feed := None), code, codes);
      }
    }
  }

  lemma {:induction false} SkippedKeeps(ns: seq<Node>, p: Place, code: int, codes: ExitCodes)
    requires Alternating(ns)
    ensures var r := Skipped(ns, p, code, codes); (r.Raised? || r.Returned?) && |r.log| >= |p.log|
    decreases |ns|, 0
  {
    if |ns| > 1 {
      LeftRunMoves(ns[2..], p, codes);
      SkippedKeeps(ns[2..], p, code, codes);
    }
  }

  /** An operator of the other kind brings a skipping run back to work. */
  lemma {:induction false} OtherKindResumes(ns: seq<Node>, op: Node, p: Place, code: int, codes: ExitCodes)
    requires Alternating(ns) && (op.And? || op.Or?) && OtherKind(ns, op) && !GoesOn(op, code)
    ensures Skipped(ns, p, code, codes) != Returned(code, p.log)
    decreases |ns|
  {
    if !ns[1].Pipe? && GoesOn(ns[1], code) {
      LeftRunMoves(ns[2..], p, codes);
    } else {
      OtherKindResumes(ns[2..], op, p, code, codes);
    }
  }

  /** The codes with which the first && or || after a command stops. */
  ghost function Stopping(ns: seq<Node>): int
    requires Alternating(ns)
    decreases |ns|
  {
    if |ns| > 1 && ns[0].Command? && ns[1].Or? then 0
    else if |ns| > 1 && ns[0].Command? && ns[1].And? then 1
    else if |ns| > 1 then Stopping(ns[2..])
    else 0
  }

  lemma {:induction false} MixedDiffers(ns: seq<Node>, p: Place, codes: ExitCodes)
    requires Alternating(ns) && Mixed(ns) && forall log, i :: codes(log, i) == Stopping(ns)
    ensures Eval(ScriptOf(ns), p, codes) != LeftRun(ns, p, codes)
    decreases |ns|
  {
    if ns[0].Chdir? {
      EvalChdir(ns, p, codes);
      MixedDiffers(ns[2..], p.(cwd := Join(p.cwd, ns[0].dir.value)), codes);
    } else {
      var next := Launched(p, Item([], ns[0].cmd));
      var code := codes(next.log, |p.log|);
      EvalCommand(ns, p, codes);
      if ns[1].Pipe? {
        MixedDiffers(ns[2..], next, codes);
      } else {
        OtherKindResumes(ns[2..], ns[1], next.(feed := None), code, codes);
      }
    }
  }

  ghost predicate Agree(ns: seq<Node>, p: Place, codes: ExitCodes)
    requires Alternating(ns)
  {
    Eval(ScriptOf(ns), p, codes) == LeftRun(ns, p, codes)
  }

  /** Nesting to the right and to the left mean the same, whatever the commands return, exactly
      when no && or || that can stop the run is followed by one of the other kind. */
  lemma NestingMatters(ns: seq<Node>, p: Place)
    requires Alternating(ns)
    ensures (forall codes: ExitCodes :: Agree(ns, p, codes)) <==> !Mixed(ns)
  {
    if Mixed(ns) {
      var code := Stopping(ns);
      var codes: ExitCodes := (log, i) => code;
      MixedDiffers(ns, p, codes);
      assert !Agree(ns, p, codes);
    } else {
      forall codes: ExitCodes ensures Agree(ns, p, codes) {
        UnmixedAgrees(ns, p, codes);
      }
    }
  }

  /** Every command fails. */
  function Failing(log: seq<Launch>, i: nat): int {
    1
  }

  /** In "a && b || c" with a failing, c is not started; nesting to the left would start it. */
  lemma FailureIsNotCaught(a: Cmd, b: Cmd, c: Cmd)
    requires CommandOk(a) && CommandOk(b) && CommandOk(c) && a.stdout == b.stdout == c.stdout == None
    ensures
      var ns := [Command(a), And, Command(b), Or, Command(c)];
      var p := Place(".", [], None);
      && Alternating(ns) && Mixed(ns)
      && Eval(ScriptOf(ns), p, Failing) == Returned(1, [LaunchOf(a, ".", None)])
      && LeftRun(ns, p, Failing) == Returned(1, [LaunchOf(a, ".", None), LaunchOf(c, ".", None)])
  {
    var ns := [Command(a), And, Command(b), Or, Command(c)];
    assert ns[2..] == [Command(b), Or, Command(c)] && ns[2..][2..] == [Command(c)];
    assert Alternating(ns[2..][2..]) && Alternating(ns[2..]) && Alternating(ns);
    EvalCommand(ns, Place(".", [], None), Failing);
    var p := Place(".", [LaunchOf(a, ".", None)], None);
    assert Skipped(ns[2..], p, 1, Failing) == LeftRun(ns[2..][2..], p, Failing);
    assert LeftRun([Command(c)], p, Failing) == Returned(1, p.log + [LaunchOf(c, ".", None)]);
  }
}
