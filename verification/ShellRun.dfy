/** How waf-tools/shellcmd.py runs a pipeline: the loop, proved against the meaning of the script. */
module ShellRun {
  import opened Options
  import opened ShellScript
  import opened ShellSyntax
  import opened ShellWiring

  /** Waits for every process of a segment; the status is the last one's, whatever the others
      returned. */
  method ExecPipedCommands(commands: seq<nat>, log: seq<Launch>, codes: ExitCodes) returns (retval: int)
    ensures retval == if commands == [] then 0 else codes(log, commands[|commands| - 1])
  {
    var retvals: seq<int> := [];
    for i := 0 to |commands|
      invariant |retvals| == i && forall k :: 0 <= k < i ==> retvals[k] == codes(log, commands[k])
    {
      retvals := retvals + [codes(log, commands[i])];
    }
    retval := 0;
    for i := 0 to |retvals|
      invariant retval == 0 && forall k :: 0 <= k < i ==> retvals[k] == 0
    {
      if retvals[i] != 0 {
        retval := retvals[|retvals| - 1];
        break;
      }
    }
  }

  /** The process that feeds the next command: the last of the segment under way. */
  function Feed(inPipe: bool, piped: seq<nat>): Option<nat>
    requires inPipe ==> piped != []
  {
    if inPipe then Some(piped[|piped| - 1]) else None
  }

  /** What the pipeline that is left means, if it alternates. */
  ghost function Meaning(pipeline: seq<Node>, p: Place, codes: ExitCodes): Option<Outcome> {
    if Alternating(pipeline) then Some(Eval(ScriptOf(pipeline), p, codes)) else None
  }

  lemma MeaningOfChdir(pipeline: seq<Node>, p: Place, codes: ExitCodes)
    requires Meaning(pipeline, p, codes).Some? && pipeline[0].Chdir?
    ensures
      var dir := pipeline[0].dir;
      if |pipeline| == 1 || dir.None? then Meaning(pipeline, p, codes) == Some(Raised(p.log))
      else Meaning(pipeline[2..], p.(cwd := Join(p.cwd, dir.value)), codes) == Meaning(pipeline, p, codes)
  {
    EvalChdir(pipeline, p, codes);
  }

  lemma MeaningOfCommand(pipeline: seq<Node>, p: Place, codes: ExitCodes)
    requires Meaning(pipeline, p, codes).Some? && pipeline[0].Command?
    ensures
      var next := Launched(p, Item([], pipeline[0].cmd));
      var code := codes(next.log, |p.log|);
      if |pipeline| == 1 then Meaning(pipeline, p, codes) == Some(Returned(code, next.log))
      else
        && IsOp(pipeline[1])
        && if pipeline[1].Pipe? then Meaning(pipeline[2..], next, codes) == Meaning(pipeline, p, codes)
           else if pipeline[1].And? == (code == 0)
           then Meaning(pipeline[2..], next.(feed := None), codes) == Meaning(pipeline, p, codes)
           else Meaning(pipeline, p, codes) == Some(Returned(code, next.log))
  {
    EvalCommand(pipeline, p, codes);
  }

  lemma MeaningStarts(pipeline: seq<Node>, p: Place, codes: ExitCodes)
    requires Meaning(pipeline, p, codes).Some?
    ensures pipeline != [] && (pipeline[0].Command? || pipeline[0].Chdir?)
    ensures |pipeline| == 1 || |pipeline| >= 3
  {
  }

  /** Starts one command; the process joins the segment under way. */
  method StartCommand(cmd: Cmd, cwd: string, inPipe: bool, piped: seq<nat>, log: seq<Launch>)
    returns (piped': seq<nat>, log': seq<Launch>)
    requires inPipe ==> piped != [] && piped[|piped| - 1] == |log| - 1
    ensures piped' == piped + [|log|] && |log'| == |log| + 1
    ensures Launched(Place(cwd, log, Feed(inPipe, piped)), Item([], cmd)) == Place(cwd, log', Feed(true, piped'))
  {
    log', piped' := log + [LaunchOf(cmd, cwd, Feed(inPipe, piped))], piped + [|log|];
  }

  /** The loop over the nodes. */
  method RunNodes(nodes: seq<Node>, codes: ExitCodes) returns (r: Outcome)
    requires Alternating(nodes)
    ensures r == Eval(ScriptOf(nodes), Place(".", [], None), codes)
  {
    var pipeline, piped: seq<nat>, cwd, log: seq<Launch> := nodes, [], ".", [];
    var inPipe := false;
    ghost var goal := Eval(ScriptOf(nodes), Place(".", [], None), codes);
    while true
      invariant inPipe <==> piped != []
      invariant inPipe ==> piped[|piped| - 1] == |log| - 1
      invariant Meaning(pipeline, Place(cwd, log, Feed(inPipe, piped)), codes) == Some(goal)
      decreases |pipeline|
    {
      ghost var place := Place(cwd, log, Feed(inPipe, piped));
      MeaningStarts(pipeline, place, codes);
      var node := pipeline[0];
      if node.Chdir? {
        MeaningOfChdir(pipeline, place, codes);
        if |pipeline| == 1 || node.dir.None? {
          return Raised(log);
        }
        cwd := Join(cwd, node.dir.value);
        pipeline := pipeline[2..];
        continue;
      }
      MeaningOfCommand(pipeline, place, codes);
      piped, log := StartCommand(node.cmd, cwd, inPipe, piped, log);
      if |pipeline| == 1 {
        var code := ExecPipedCommands(piped, log, codes);
        return Returned(code, log);
      }
      var op := pipeline[1];
      pipeline := pipeline[2..];
      if op.Pipe? {
        inPipe := true;
      } else {
        var code := ExecPipedCommands(piped, log, codes);
        if (op.Or? && code == 0) || (op.And? && code != 0) {
          return Returned(code, log);
        }
        inPipe, piped := false, [];
      }
    }
  }

  /** The iterative evaluator.  An empty pipeline, which parse never builds, returns nothing. */
  method Run(nodes: seq<Node>, codes: ExitCodes) returns (r: Outcome)
    requires nodes == [] || Alternating(nodes)
    ensures nodes == [] ==> r == Nothing
    ensures nodes != [] ==> Described(nodes, codes, r)
    ensures nodes != [] ==> r == Eval(ScriptOf(nodes), Place(".", [], None), codes)
  {
    if nodes == [] {
      return Nothing;
    }
    r := RunNodes(nodes, codes);
    RunDescribed(nodes, codes);
  }
}
