/** The script that a pipeline of waf-tools/shellcmd.py spells, and what it means. */
module ShellScript {
  import opened Options
  import opened ShellSyntax

  // ---------- the outside world ----------

  datatype Input = Inherit | FromFile(name: string) | FromProcess(index: nat)

  /** One started process; the processes of a run are numbered in the order they start. */
  datatype Launch = Launch(argv: seq<string>, stdin: Input, stdout: Option<Sink>, stderr: Option<Sink>,
                           env: map<string, string>, cwd: Option<string>)

  /** The exit code that waiting for process i yields once the given processes are started. */
  type ExitCodes = (seq<Launch>, nat) -> int

  datatype Outcome = Returned(code: int, log: seq<Launch>) | Raised(log: seq<Launch>) | Nothing

  /** os.path.join for POSIX paths. */
  function Join(cwd: string, dir: string): string {
    if dir != "" && dir[0] == '/' then dir
    else if cwd == "" || cwd[|cwd| - 1] == '/' then cwd + dir
    else cwd + "/" + dir
  }

  /** What Popen is given for a command: a pipe wins over an input redirection. */
  function LaunchOf(c: Cmd, cwd: string, feed: Option<nat>): Launch {
    Launch(c.argv,
           if feed.Some? then FromProcess(feed.value) else if c.stdin.Some? then FromFile(c.stdin.value) else Inherit,
           c.stdout, c.stderr, c.env,
           if cwd == "." then None else Some(cwd))
  }

  // ---------- scripts: segments of piped commands, joined by && and || to the right ----------

  /** A command with the directory changes written right before it. */
  datatype Item = Item(cds: seq<string>, cmd: Cmd)

  datatype Tail = End | AndThen(script: Script) | OrElse(script: Script)

  /** Commands that feed each other: a segment with its last command and what follows, or one cut
      off by a cd that has no directory or no command to run in it. */
  datatype Script =
    | Segment(piped: seq<Item>, last: Item, tail: Tail)
    | Cut(piped: seq<Item>, cds: seq<string>, rest: seq<Node>)

  /** A run between two commands: the directory, the processes, the one that feeds the next. */
  datatype Place = Place(cwd: string, log: seq<Launch>, feed: Option<nat>)

  ghost function JoinAll(cwd: string, cds: seq<string>): string
    decreases |cds|
  {
    if cds == [] then cwd else JoinAll(Join(cwd, cds[0]), cds[1..])
  }

  /** Starts a command where its directory changes lead; it feeds the next. */
  ghost function Launched(p: Place, item: Item): Place {
    var dir := JoinAll(p.cwd, item.cds);
    Place(dir, p.log + [LaunchOf(item.cmd, dir, p.feed)], Some(|p.log|))
  }

  ghost function Started(p: Place, items: seq<Item>): Place
    decreases |items|
  {
    if items == [] then p else Started(Launched(p, items[0]), items[1..])
  }

  /** The meaning of a script: a segment has the status of its last command, && goes on if that
      is zero and || if it is not, and directory changes last to the end. */
  ghost function Eval(s: Script, p: Place, codes: ExitCodes): Outcome
    decreases s
  {
    var fed := Started(p, s.piped);
    match s
    case Cut(_, _, _) => Raised(fed.log)
    case Segment(_, last, tail) =>
      var done := Launched(fed, last);
      var code := codes(done.log, |fed.log|);
      match tail
      case End => Returned(code, done.log)
      case AndThen(t) => if code == 0 then Eval(t, done.(feed := None), codes) else Returned(code, done.log)
      case OrElse(t) => if code != 0 then Eval(t, done.(feed := None), codes) else Returned(code, done.log)
  }

  // ---------- the script a pipeline spells ----------

  ghost function AddCommand(c: Cmd, s: Script): Script {
    s.(piped := [Item([], c)] + s.piped)
  }

  ghost function WithCd(dir: string, item: Item): Item {
    item.(cds := [dir] + item.cds)
  }

  ghost function AddCd(dir: string, s: Script): Script {
    if s.piped != [] then s.(piped := [WithCd(dir, s.piped[0])] + s.piped[1..])
    else if s.Cut? then s.(cds := [dir] + s.cds)
    else s.(last := WithCd(dir, s.last))
  }

  /** Nodes and operators in turn, a cd standing before && only and a pipe after a command only. */
  ghost predicate Alternating(ns: seq<Node>) {
    && ns != []
    && (ns[0].Command? || ns[0].Chdir?)
    && (|ns| == 1 || (|ns| >= 3 && PairOk(ns[0], ns[1]) && Alternating(ns[2..])))
  }

  ghost function ScriptOf(ns: seq<Node>): Script
    requires Alternating(ns)
  {
    match ns[0]
    case Chdir(dir) =>
      if |ns| == 1 || dir.None? then Cut([], [], ns) else AddCd(dir.value, ScriptOf(ns[2..]))
    case Command(c) =>
      if |ns| == 1 then Segment([], Item([], c), End)
      else if ns[1].And? then Segment([], Item([], c), AndThen(ScriptOf(ns[2..])))
      else if ns[1].Or? then Segment([], Item([], c), OrElse(ScriptOf(ns[2..])))
      else AddCommand(c, ScriptOf(ns[2..]))
  }

  // The way back: the nodes of a script, each function given the nodes that follow.

  ghost function CdNodes(cds: seq<string>, after: seq<Node>): seq<Node> {
    if cds == [] then after else [Chdir(Some(cds[0])), And] + CdNodes(cds[1..], after)
  }

  ghost function ItemNodes(item: Item, after: seq<Node>): seq<Node> {
    CdNodes(item.cds, [Command(item.cmd)] + after)
  }

  ghost function PipedNodes(items: seq<Item>, after: seq<Node>): seq<Node> {
    if items == [] then after else ItemNodes(items[0], [Pipe] + PipedNodes(items[1..], after))
  }

  ghost function TailNodes(t: Tail): seq<Node>
    decreases t
  {
    match t
    case End => []
    case AndThen(s) => [And] + NodesOf(s)
    case OrElse(s) => [Or] + NodesOf(s)
  }

  ghost function NodesOf(s: Script): seq<Node>
    decreases s
  {
    PipedNodes(s.piped, if s.Cut? then CdNodes(s.cds, s.rest) else ItemNodes(s.last, TailNodes(s.tail)))
  }

  lemma CdNodesFirst(dir: string, cds: seq<string>, after: seq<Node>)
    ensures CdNodes([dir] + cds, after) == [Chdir(Some(dir)), And] + CdNodes(cds, after)
  {
    assert ([dir] + cds)[1..] == cds;
  }

  lemma NodesAddCommand(c: Cmd, s: Script)
    ensures NodesOf(AddCommand(c, s)) == [Command(c), Pipe] + NodesOf(s)
  {
    var after := if s.Cut? then CdNodes(s.cds, s.rest) else ItemNodes(s.last, TailNodes(s.tail));
    assert ([Item([], c)] + s.piped)[1..] == s.piped;
    assert PipedNodes([Item([], c)] + s.piped, after) == [Command(c)] + ([Pipe] + PipedNodes(s.piped, after));
  }

  lemma NodesAddCd(dir: string, s: Script)
    ensures NodesOf(AddCd(dir, s)) == [Chdir(Some(dir)), And] + NodesOf(s)
  {
    var after := if s.Cut? then CdNodes(s.cds, s.rest) else ItemNodes(s.last, TailNodes(s.tail));
    if s.piped != [] {
      var first, more := s.piped[0], s.piped[1..];
      assert ([WithCd(dir, first)] + more)[1..] == more;
      CdNodesFirst(dir, first.cds, [Command(first.cmd)] + ([Pipe] + PipedNodes(more, after)));
    } else if s.Cut? {
      CdNodesFirst(dir, s.cds, s.rest);
    } else {
      CdNodesFirst(dir, s.last.cds, [Command(s.last.cmd)] + TailNodes(s.tail));
    }
  }

  lemma NodesJoined(c: Cmd, op: Node, s: Script)
    requires op.And? || op.Or?
    ensures var tail := if op.And? then AndThen(s) else OrElse(s);
      NodesOf(Segment([], Item([], c), tail)) == [Command(c), op] + NodesOf(s)
  {
  }

  /** The script of a pipeline leaves nothing out: its nodes are the pipeline. */
  lemma {:induction false} ScriptFaithful(ns: seq<Node>)
    requires Alternating(ns)
    ensures NodesOf(ScriptOf(ns)) == ns
  {
    if |ns| > 1 && (ns[0].Chdir? ==> ns[0].dir.Some?) {
      ScriptFaithful(ns[2..]);
      var t := ScriptOf(ns[2..]);
      assert ns == [ns[0], ns[1]] + ns[2..];
      if ns[0].Chdir? {
        NodesAddCd(ns[0].dir.value, t);
      } else if ns[1].Pipe? {
        NodesAddCommand(ns[0].cmd, t);
      } else {
        NodesJoined(ns[0].cmd, ns[1], t);
      }
    }
  }

  // ---------- parsed pipelines alternate ----------

  lemma {:induction false} PairsThenLast(ns: seq<Node>, last: Node)
    requires PairsOk(ns) && LastOk(last)
    ensures Alternating(ns + [last])
    decreases |ns|
  {
    if ns != [] {
      FrontPair(ns);
      PairsThenLast(ns[2..], last);
      assert (ns + [last])[2..] == ns[2..] + [last];
    }
  }

  lemma {:induction false} FrontPair(ns: seq<Node>)
    requires PairsOk(ns) && ns != []
    ensures |ns| >= 2 && PairOk(ns[0], ns[1]) && PairsOk(ns[2..])
    decreases |ns|
  {
    if |ns| > 2 {
      FrontPair(ns[..|ns| - 2]);
      assert ns[2..][..|ns| - 4] == ns[..|ns| - 2][2..];
    }
  }

  lemma WellFormedAlternates(ns: seq<Node>)
    requires WellFormed(ns)
    ensures Alternating(ns)
  {
    PairsThenLast(ns[..|ns| - 1], ns[|ns| - 1]);
    assert ns[..|ns| - 1] + [ns[|ns| - 1]] == ns;
  }

  // ---------- one node at a time ----------

  lemma EvalAddCommand(c: Cmd, s: Script, p: Place, codes: ExitCodes)
    ensures Eval(AddCommand(c, s), p, codes) == Eval(s, Launched(p, Item([], c)), codes)
  {
    assert ([Item([], c)] + s.piped)[1..] == s.piped;
  }

  lemma LaunchedWithCd(p: Place, dir: string, item: Item)
    ensures Launched(p, WithCd(dir, item)) == Launched(p.(cwd := Join(p.cwd, dir)), item)
  {
    assert ([dir] + item.cds)[1..] == item.cds;
  }

  lemma EvalAddCd(dir: string, s: Script, p: Place, codes: ExitCodes)
    ensures Eval(AddCd(dir, s), p, codes) == Eval(s, p.(cwd := Join(p.cwd, dir)), codes)
  {
    if s.piped != [] {
      LaunchedWithCd(p, dir, s.piped[0]);
      assert ([WithCd(dir, s.piped[0])] + s.piped[1..])[1..] == s.piped[1..];
    } else if s.Segment? {
      LaunchedWithCd(p, dir, s.last);
    }
  }

  /** What the script of a pipeline means, by its first node. */
  lemma EvalCommand(ns: seq<Node>, p: Place, codes: ExitCodes)
    requires Alternating(ns) && ns[0].Command?
    ensures
      var next := Launched(p, Item([], ns[0].cmd));
      var code := codes(next.log, |p.log|);
      Eval(ScriptOf(ns), p, codes) ==
        if |ns| == 1 then Returned(code, next.log)
        else if ns[1].Pipe? then Eval(ScriptOf(ns[2..]), next, codes)
        else if ns[1].And? == (code == 0) then Eval(ScriptOf(ns[2..]), next.(feed := None), codes)
        else Returned(code, next.log)
  {
    if |ns| > 1 && ns[1].Pipe? {
      EvalAddCommand(ns[0].cmd, ScriptOf(ns[2..]), p, codes);
    }
  }

  lemma EvalChdir(ns: seq<Node>, p: Place, codes: ExitCodes)
    requires Alternating(ns) && ns[0].Chdir?
    ensures Eval(ScriptOf(ns), p, codes) ==
      if |ns| == 1 || ns[0].dir.None? then Raised(p.log)
      else Eval(ScriptOf(ns[2..]), p.(cwd := Join(p.cwd, ns[0].dir.value)), codes)
  {
    if |ns| > 1 && ns[0].dir.Some? {
      EvalAddCd(ns[0].dir.value, ScriptOf(ns[2..]), p, codes);
    }
  }

  // ---------- what runs at all ----------

  ghost function Argvs(log: seq<Launch>): (r: seq<seq<string>>)
    ensures |r| == |log|
  {
    seq(|log|, i requires 0 <= i < |log| => log[i].argv)
  }

  ghost function ArgvsIn(ns: seq<Node>): seq<seq<string>> {
    if ns == [] then []
    else if ns[0].Command? then [ns[0].cmd.argv] + ArgvsIn(ns[1..])
    else ArgvsIn(ns[1..])
  }

  lemma ArgvsPair(ns: seq<Node>)
    requires |ns| >= 2 && !ns[1].Command?
    ensures ArgvsIn(ns) == (if ns[0].Command? then [ns[0].cmd.argv] else []) + ArgvsIn(ns[2..])
  {
    assert ns[1..][1..] == ns[2..];
  }

  lemma ArgvsAppend(log: seq<Launch>, l: Launch)
    ensures Argvs(log + [l]) == Argvs(log) + [l.argv]
  {
  }

  lemma PrefixStep<T>(a: seq<T>, x: T, r: seq<T>, rest: seq<T>)
    requires a + [x] <= r <= a + [x] + rest
    ensures a <= r <= a + ([x] + rest)
  {
    assert a + [x] + rest == a + ([x] + rest);
  }

  /** The commands that start are the first ones of the pipeline, in its order: whatever operator
      stops a run, nothing after it is started any more. */
  lemma {:induction false} LaunchesArePrefix(ns: seq<Node>, p: Place, codes: ExitCodes)
    requires Alternating(ns)
    ensures Eval(ScriptOf(ns), p, codes) != Nothing
    ensures Argvs(p.log) <= Argvs(Eval(ScriptOf(ns), p, codes).log) <= Argvs(p.log) + ArgvsIn(ns)
  {
    if |ns| > 1 {
      ArgvsPair(ns);
    }
    if ns[0].Chdir? {
      EvalChdir(ns, p, codes);
      if |ns| > 1 && ns[0].dir.Some? {
        LaunchesArePrefix(ns[2..], p.(cwd := Join(p.cwd, ns[0].dir.value)), codes);
      }
    } else {
      EvalCommand(ns, p, codes);
      var next := Launched(p, Item([], ns[0].cmd));
      ArgvsAppend(p.log, next.log[|p.log|]);
      if |ns| > 1 {
        var after := if ns[1].Pipe? then next else next.(feed := None);
        LaunchesArePrefix(ns[2..], after, codes);
        PrefixStep(Argvs(p.log), ns[0].cmd.argv, Argvs(Eval(ScriptOf(ns[2..]), after, codes).log), ArgvsIn(ns[2..]));
      }
    }
  }
}
