/** Pipelines of waf-tools/shellcmd.py and the token reader that builds them. */
module ShellSyntax {
  import opened Options

  /** Where standard output or standard error goes. */
  datatype Sink = File(name: string) | ToPipe | ToStdout

  datatype Cmd = Cmd(argv: seq<string>, stdin: Option<string>, stdout: Option<Sink>, stderr: Option<Sink>,
                     env: map<string, string>)

  datatype Node = Pipe | And | Or | Command(cmd: Cmd) | Chdir(dir: Option<string>)

  // ---------- tokens ----------

  predicate IsWordChar(c: char) {
    'a' <= c <= 'z' || 'A' <= c <= 'Z' || '0' <= c <= '9' || c == '_'
  }

  predicate IsSpace(c: char) {
    c == ' ' || '\t' <= c <= '\r'
  }

  predicate IsName(s: string) {
    s != [] && forall i :: 0 <= i < |s| ==> IsWordChar(s[i])
  }

  predicate IsValue(s: string) {
    s != [] && forall i :: 0 <= i < |s| ==> !IsSpace(s[i])
  }

  /** The length of the longest prefix without '='. */
  function BeforeEquals(s: string): (n: nat)
    ensures n <= |s| && (n < |s| ==> s[n] == '=') && forall i :: 0 <= i < n ==> s[i] != '='
  {
    if s == [] || s[0] == '=' then 0 else 1 + BeforeEquals(s[1..])
  }

  /** An environment assignment NAME=value; as in Python's regular expressions the end of the
      token may be a newline that the value does not include. */
  function MatchEnv(token: string): Option<(string, string)> {
    var n := BeforeEquals(token);
    if n == |token| || !IsName(token[..n]) then None
    else
      var rest := token[n + 1..];
      if IsValue(rest) then Some((token[..n], rest))
      else if rest != [] && rest[|rest| - 1] == '\n' && IsValue(rest[..|rest| - 1])
      then Some((token[..n], rest[..|rest| - 1]))
      else None
  }

  /** What a token means after a command name. */
  datatype Meaning = WORD | OUT | ERR | ERR_TO_OUT | IN | PIPE | AND | OR

  function MeaningOf(token: string): Meaning {
    if token == ">" then OUT
    else if token == "2>" then ERR
    else if token == "2>&1" then ERR_TO_OUT
    else if token == "<" then IN
    else if token == "|" then PIPE
    else if token == "&&" then AND
    else if token == "||" then OR
    else WORD
  }

  predicate IsOperator(token: string) {
    MeaningOf(token) != WORD
  }

  // ---------- the reader ----------

  /** The state of the reader, with the command it is building. */
  datatype Reader =
    | Begin(env: map<string, string>, pipeline: seq<Node>)
    | InCommand(cmd: Cmd, pipeline: seq<Node>)
    | InChdir(dir: Option<string>, pipeline: seq<Node>)
    | InStderr(cmd: Cmd, pipeline: seq<Node>)
    | InStdout(cmd: Cmd, pipeline: seq<Node>)
    | InStdin(cmd: Cmd, pipeline: seq<Node>)

  const START := Begin(map[], [])

  function BeginToken(r: Reader, token: string): Option<Reader>
    requires r.Begin?
  {
    var m := MatchEnv(token);
    if m.Some? then Some(r.(env := r.env[m.value.0 := m.value.1]))
    else if token == "cd" then if r.env == map[] then Some(InChdir(None, r.pipeline)) else None
    else Some(InCommand(Cmd([token], None, None, None, r.env), r.pipeline))
  }

  function CommandToken(c: Cmd, p: seq<Node>, meaning: Meaning, token: string): Option<Reader> {
    match meaning
    case OUT => Some(InStdout(c, p))
    case ERR => Some(InStderr(c, p))
    case ERR_TO_OUT => if c.stderr.Some? then None else Some(InCommand(c.(stderr := Some(ToStdout)), p))
    case IN => Some(InStdin(c, p))
    case PIPE =>
      if c.stdout.Some? then None
      else Some(Begin(map[], p + [Command(c.(stdout := Some(ToPipe))), Pipe]))
    case AND => Some(Begin(map[], p + [Command(c), And]))
    case OR => Some(Begin(map[], p + [Command(c), Or]))
    case WORD => Some(InCommand(c.(argv := c.argv + [token]), p))
  }

  /** One token; None where Python's assertion fails. */
  function ReadToken(r: Reader, token: string): Option<Reader> {
    match r
    case Begin(_, _) => BeginToken(r, token)
    case InCommand(c, p) => CommandToken(c, p, MeaningOf(token), token)
    case InChdir(dir, p) =>
      if token == "&&" then Some(Begin(map[], p + [Chdir(dir), And]))
      else if dir.Some? then None
      else Some(InChdir(Some(token), p))
    case InStdout(c, p) =>
      if c.stdout.Some? then None else Some(InCommand(c.(stdout := Some(File(token))), p))
    case InStderr(c, p) =>
      if c.stderr.Some? then None else Some(InCommand(c.(stderr := Some(File(token))), p))
    case InStdin(c, p) =>
      if c.stdin.Some? then None else Some(InCommand(c.(stdin := Some(token)), p))
  }

  function ReadAll(r: Reader, tokens: seq<string>): Option<Reader>
    decreases |tokens|
  {
    if tokens == [] then Some(r) else
      var next := ReadToken(r, tokens[0]);
      if next.None? then None else ReadAll(next.value, tokens[1..])
  }

  /** The command under construction when the tokens run out. */
  function Current(r: Reader): Option<Node> {
    match r
    case Begin(_, _) => None
    case InChdir(dir, _) => Some(Chdir(dir))
    case InCommand(c, _) => Some(Command(c))
    case InStdout(c, _) => Some(Command(c))
    case InStderr(c, _) => Some(Command(c))
    case InStdin(c, _) => Some(Command(c))
  }

  /** What parse returns, or None where it raises. */
  function Parsed(tokens: seq<string>): Option<seq<Node>> {
    var r := ReadAll(START, tokens);
    if r.None? || Current(r.value).None? then None
    else Some(r.value.pipeline + [Current(r.value).value])
  }

  lemma {:induction false} ReadAllConcat(r: Reader, a: seq<string>, b: seq<string>)
    ensures ReadAll(r, a + b)
      == if ReadAll(r, a).None? then None else ReadAll(ReadAll(r, a).value, b)
    decreases |a|
  {
    if a == [] {
      assert a + b == b;
    } else {
      assert (a + b)[1..] == a[1..] + b;
      var next := ReadToken(r, a[0]);
      if next.Some? {
        ReadAllConcat(next.value, a[1..], b);
      }
    }
  }

  // ---------- well-formed pipelines ----------

  predicate IsOp(n: Node) {
    n.Pipe? || n.And? || n.Or?
  }

  /** A command that some token list spells. */
  ghost predicate CommandOk(c: Cmd) {
    && c.argv != [] && c.argv[0] != "cd" && MatchEnv(c.argv[0]).None?
    && (forall i :: 1 <= i < |c.argv| ==> !IsOperator(c.argv[i]))
    && (c.stdout.Some? ==> !c.stdout.value.ToStdout?)
    && (c.stderr.Some? ==> !c.stderr.value.ToPipe?)
    && (forall k :: k in c.env ==> IsName(k) && IsValue(c.env[k]))
  }

  /** A node before an operator: it writes into a pipe exactly when the operator is one, and a
      Chdir stands before && only. */
  ghost predicate PairOk(n: Node, op: Node) {
    match n
    case Command(c) => CommandOk(c) && IsOp(op) && (c.stdout == Some(ToPipe) <==> op.Pipe?)
    case Chdir(dir) => op.And? && dir != Some("&&")
    case _ => false
  }

  ghost predicate LastOk(n: Node) {
    match n
    case Command(c) => CommandOk(c) && c.stdout != Some(ToPipe)
    case Chdir(dir) => dir != Some("&&")
    case _ => false
  }

  ghost predicate PairsOk(ns: seq<Node>) {
    ns == [] || (|ns| >= 2 && PairsOk(ns[..|ns| - 2]) && PairOk(ns[|ns| - 2], ns[|ns| - 1]))
  }

  /** node (op node)*, every node fit for its place. */
  ghost predicate WellFormed(ns: seq<Node>) {
    ns != [] && PairsOk(ns[..|ns| - 1]) && LastOk(ns[|ns| - 1])
  }

  lemma PairsAppend(ns: seq<Node>, n: Node, op: Node)
    requires PairsOk(ns) && PairOk(n, op)
    ensures PairsOk(ns + [n, op])
  {
    var m := ns + [n, op];
    assert m[..|m| - 2] == ns;
  }

  ghost predicate ReaderOk(r: Reader) {
    PairsOk(r.pipeline) && match r
      case Begin(env, _) => forall k :: k in env ==> IsName(k) && IsValue(env[k])
      case InChdir(dir, _) => dir != Some("&&")
      case InCommand(c, _) => CommandOk(c) && c.stdout != Some(ToPipe)
      case InStdout(c, _) => CommandOk(c) && c.stdout != Some(ToPipe)
      case InStderr(c, _) => CommandOk(c) && c.stdout != Some(ToPipe)
      case InStdin(c, _) => CommandOk(c) && c.stdout != Some(ToPipe)
  }

  lemma ArgumentKeepsOk(c: Cmd, token: string)
    requires CommandOk(c) && !IsOperator(token)
    ensures CommandOk(c.(argv := c.argv + [token]))
  {
    var argv := c.argv + [token];
    assert argv[0] == c.argv[0];
    forall i | 1 <= i < |argv| ensures !IsOperator(argv[i]) {
      assert i < |c.argv| ==> argv[i] == c.argv[i];
    }
  }

  lemma BeforeOperator(c: Cmd, p: seq<Node>, op: Node)
    requires PairsOk(p) && CommandOk(c) && c.stdout != Some(ToPipe) && IsOp(op)
    requires op.Pipe? ==> c.stdout == None
    ensures ReaderOk(Begin(map[], p + [Command(if op.Pipe? then c.(stdout := Some(ToPipe)) else c), op]))
  {
    var c' := if op.Pipe? then c.(stdout := Some(ToPipe)) else c;
    assert CommandOk(c');
    PairsAppend(p, Command(c'), op);
  }

  lemma ErrorsToOutput(c: Cmd)
    requires CommandOk(c)
    ensures CommandOk(c.(stderr := Some(ToStdout)))
  {
    assert c.(stderr := Some(ToStdout)).argv == c.argv;
  }

  lemma OperatorKeepsOk(c: Cmd, p: seq<Node>, meaning: Meaning, token: string)
    requires PairsOk(p) && CommandOk(c) && c.stdout != Some(ToPipe) && CommandToken(c, p, meaning, token).Some?
    requires meaning == PIPE || meaning == AND || meaning == OR
    ensures ReaderOk(CommandToken(c, p, meaning, token).value)
  {
    if meaning == PIPE {
      BeforeOperator(c, p, Pipe);
    } else if meaning == AND {
      BeforeOperator(c, p, And);
    } else {
      BeforeOperator(c, p, Or);
    }
  }

  lemma CommandTokenKeepsOk(c: Cmd, p: seq<Node>, meaning: Meaning, token: string)
    requires PairsOk(p) && CommandOk(c) && c.stdout != Some(ToPipe) && CommandToken(c, p, meaning, token).Some?
    requires meaning == WORD ==> !IsOperator(token)
    ensures ReaderOk(CommandToken(c, p, meaning, token).value)
  {
    if meaning == PIPE || meaning == AND || meaning == OR {
      OperatorKeepsOk(c, p, meaning, token);
    } else if meaning == WORD {
      ArgumentKeepsOk(c, token);
    } else if meaning == ERR_TO_OUT {
      ErrorsToOutput(c);
    }
  }

  lemma BeginTokenKeepsOk(r: Reader, token: string)
    requires r.Begin? && ReaderOk(r) && BeginToken(r, token).Some?
    ensures ReaderOk(BeginToken(r, token).value)
  {}

  lemma TokenKeepsOk(r: Reader, token: string)
    requires ReaderOk(r) && ReadToken(r, token).Some?
    ensures ReaderOk(ReadToken(r, token).value)
  {
    match r
    case Begin(_, _) => BeginTokenKeepsOk(r, token);
    case InCommand(c, p) => CommandTokenKeepsOk(c, p, MeaningOf(token), token);
    case InChdir(dir, p) =>
      if token == "&&" {
        PairsAppend(p, Chdir(dir), And);
      }
    case InStdout(c, _) =>
    case InStderr(c, _) =>
    case InStdin(c, _) =>
  }

  lemma {:induction false} ReadAllKeepsOk(r: Reader, tokens: seq<string>)
    requires ReaderOk(r) && ReadAll(r, tokens).Some?
    ensures ReaderOk(ReadAll(r, tokens).value)
    decreases |tokens|
  {
    if tokens != [] {
      TokenKeepsOk(r, tokens[0]);
      ReadAllKeepsOk(ReadToken(r, tokens[0]).value, tokens[1..]);
    }
  }

  /** Whatever parse accepts, it reads as a well-formed pipeline. */
  lemma ParsedWellFormed(tokens: seq<string>)
    requires Parsed(tokens).Some?
    ensures WellFormed(Parsed(tokens).value)
  {
    var r := ReadAll(START, tokens).value;
    ReadAllKeepsOk(START, tokens);
    var ns := Parsed(tokens).value;
    assert ns[..|ns| - 1] == r.pipeline;
  }

  // ---------- canonical spelling ----------

  /** ks lists the keys of m, each once. */
  ghost predicate Enumerates(ks: seq<string>, m: map<string, string>) {
    && (forall i :: 0 <= i < |ks| ==> ks[i] in m)
    && (forall k :: k in m ==> k in ks)
    && forall i, j :: 0 <= i < j < |ks| ==> ks[i] != ks[j]
  }

  ghost function EnvTokens(m: map<string, string>, ks: seq<string>): seq<string>
    requires forall i :: 0 <= i < |ks| ==> ks[i] in m
  {
    if ks == [] then [] else
      var n := |ks| - 1;
      EnvTokens(m, ks[..n]) + [ks[n] + "=" + m[ks[n]]]
  }

  ghost function RedirectTokens(c: Cmd): seq<string> {
    (if c.stdin.Some? then ["<", c.stdin.value] else []) +
    (if c.stdout.Some? && c.stdout.value.File? then [">", c.stdout.value.name] else []) +
    (if c.stderr.None? then [] else if c.stderr.value.File? then ["2>", c.stderr.value.name] else ["2>&1"])
  }

  ghost function OpToken(op: Node): string {
    if op.Pipe? then "|" else if op.And? then "&&" else "||"
  }

  /** order gives the sequence in which the assignments of an environment are written. */
  type Order = map<string, string> -> seq<string>

  ghost predicate IsOrder(order: Order) {
    forall m :: Enumerates(order(m), m)
  }

  ghost function Listing(keys: set<string>): (ks: seq<string>)
    ensures forall k :: k in ks <==> k in keys
    ensures forall i, j :: 0 <= i < j < |ks| ==> ks[i] != ks[j]
  {
    if keys == {} then [] else
      var k :| k in keys;
      [k] + Listing(keys - {k})
  }

  /** Some order there is. */
  lemma OrderExists()
    ensures exists order: Order :: IsOrder(order)
  {
    var order: Order := (m: map<string, string>) => Listing(m.Keys);
    forall m: map<string, string> ensures Enumerates(order(m), m) {
      assert order(m) == Listing(m.Keys);
    }
    assert IsOrder(order);
  }

  ghost function NodeTokens(n: Node, order: Order): seq<string>
    requires IsOrder(order)
  {
    match n
    case Command(c) => EnvTokens(c.env, order(c.env)) + c.argv + RedirectTokens(c)
    case Chdir(dir) => ["cd"] + if dir.Some? then [dir.value] else []
    case _ => []
  }

  ghost function PairsTokens(ns: seq<Node>, order: Order): seq<string>
    requires IsOrder(order)
  {
    if |ns| < 2 then [] else
      var k := |ns| - 2;
      PairsTokens(ns[..k], order) + (NodeTokens(ns[k], order) + [OpToken(ns[k + 1])])
  }

  ghost function Spelled(ns: seq<Node>, order: Order): seq<string>
    requires IsOrder(order) && ns != []
  {
    PairsTokens(ns[..|ns| - 1], order) + NodeTokens(ns[|ns| - 1], order)
  }

  // ---------- reading a spelling back ----------

  lemma {:induction false} NoEquals(s: string, n: nat)
    requires n <= |s| && (n < |s| ==> s[n] == '=') && forall i :: 0 <= i < n ==> s[i] != '='
    ensures BeforeEquals(s) == n
  {
    if s != [] && s[0] != '=' {
      NoEquals(s[1..], n - 1);
    }
  }

  lemma AssignmentMatches(k: string, v: string)
    requires IsName(k) && IsValue(v)
    ensures MatchEnv(k + "=" + v) == Some((k, v))
  {
    var token := k + "=" + v;
    forall i | 0 <= i < |k| ensures token[i] != '=' {
      assert IsWordChar(k[i]);
    }
    NoEquals(token, |k|);
    assert token[..|k|] == k && token[|k| + 1..] == v;
  }

  ghost function Restrict(m: map<string, string>, ks: seq<string>): map<string, string> {
    map k | k in m && k in ks :: m[k]
  }

  /** Reading the assignments of ks into an empty environment. */
  lemma {:induction false} ReadEnv(p: seq<Node>, m: map<string, string>, ks: seq<string>)
    requires forall k :: k in m ==> IsName(k) && IsValue(m[k])
    requires forall i :: 0 <= i < |ks| ==> ks[i] in m
    ensures ReadAll(Begin(map[], p), EnvTokens(m, ks)) == Some(Begin(Restrict(m, ks), p))
  {
    if ks == [] {
      assert Restrict(m, ks).Keys == {};
    } else {
      var n := |ks| - 1;
      var before := Restrict(m, ks[..n]);
      ReadEnv(p, m, ks[..n]);
      AssignmentMatches(ks[n], m[ks[n]]);
      var token := ks[n] + "=" + m[ks[n]];
      ReadAllConcat(Begin(map[], p), EnvTokens(m, ks[..n]), [token]);
      ReadOne(Begin(before, p), token);
      assert ks == ks[..n] + [ks[n]];
      assert before[ks[n] := m[ks[n]]] == Restrict(m, ks);
    }
  }

  lemma ReadOne(r: Reader, token: string)
    ensures ReadAll(r, [token]) == ReadToken(r, token)
  {
    assert [token][1..] == [];
  }

  /** Reading further arguments. */
  lemma {:induction false} ReadArguments(c: Cmd, p: seq<Node>, args: seq<string>)
    requires forall i :: 0 <= i < |args| ==> !IsOperator(args[i])
    ensures ReadAll(InCommand(c, p), args) == Some(InCommand(c.(argv := c.argv + args), p))
    decreases |args|
  {
    if args == [] {
      assert c.argv + args == c.argv;
    } else {
      var c' := c.(argv := c.argv + [args[0]]);
      assert ReadToken(InCommand(c, p), args[0]) == Some(InCommand(c', p));
      ReadArguments(c', p, args[1..]);
      assert c'.argv + args[1..] == c.argv + args;
    }
  }

  lemma ReadTwo(r: Reader, t: string, u: string)
    requires ReadToken(r, t).Some?
    ensures ReadAll(r, [t, u]) == ReadToken(ReadToken(r, t).value, u)
  {
    ReadAllConcat(r, [t], [u]);
    ReadOne(r, t);
    ReadOne(ReadToken(r, t).value, u);
    assert [t] + [u] == [t, u];
  }

  /** A command as it stands before the operator after it is read: a pipe is not spelled. */
  ghost function Unpiped(c: Cmd): Cmd {
    if c.stdout == Some(ToPipe) then c.(stdout := None) else c
  }

  lemma ReadRedirects(c: Cmd, p: seq<Node>)
    requires CommandOk(c)
    ensures ReadAll(InCommand(Cmd(c.argv, None, None, None, c.env), p), RedirectTokens(c))
      == Some(InCommand(Unpiped(c), p))
  {
    var c0 := Cmd(c.argv, None, None, None, c.env);
    var c1 := c0.(stdin := c.stdin);
    var c2 := c1.(stdout := Unpiped(c).stdout);
    var i := if c.stdin.Some? then ["<", c.stdin.value] else [];
    var o := if c.stdout.Some? && c.stdout.value.File? then [">", c.stdout.value.name] else [];
    var e := if c.stderr.None? then [] else if c.stderr.value.File? then ["2>", c.stderr.value.name] else ["2>&1"];
    assert ReadAll(InCommand(c0, p), i) == Some(InCommand(c1, p)) by {
      if c.stdin.Some? {
        ReadTwo(InCommand(c0, p), "<", c.stdin.value);
      }
    }
    assert ReadAll(InCommand(c1, p), o) == Some(InCommand(c2, p)) by {
      if o != [] {
        ReadTwo(InCommand(c1, p), ">", c.stdout.value.name);
      }
    }
    assert ReadAll(InCommand(c2, p), e) == Some(InCommand(Unpiped(c), p)) by {
      if |e| == 2 {
        ReadTwo(InCommand(c2, p), "2>", c.stderr.value.name);
      } else if |e| == 1 {
        ReadOne(InCommand(c2, p), "2>&1");
      }
    }
    ReadAllConcat(InCommand(c0, p), i, o);
    ReadAllConcat(InCommand(c0, p), i + o, e);
    assert RedirectTokens(c) == i + o + e;
  }

  /** Reading the spelling of one node leaves the reader with that node in hand. */
  ghost function Holding(n: Node, p: seq<Node>): Reader
    requires n.Command? || n.Chdir?
  {
    match n
    case Command(c) => InCommand(Unpiped(c), p)
    case Chdir(dir) => InChdir(dir, p)
  }

  lemma ReadCommand(c: Cmd, p: seq<Node>, order: Order)
    requires IsOrder(order) && CommandOk(c)
    ensures ReadAll(Begin(map[], p), NodeTokens(Command(c), order)) == Some(InCommand(Unpiped(c), p))
  {
    var ks := order(c.env);
    var r0, r1 := Begin(map[], p), Begin(c.env, p);
    assert Enumerates(ks, c.env);
    ReadEnv(p, c.env, ks);
    assert c.env == Restrict(c.env, ks);
    var c1 := Cmd([c.argv[0]], None, None, None, c.env);
    ReadOne(r1, c.argv[0]);
    ReadArguments(c1, p, c.argv[1..]);
    assert [c.argv[0]] + c.argv[1..] == c.argv;
    ReadAllConcat(r1, [c.argv[0]], c.argv[1..]);
    ReadRedirects(c, p);
    var e, r := EnvTokens(c.env, ks), RedirectTokens(c);
    ReadAllConcat(r0, e, c.argv);
    ReadAllConcat(r0, e + c.argv, r);
  }

  lemma ReadNode(n: Node, p: seq<Node>, order: Order)
    requires IsOrder(order) && (LastOk(n) || exists op :: PairOk(n, op))
    ensures n.Command? || n.Chdir?
    ensures ReadAll(Begin(map[], p), NodeTokens(n, order)) == Some(Holding(n, p))
  {
    match n
    case Command(c) => ReadCommand(c, p, order);
    case Chdir(dir) =>
      var r := Begin(map[], p);
      assert MatchEnv("cd").None?;
      if dir.Some? {
        ReadTwo(r, "cd", dir.value);
        assert NodeTokens(n, order) == ["cd", dir.value];
      } else {
        ReadOne(r, "cd");
        assert NodeTokens(n, order) == ["cd"];
      }
  }

  lemma ReadOp(n: Node, op: Node, p: seq<Node>)
    requires PairOk(n, op)
    ensures n.Command? || n.Chdir?
    ensures ReadToken(Holding(n, p), OpToken(op)) == Some(Begin(map[], p + [n, op]))
  {}

  lemma ReadPair(n: Node, op: Node, p: seq<Node>, order: Order)
    requires IsOrder(order) && PairOk(n, op)
    ensures ReadAll(Begin(map[], p), NodeTokens(n, order) + [OpToken(op)]) == Some(Begin(map[], p + [n, op]))
  {
    ReadNode(n, p, order);
    ReadOp(n, op, p);
    ReadOne(Holding(n, p), OpToken(op));
    ReadAllConcat(Begin(map[], p), NodeTokens(n, order), [OpToken(op)]);
  }

  lemma ReadOnePairMore(tokens: seq<string>, n: Node, op: Node, p: seq<Node>, order: Order)
    requires IsOrder(order) && PairOk(n, op) && ReadAll(START, tokens) == Some(Begin(map[], p))
    ensures ReadAll(START, tokens + (NodeTokens(n, order) + [OpToken(op)])) == Some(Begin(map[], p + [n, op]))
  {
    ReadPair(n, op, p, order);
    ReadAllConcat(START, tokens, NodeTokens(n, order) + [OpToken(op)]);
  }

  lemma LastTwo<T>(s: seq<T>)
    requires |s| >= 2
    ensures s[..|s| - 2] + [s[|s| - 2], s[|s| - 1]] == s
  {
  }

  lemma {:induction false} ReadPairs(ns: seq<Node>, order: Order)
    requires IsOrder(order) && PairsOk(ns)
    ensures ReadAll(START, PairsTokens(ns, order)) == Some(Begin(map[], ns))
  {
    if ns != [] {
      var k := |ns| - 2;
      LastTwo(ns);
      ReadPairs(ns[..k], order);
      ReadOnePairMore(PairsTokens(ns[..k], order), ns[k], ns[k + 1], ns[..k], order);
    }
  }

  lemma HoldingLast(n: Node, p: seq<Node>)
    requires LastOk(n)
    ensures n.Command? || n.Chdir?
    ensures Current(Holding(n, p)) == Some(n) && Holding(n, p).pipeline == p
  {}

  /** A well-formed pipeline, spelled canonically with its environment in any order, reads back
      as itself. */
  lemma RoundTrip(ns: seq<Node>, order: Order)
    requires IsOrder(order) && WellFormed(ns)
    ensures Parsed(Spelled(ns, order)) == Some(ns)
  {
    var k := |ns| - 1;
    var p, n := ns[..k], ns[k];
    assert p + [n] == ns;
    ReadPairs(p, order);
    ReadLastNode(PairsTokens(p, order), n, p, order);
  }

  lemma ReadLastNode(tokens: seq<string>, n: Node, p: seq<Node>, order: Order)
    requires IsOrder(order) && LastOk(n) && ReadAll(START, tokens) == Some(Begin(map[], p))
    ensures Parsed(tokens + NodeTokens(n, order)) == Some(p + [n])
  {
    ReadNode(n, p, order);
    ReadAllConcat(START, tokens, NodeTokens(n, order));
    HoldingLast(n, p);
  }

  // ---------- the reader as a program ----------

  datatype Mode = BEGIN | COMMAND | CHDIR | STDERR | STDOUT | STDIN

  /** The pipeline object: parse fills it token by token. */
  class Pipeline {
    var currentCommand: Option<Node>
    var pipeline: seq<Node>

    constructor ()
      ensures currentCommand == None && pipeline == []
    {
      currentCommand, pipeline := None, [];
    }

    /** The current command fits the state of the reader. */
    ghost predicate Reading(mode: Mode, env: map<string, string>)
      reads this
    {
      match mode
      case BEGIN => currentCommand.None?
      case CHDIR => currentCommand.Some? && currentCommand.value.Chdir? && env == map[]
      case _ => currentCommand.Some? && currentCommand.value.Command? && env == map[]
    }

    ghost function View(mode: Mode, env: map<string, string>): Reader
      requires Reading(mode, env)
      reads this
    {
      match mode
      case BEGIN => Begin(env, pipeline)
      case CHDIR => InChdir(currentCommand.value.dir, pipeline)
      case COMMAND => InCommand(currentCommand.value.cmd, pipeline)
      case STDERR => InStderr(currentCommand.value.cmd, pipeline)
      case STDOUT => InStdout(currentCommand.value.cmd, pipeline)
      case STDIN => InStdin(currentCommand.value.cmd, pipeline)
    }

    method CommitCommand()
      requires currentCommand.Some?
      modifies this
      ensures pipeline == old(pipeline) + [old(currentCommand).value] && currentCommand == None
    {
      pipeline := pipeline + [currentCommand.value];
      currentCommand := None;
    }

    /** Commits the current command and appends the operator after it. */
    method CommitBefore(op: Node)
      requires currentCommand.Some?
      modifies this
      ensures pipeline == old(pipeline) + [old(currentCommand).value, op] && currentCommand == None
    {
      CommitCommand();
      pipeline := pipeline + [op];
    }

    /** ok is false where Python's assertions raise; the pipeline is then left half built. */
    method Parse(tokens: seq<string>) returns (ok: bool)
      modifies this
      ensures ok <==> Parsed(tokens).Some?
      ensures ok ==> pipeline == Parsed(tokens).value
    {
      currentCommand, pipeline := None, [];
      var mode, env: map<string, string> := BEGIN, map[];
      for i := 0 to |tokens|
        invariant Reading(mode, env)
        invariant ReadAll(START, tokens) == ReadAll(View(mode, env), tokens[i..])
      {
        assert tokens[i..][1..] == tokens[i + 1..];
        ok, mode, env := Token(mode, env, tokens[i]);
        if !ok {
          return;
        }
      }
      assert tokens[|tokens|..] == [];
      ok := currentCommand.Some?;
      if ok {
        CommitCommand();
      }
    }

    method Token(mode: Mode, env: map<string, string>, token: string)
      returns (ok: bool, mode': Mode, env': map<string, string>)
      requires Reading(mode, env)
      modifies this
      ensures ok <==> ReadToken(old(View(mode, env)), token).Some?
      ensures ok ==> Reading(mode', env') && View(mode', env') == ReadToken(old(View(mode, env)), token).value
    {
      ok, mode', env' := true, mode, env;
      match mode {
        case BEGIN =>
          var m := MatchEnv(token);
          if m.Some? {
            env' := env[m.value.0 := m.value.1];
          } else if token == "cd" {
            currentCommand := Some(Chdir(None));
            ok, mode' := env == map[], CHDIR;
          } else {
            currentCommand := Some(Command(Cmd([token], None, None, None, env)));
            mode', env' := COMMAND, map[];
          }
        case COMMAND =>
          ok, mode' := TokenInCommand(token);
        case CHDIR =>
          if token == "&&" {
            CommitBefore(And);
            mode' := BEGIN;
          } else {
            ok := currentCommand.value.dir.None?;
            currentCommand := Some(Chdir(Some(token)));
          }
        case STDOUT =>
          ok, mode' := currentCommand.value.cmd.stdout.None?, COMMAND;
          currentCommand := Some(Command(currentCommand.value.cmd.(stdout := Some(File(token)))));
        case STDERR =>
          ok, mode' := currentCommand.value.cmd.stderr.None?, COMMAND;
          currentCommand := Some(Command(currentCommand.value.cmd.(stderr := Some(File(token)))));
        case STDIN =>
          ok, mode' := currentCommand.value.cmd.stdin.None?, COMMAND;
          currentCommand := Some(Command(currentCommand.value.cmd.(stdin := Some(token))));
      }
    }

    method TokenInCommand(token: string) returns (ok: bool, mode: Mode)
      requires Reading(COMMAND, map[])
      modifies this
      ensures ok <==> ReadToken(old(View(COMMAND, map[])), token).Some?
      ensures ok ==> Reading(mode, map[]) && View(mode, map[]) == ReadToken(old(View(COMMAND, map[])), token).value
    {
      ok, mode := true, COMMAND;
      var c := currentCommand.value.cmd;
      match MeaningOf(token) {
        case OUT => mode := STDOUT;
        case ERR => mode := STDERR;
        case ERR_TO_OUT =>
          ok := c.stderr.None?;
          currentCommand := Some(Command(c.(stderr := Some(ToStdout))));
        case IN => mode := STDIN;
        case PIPE =>
          ok, mode := c.stdout.None?, BEGIN;
          currentCommand := Some(Command(c.(stdout := Some(ToPipe))));
          CommitBefore(Pipe);
        case AND =>
          CommitBefore(And);
          mode := BEGIN;
        case OR =>
          CommitBefore(Or);
          mode := BEGIN;
        case WORD =>
          currentCommand := Some(Command(c.(argv := c.argv + [token])));
      }
    }
  }
}
