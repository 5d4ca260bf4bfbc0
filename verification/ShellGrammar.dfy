/** The token lists that the reader of waf-tools/shellcmd.py accepts, as a grammar. */
module ShellGrammar {
  import opened Options
  import opened Sequences
  import opened ShellSyntax

  // ---------- the grammar ----------

  /** What may stand after a command name, in any order. */
  datatype Piece = Word(text: string) | From(name: string) | To(name: string) | ErrorsTo(name: string) | ErrorsToOutput

  datatype Phrase = Run(assigns: seq<string>, name: string, pieces: seq<Piece>) | Cd(dir: Option<string>)

  /** The end of a line: assignments without a command, a phrase, or a phrase and a redirection sign
      without its file. */
  datatype End = Assigns(assigns: seq<string>) | Phrased(phrase: Phrase) | Dangling(phrase: Phrase, sign: string)

  /** Phrases with the operators after them, and the end. */
  datatype Line = Line(joined: seq<(Phrase, Node)>, end: End)

  ghost function PieceTokens(p: Piece): seq<string> {
    match p
    case Word(text) => [text]
    case From(name) => ["<", name]
    case To(name) => [">", name]
    case ErrorsTo(name) => ["2>", name]
    case ErrorsToOutput => ["2>&1"]
  }

  ghost function PiecesTokens(ps: seq<Piece>): seq<string> {
    if ps == [] then [] else PiecesTokens(ps[..|ps| - 1]) + PieceTokens(ps[|ps| - 1])
  }

  ghost function PhraseTokens(ph: Phrase): seq<string> {
    match ph
    case Run(assigns, name, pieces) => assigns + [name] + PiecesTokens(pieces)
    case Cd(dir) => ["cd"] + if dir.Some? then [dir.value] else []
  }

  ghost function SignOf(op: Node): string {
    if op == Pipe then "|" else if op == And then "&&" else "||"
  }

  ghost function JoinedTokens(joined: seq<(Phrase, Node)>): seq<string> {
    if joined == [] then [] else
      var (ph, op) := joined[|joined| - 1];
      JoinedTokens(joined[..|joined| - 1]) +
        (PhraseTokens(ph) + [SignOf(op)])
  }

  ghost function EndTokens(e: End): seq<string> {
    match e
    case Assigns(assigns) => assigns
    case Phrased(ph) => PhraseTokens(ph)
    case Dangling(ph, sign) => PhraseTokens(ph) + [sign]
  }

  ghost function LineTokens(l: Line): seq<string> {
    JoinedTokens(l.joined) + EndTokens(l.end)
  }

  ghost predicate AssignsOk(assigns: seq<string>) {
    forall i :: 0 <= i < |assigns| ==> MatchEnv(assigns[i]).Some?
  }

  ghost predicate PieceOk(p: Piece) {
    p.Word? ==>
      && p.text != ">" && p.text != "2>" && p.text != "2>&1" && p.text != "<"
      && p.text != "|" && p.text != "&&" && p.text != "||"
  }

  ghost predicate IsErrors(p: Piece) {
    p.ErrorsTo? || p.ErrorsToOutput?
  }

  /** Words that are no operators, and each redirection once at most. */
  ghost predicate PiecesOk(ps: seq<Piece>) {
    && (forall i :: 0 <= i < |ps| ==> PieceOk(ps[i]))
    && (forall i, j :: 0 <= i < j < |ps| && ps[i].From? ==> !ps[j].From?)
    && (forall i, j :: 0 <= i < j < |ps| && ps[i].To? ==> !ps[j].To?)
    && (forall i, j :: 0 <= i < j < |ps| && IsErrors(ps[i]) ==> !IsErrors(ps[j]))
  }

  ghost predicate PhraseOk(ph: Phrase) {
    match ph
    case Run(assigns, name, pieces) => AssignsOk(assigns) && MatchEnv(name).None? && name != "cd" && PiecesOk(pieces)
    case Cd(dir) => dir != Some("&&")
  }

  /** Nothing pipes whose output goes to a file, and a cd is followed by && only. */
  ghost predicate JoinOk(ph: Phrase, op: Node) {
    match ph
    case Run(_, _, pieces) =>
      IsOp(op) && (op.Pipe? ==> forall i :: 0 <= i < |pieces| ==> !pieces[i].To?)
    case Cd(_) => op == And
  }

  ghost predicate JoinedOk(joined: seq<(Phrase, Node)>) {
    forall i :: 0 <= i < |joined| ==> PhraseOk(joined[i].0) && JoinOk(joined[i].0, joined[i].1)
  }

  ghost predicate EndOk(e: End) {
    match e
    case Assigns(assigns) => AssignsOk(assigns)
    case Phrased(ph) => PhraseOk(ph)
    case Dangling(ph, sign) => ph.Run? && PhraseOk(ph) && (sign == ">" || sign == "2>" || sign == "<")
  }

  ghost predicate LineOk(l: Line) {
    JoinedOk(l.joined) && EndOk(l.end)
  }

  // ---------- the pipeline of a line ----------

  /** Of several assignments to one variable the last counts. */
  ghost function EnvOf(assigns: seq<string>): map<string, string>
    requires AssignsOk(assigns)
  {
    if assigns == [] then map[] else
      var n := |assigns| - 1;
      var (k, v) := MatchEnv(assigns[n]).value;
      EnvOf(assigns[..n])[k := v]
  }

  ghost function WordsOf(ps: seq<Piece>): seq<string> {
    if ps == [] then [] else
      WordsOf(ps[..|ps| - 1]) + if ps[|ps| - 1].Word? then [ps[|ps| - 1].text] else []
  }

  ghost function InputOf(ps: seq<Piece>): Option<string> {
    if ps == [] then None
    else if ps[|ps| - 1].From? then Some(ps[|ps| - 1].name)
    else InputOf(ps[..|ps| - 1])
  }

  ghost function OutputOf(ps: seq<Piece>): Option<Sink> {
    if ps == [] then None
    else if ps[|ps| - 1].To? then Some(File(ps[|ps| - 1].name))
    else OutputOf(ps[..|ps| - 1])
  }

  ghost function ErrorsOf(ps: seq<Piece>): Option<Sink> {
    if ps == [] then None
    else if ps[|ps| - 1].ErrorsTo? then Some(File(ps[|ps| - 1].name))
    else if ps[|ps| - 1].ErrorsToOutput? then Some(ToStdout)
    else ErrorsOf(ps[..|ps| - 1])
  }

  ghost function CmdOf(ph: Phrase): Cmd
    requires ph.Run? && AssignsOk(ph.assigns)
  {
    Cmd([ph.name] + WordsOf(ph.pieces), InputOf(ph.pieces), OutputOf(ph.pieces), ErrorsOf(ph.pieces), EnvOf(ph.assigns))
  }

  ghost function NodeOf(ph: Phrase): Node
    requires PhraseOk(ph)
  {
    match ph
    case Run(_, _, _) => Command(CmdOf(ph))
    case Cd(dir) => Chdir(dir)
  }

  /** A command before a pipe writes into it. */
  ghost function NodeBefore(ph: Phrase, op: Node): Node
    requires PhraseOk(ph)
  {
    if op.Pipe? && ph.Run? then Command(CmdOf(ph).(stdout := Some(ToPipe))) else NodeOf(ph)
  }

  ghost function JoinedNodes(joined: seq<(Phrase, Node)>): seq<Node>
    requires forall i :: 0 <= i < |joined| ==> PhraseOk(joined[i].0)
  {
    if joined == [] then [] else
      var (ph, op) := joined[|joined| - 1];
      JoinedNodes(joined[..|joined| - 1]) + [NodeBefore(ph, op), op]
  }

  /** The pipeline of a line that has a command or a cd at its end; a dangling sign means nothing. */
  ghost function LineNodes(l: Line): seq<Node>
    requires LineOk(l) && !l.end.Assigns?
  {
    JoinedNodes(l.joined) + [NodeOf(l.end.phrase)]
  }

  /** The token list spells the pipeline. */
  ghost predicate Spells(tokens: seq<string>, ns: seq<Node>) {
    exists l :: LineOk(l) && !l.end.Assigns? && LineTokens(l) == tokens && LineNodes(l) == ns
  }

  /** A token is an assignment exactly if it is a name and a value with an equals sign between them; a
      newline may follow. */
  lemma AssignmentIff(token: string, k: string, v: string)
    ensures MatchEnv(token) == Some((k, v)) <==>
      IsName(k) && IsValue(v) && (token == k + "=" + v || token == k + "=" + v + "\n")
  {
    var n := BeforeEquals(token);
    if MatchEnv(token) == Some((k, v)) {
      var rest := token[n + 1..];
      assert token == token[..n] + "=" + rest;
      if !IsValue(rest) {
        assert rest == v + "\n";
      }
    } else if IsName(k) && IsValue(v) && token == k + "=" + v {
      AssignmentMatches(k, v);
    } else if IsName(k) && IsValue(v) && token == k + "=" + v + "\n" {
      LineEndMatches(k, v);
    }
  }

  lemma LineEndMatches(k: string, v: string)
    requires IsName(k) && IsValue(v)
    ensures MatchEnv(k + "=" + v + "\n") == Some((k, v))
  {
    var token := k + "=" + v + "\n";
    forall i | 0 <= i < |k| ensures token[i] != '=' {
      assert IsWordChar(k[i]);
    }
    NoEquals(token, |k|);
    var rest := token[|k| + 1..];
    assert token[..|k|] == k && rest == v + "\n" && rest[..|v|] == v;
    assert !IsValue(rest) by {
      assert IsSpace(rest[|v|]);
    }
  }

  // ---------- every line is read as its pipeline ----------

  /** The reader at the end of a line. */
  ghost function ReaderAt(e: End, p: seq<Node>): Reader
    requires EndOk(e)
  {
    match e
    case Assigns(assigns) => Begin(EnvOf(assigns), p)
    case Phrased(ph) => if ph.Run? then InCommand(CmdOf(ph), p) else InChdir(ph.dir, p)
    case Dangling(ph, sign) =>
      if sign == ">" then InStdout(CmdOf(ph), p)
      else if sign == "2>" then InStderr(CmdOf(ph), p)
      else InStdin(CmdOf(ph), p)
  }

  ghost function ReaderOf(l: Line): Reader
    requires LineOk(l)
  {
    ReaderAt(l.end, JoinedNodes(l.joined))
  }

  lemma ReadOn(r: Reader, a: seq<string>, x: Reader, b: seq<string>)
    requires ReadAll(r, a) == Some(x)
    ensures ReadAll(r, a + b) == ReadAll(x, b)
  {
    ReadAllConcat(r, a, b);
  }

  lemma {:induction false} ReadsAssigns(p: seq<Node>, assigns: seq<string>)
    requires AssignsOk(assigns)
    ensures ReadAll(Begin(map[], p), assigns) == Some(Begin(EnvOf(assigns), p))
  {
    if assigns != [] {
      var n := |assigns| - 1;
      ReadsAssigns(p, assigns[..n]);
      ReadOn(Begin(map[], p), assigns[..n], Begin(EnvOf(assigns[..n]), p), [assigns[n]]);
      ReadOne(Begin(EnvOf(assigns[..n]), p), assigns[n]);
      assert assigns == assigns[..n] + [assigns[n]];
    }
  }

  lemma PiecesFront(ps: seq<Piece>)
    requires PiecesOk(ps) && ps != []
    ensures var front, last := ps[..|ps| - 1], ps[|ps| - 1];
      && PiecesOk(front) && PieceOk(last)
      && (last.From? ==> InputOf(front) == None)
      && (last.To? ==> OutputOf(front) == None)
      && (IsErrors(last) ==> ErrorsOf(front) == None)
  {
    NoneOf(ps[..|ps| - 1]);
  }

  lemma {:induction false} NoneOf(ps: seq<Piece>)
    ensures InputOf(ps) == None <==> forall i :: 0 <= i < |ps| ==> !ps[i].From?
    ensures OutputOf(ps) == None <==> forall i :: 0 <= i < |ps| ==> !ps[i].To?
    ensures ErrorsOf(ps) == None <==> forall i :: 0 <= i < |ps| ==> !IsErrors(ps[i])
    ensures OutputOf(ps) != Some(ToPipe)
  {
    if ps != [] {
      NoneOf(ps[..|ps| - 1]);
    }
  }

  /** The command after some pieces. */
  ghost function Built(name: string, env: map<string, string>, ps: seq<Piece>): Cmd {
    Cmd([name] + WordsOf(ps), InputOf(ps), OutputOf(ps), ErrorsOf(ps), env)
  }

  lemma BuiltMore(name: string, env: map<string, string>, ps: seq<Piece>, q: Piece)
    ensures var c := Built(name, env, ps);
      Built(name, env, ps + [q]) == match q
        case Word(text) => c.(argv := c.argv + [text])
        case From(f) => c.(stdin := Some(f))
        case To(f) => c.(stdout := Some(File(f)))
        case ErrorsTo(f) => c.(stderr := Some(File(f)))
        case ErrorsToOutput => c.(stderr := Some(ToStdout))
  {
    assert (ps + [q])[..|ps|] == ps;
    assert [name] + (WordsOf(ps) + []) == [name] + WordsOf(ps);
    if q.Word? {
      assert [name] + (WordsOf(ps) + [q.text]) == [name] + WordsOf(ps) + [q.text];
    }
  }

  /** Reading one piece. */
  lemma ReadsPiece(c: Cmd, p: seq<Node>, q: Piece)
    requires PieceOk(q) && (q.From? ==> c.stdin == None) && (q.To? ==> c.stdout == None)
    requires IsErrors(q) ==> c.stderr == None
    ensures ReadAll(InCommand(c, p), PieceTokens(q)) == Some(InCommand(match q
        case Word(text) => c.(argv := c.argv + [text])
        case From(f) => c.(stdin := Some(f))
        case To(f) => c.(stdout := Some(File(f)))
        case ErrorsTo(f) => c.(stderr := Some(File(f)))
        case ErrorsToOutput => c.(stderr := Some(ToStdout)), p))
  {
    match q
    case Word(text) => ReadOne(InCommand(c, p), text);
    case From(f) => ReadTwo(InCommand(c, p), "<", f);
    case To(f) => ReadTwo(InCommand(c, p), ">", f);
    case ErrorsTo(f) => ReadTwo(InCommand(c, p), "2>", f);
    case ErrorsToOutput => ReadOne(InCommand(c, p), "2>&1");
  }

  lemma {:induction false} ReadsPieces(name: string, env: map<string, string>, p: seq<Node>, ps: seq<Piece>)
    requires PiecesOk(ps)
    ensures ReadAll(InCommand(Built(name, env, []), p), PiecesTokens(ps)) == Some(InCommand(Built(name, env, ps), p))
    decreases |ps|
  {
    if ps != [] {
      var front, last := ps[..|ps| - 1], ps[|ps| - 1];
      PiecesFront(ps);
      ReadsPieces(name, env, p, front);
      var c := Built(name, env, front);
      ReadOn(InCommand(Built(name, env, []), p), PiecesTokens(front), InCommand(c, p), PieceTokens(last));
      ReadsPiece(c, p, last);
      BuiltMore(name, env, front, last);
      assert ps == front + [last];
    }
  }

  lemma ReadsRun(p: seq<Node>, ph: Phrase)
    requires ph.Run? && PhraseOk(ph)
    ensures ReadAll(Begin(map[], p), PhraseTokens(ph)) == Some(InCommand(CmdOf(ph), p))
  {
    var env := EnvOf(ph.assigns);
    ReadsAssigns(p, ph.assigns);
    ReadOn(Begin(map[], p), ph.assigns, Begin(env, p), [ph.name]);
    ReadOne(Begin(env, p), ph.name);
    assert [ph.name] + [] == [ph.name];
    ReadOn(Begin(map[], p), ph.assigns + [ph.name], InCommand(Built(ph.name, env, []), p), PiecesTokens(ph.pieces));
    ReadsPieces(ph.name, env, p, ph.pieces);
  }

  lemma ReadsCd(p: seq<Node>, dir: Option<string>)
    requires dir != Some("&&")
    ensures ReadAll(Begin(map[], p), PhraseTokens(Cd(dir))) == Some(InChdir(dir, p))
  {
    assert MatchEnv("cd").None?;
    if dir.Some? {
      ReadTwo(Begin(map[], p), "cd", dir.value);
      assert PhraseTokens(Cd(dir)) == ["cd", dir.value];
    } else {
      ReadOne(Begin(map[], p), "cd");
      assert PhraseTokens(Cd(dir)) == ["cd"];
    }
  }

  lemma ReadsEnd(p: seq<Node>, e: End)
    requires EndOk(e)
    ensures ReadAll(Begin(map[], p), EndTokens(e)) == Some(ReaderAt(e, p))
  {
    match e
    case Assigns(assigns) => ReadsAssigns(p, assigns);
    case Phrased(ph) =>
      if ph.Run? {
        ReadsRun(p, ph);
      } else {
        ReadsCd(p, ph.dir);
      }
    case Dangling(ph, sign) =>
      ReadsRun(p, ph);
      ReadOn(Begin(map[], p), PhraseTokens(ph), InCommand(CmdOf(ph), p), [sign]);
      ReadOne(InCommand(CmdOf(ph), p), sign);
  }

  lemma ReadsJoin(p: seq<Node>, ph: Phrase, op: Node)
    requires PhraseOk(ph) && JoinOk(ph, op)
    ensures ReadToken(ReaderAt(Phrased(ph), p), SignOf(op)) == Some(Begin(map[], p + [NodeBefore(ph, op), op]))
  {
    if ph.Run? {
      NoneOf(ph.pieces);
    }
  }

  lemma {:induction false} ReadsJoined(joined: seq<(Phrase, Node)>)
    requires JoinedOk(joined)
    ensures ReadAll(START, JoinedTokens(joined)) == Some(Begin(map[], JoinedNodes(joined)))
  {
    if joined != [] {
      var front, last := joined[..|joined| - 1], joined[|joined| - 1];
      ReadsJoined(front);
      ReadsJoinedMore(JoinedTokens(front), JoinedNodes(front), last.0, last.1);
    }
  }

  lemma ReadsJoinedMore(tokens: seq<string>, p: seq<Node>, ph: Phrase, op: Node)
    requires PhraseOk(ph) && JoinOk(ph, op) && ReadAll(START, tokens) == Some(Begin(map[], p))
    ensures ReadAll(START, tokens + (PhraseTokens(ph) + [SignOf(op)]))
      == Some(Begin(map[], p + [NodeBefore(ph, op), op]))
  {
    ReadsEnd(p, Phrased(ph));
    ReadsJoin(p, ph, op);
    ReadOne(ReaderAt(Phrased(ph), p), SignOf(op));
    ReadOn(Begin(map[], p), PhraseTokens(ph), ReaderAt(Phrased(ph), p), [SignOf(op)]);
    ReadOn(START, tokens, Begin(map[], p), PhraseTokens(ph) + [SignOf(op)]);
  }

  lemma LineReads(l: Line)
    requires LineOk(l)
    ensures ReadAll(START, LineTokens(l)) == Some(ReaderOf(l))
  {
    var p := JoinedNodes(l.joined);
    ReadsJoined(l.joined);
    ReadsEnd(p, l.end);
    ReadOn(START, JoinedTokens(l.joined), Begin(map[], p), EndTokens(l.end));
  }

  // ---------- whatever is read is a line ----------

  lemma PiecesMore(ps: seq<Piece>, q: Piece)
    requires PiecesOk(ps) && PieceOk(q)
    requires (q.From? ==> InputOf(ps) == None) && (q.To? ==> OutputOf(ps) == None)
    requires IsErrors(q) ==> ErrorsOf(ps) == None
    ensures PiecesOk(ps + [q]) && PiecesTokens(ps + [q]) == PiecesTokens(ps) + PieceTokens(q)
  {
    NoneOf(ps);
    assert (ps + [q])[..|ps|] == ps;
  }

  /** A phrase with one piece more. */
  lemma RunMore(ph: Phrase, q: Piece, tokens: seq<string>)
    requires ph.Run? && PhraseOk(ph) && PieceOk(q) && tokens == PieceTokens(q)
    requires var c := CmdOf(ph);
      (q.From? ==> c.stdin == None) && (q.To? ==> c.stdout == None) && (IsErrors(q) ==> c.stderr == None)
    ensures var more := ph.(pieces := ph.pieces + [q]);
      && PhraseOk(more) && PhraseTokens(more) == PhraseTokens(ph) + tokens
      && CmdOf(more) == Built(ph.name, EnvOf(ph.assigns), ph.pieces + [q])
  {
    PiecesMore(ph.pieces, q);
    Regroup(ph.assigns + [ph.name], PiecesTokens(ph.pieces), tokens);
  }

  lemma JoinedMore(joined: seq<(Phrase, Node)>, ph: Phrase, op: Node)
    requires JoinedOk(joined) && PhraseOk(ph) && JoinOk(ph, op)
    ensures JoinedOk(joined + [(ph, op)])
    ensures JoinedTokens(joined + [(ph, op)]) == JoinedTokens(joined) + (PhraseTokens(ph) + [SignOf(op)])
    ensures JoinedNodes(joined + [(ph, op)]) == JoinedNodes(joined) + [NodeBefore(ph, op), op]
  {
    assert (joined + [(ph, op)])[..|joined|] == joined;
  }

  /** m is the line l with one token more. */
  ghost predicate LineMore(l: Line, token: string, m: Line)
    requires LineOk(l)
  {
    && LineOk(m) && LineTokens(m) == LineTokens(l) + [token]
    && ReadToken(ReaderOf(l), token) == Some(ReaderOf(m))
  }

  lemma AnotherAssign(l: Line, token: string)
    requires LineOk(l) && l.end.Assigns? && MatchEnv(token).Some?
    ensures LineMore(l, token, l.(end := Assigns(l.end.assigns + [token])))
  {
    assert (l.end.assigns + [token])[..|l.end.assigns|] == l.end.assigns;
  }

  lemma CommandName(l: Line, token: string)
    requires LineOk(l) && l.end.Assigns? && MatchEnv(token).None? && token != "cd"
    ensures LineMore(l, token, l.(end := Phrased(Run(l.end.assigns, token, []))))
  {
    var ph := Run(l.end.assigns, token, []);
    assert PhraseTokens(ph) == l.end.assigns + [token];
    assert CmdOf(ph).argv == [token];
  }

  lemma AfterAssigns(l: Line, token: string) returns (m: Line)
    requires LineOk(l) && l.end.Assigns? && ReadToken(ReaderOf(l), token).Some?
    ensures LineMore(l, token, m)
  {
    if MatchEnv(token).Some? {
      m := l.(end := Assigns(l.end.assigns + [token]));
      AnotherAssign(l, token);
    } else if token == "cd" {
      m := l.(end := Phrased(Cd(None)));
      if l.end.assigns != [] {
        HasAssigns(l.end.assigns);
      }
      assert LineTokens(l) == JoinedTokens(l.joined);
    } else {
      m := l.(end := Phrased(Run(l.end.assigns, token, [])));
      CommandName(l, token);
    }
  }

  lemma HasAssigns(assigns: seq<string>)
    requires AssignsOk(assigns) && assigns != []
    ensures EnvOf(assigns) != map[]
  {
    assert MatchEnv(assigns[|assigns| - 1]).value.0 in EnvOf(assigns);
  }

  /** A phrase is closed by an operator. */
  lemma AfterOperator(l: Line, op: Node) returns (m: Line)
    requires LineOk(l) && l.end.Phrased? && JoinOk(l.end.phrase, op)
    ensures LineMore(l, SignOf(op), m)
  {
    var ph := l.end.phrase;
    m := Line(l.joined + [(ph, op)], Assigns([]));
    JoinedMore(l.joined, ph, op);
    ReadsJoin(JoinedNodes(l.joined), ph, op);
    assert LineTokens(m) == JoinedTokens(l.joined) + (PhraseTokens(ph) + [SignOf(op)]);
  }

  /** A phrase takes one piece of one token. */
  lemma AfterPiece(l: Line, token: string, q: Piece) returns (m: Line)
    requires LineOk(l) && l.end.Phrased? && l.end.phrase.Run? && PieceOk(q) && PieceTokens(q) == [token]
    requires IsErrors(q) ==> CmdOf(l.end.phrase).stderr == None
    ensures LineMore(l, token, m)
  {
    var ph := l.end.phrase;
    RunMore(ph, q, [token]);
    BuiltMore(ph.name, EnvOf(ph.assigns), ph.pieces, q);
    m := l.(end := Phrased(ph.(pieces := ph.pieces + [q])));
  }

  /** A redirection sign waits for its file. */
  lemma AfterRedirection(l: Line, token: string) returns (m: Line)
    requires LineOk(l) && l.end.Phrased? && l.end.phrase.Run? && (token == ">" || token == "2>" || token == "<")
    ensures LineMore(l, token, m)
  {
    m := l.(end := Dangling(l.end.phrase, token));
  }

  lemma AfterCommand(l: Line, token: string) returns (m: Line)
    requires LineOk(l) && l.end.Phrased? && l.end.phrase.Run? && ReadToken(ReaderOf(l), token).Some?
    ensures LineMore(l, token, m)
  {
    if token == "|" || token == "&&" || token == "||" {
      NoneOf(l.end.phrase.pieces);
      m := AfterOperator(l, if token == "|" then Pipe else if token == "&&" then And else Or);
    } else if token == ">" || token == "2>" || token == "<" {
      m := AfterRedirection(l, token);
    } else {
      m := AfterPiece(l, token, if token == "2>&1" then ErrorsToOutput else Word(token));
    }
  }

  lemma AfterCd(l: Line, token: string) returns (m: Line)
    requires LineOk(l) && l.end.Phrased? && l.end.phrase.Cd? && ReadToken(ReaderOf(l), token).Some?
    ensures LineMore(l, token, m)
  {
    if token == "&&" {
      m := AfterOperator(l, And);
    } else {
      m := l.(end := Phrased(Cd(Some(token))));
    }
  }

  /** The file that a redirection sign waits for. */
  ghost function FileAfter(sign: string, name: string): Piece {
    if sign == ">" then To(name) else if sign == "2>" then ErrorsTo(name) else From(name)
  }

  lemma AfterSign(l: Line, token: string) returns (m: Line)
    requires LineOk(l) && l.end.Dangling? && ReadToken(ReaderOf(l), token).Some?
    ensures LineMore(l, token, m)
  {
    var ph, q := l.end.phrase, FileAfter(l.end.sign, token);
    RunMore(ph, q, [l.end.sign, token]);
    BuiltMore(ph.name, EnvOf(ph.assigns), ph.pieces, q);
    m := l.(end := Phrased(ph.(pieces := ph.pieces + [q])));
    assert [l.end.sign] + [token] == [l.end.sign, token];
    Regroup(PhraseTokens(ph), [l.end.sign], [token]);
    Regroup(JoinedTokens(l.joined), EndTokens(l.end), [token]);
  }

  lemma AfterToken(l: Line, token: string) returns (m: Line)
    requires LineOk(l) && ReadToken(ReaderOf(l), token).Some?
    ensures LineMore(l, token, m)
  {
    match l.end
    case Assigns(_) => m := AfterAssigns(l, token);
    case Dangling(_, _) => m := AfterSign(l, token);
    case Phrased(ph) =>
      if ph.Run? {
        m := AfterCommand(l, token);
      } else {
        m := AfterCd(l, token);
      }
  }

  /** Whatever the reader takes, it is a line. */
  lemma {:induction false} ReadIsLine(tokens: seq<string>) returns (l: Line)
    requires ReadAll(START, tokens).Some?
    ensures LineOk(l) && LineTokens(l) == tokens && ReadAll(START, tokens) == Some(ReaderOf(l))
    decreases |tokens|
  {
    if tokens == [] {
      l := Line([], Assigns([]));
    } else {
      var n := |tokens| - 1;
      var front, last := tokens[..n], tokens[n];
      assert tokens == front + [last];
      ReadAllConcat(START, front, [last]);
      l := ReadIsLine(front);
      ReadOne(ReaderOf(l), last);
      l := AfterToken(l, last);
    }
  }

  // ---------- what parse accepts ----------

  lemma EndCurrent(l: Line)
    requires LineOk(l)
    ensures Current(ReaderOf(l)) == if l.end.Assigns? then None else Some(NodeOf(l.end.phrase))
    ensures ReaderOf(l).pipeline == JoinedNodes(l.joined)
  {
  }

  /** parse returns a pipeline exactly for the token lists that spell it in the grammar, and raises on
      every other list. */
  lemma ParsedIff(tokens: seq<string>, ns: seq<Node>)
    ensures Parsed(tokens) == Some(ns) <==> Spells(tokens, ns)
  {
    if Parsed(tokens) == Some(ns) {
      var l := ReadIsLine(tokens);
      EndCurrent(l);
      assert LineNodes(l) == ns;
    }
    if Spells(tokens, ns) {
      var l :| LineOk(l) && !l.end.Assigns? && LineTokens(l) == tokens && LineNodes(l) == ns;
      LineReads(l);
      EndCurrent(l);
    }
  }
}
