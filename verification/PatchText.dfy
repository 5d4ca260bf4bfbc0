/** Patch sets as text: what utils/check-style.py writes and what it reads back. */
module PatchText {
  import opened Options

  datatype Kind = SRC | DST | BOTH

  datatype Line = Line(kind: Kind, text: string)

  datatype Chunk = Chunk(srcPos: nat, dstPos: nat, lines: seq<Line>)

  datatype Patch = Patch(src: string, dst: string, chunks: seq<Chunk>)

  // ---------- numbers ----------

  predicate IsDigit(c: char) {
    '0' <= c <= '9'
  }

  predicate AllDigits(s: string) {
    forall i :: 0 <= i < |s| ==> IsDigit(s[i])
  }

  function Decimal(n: nat): (s: string)
    ensures s != "" && AllDigits(s)
  {
    if n < 10 then ['0' + n as char] else Decimal(n / 10) + ['0' + (n % 10) as char]
  }

  function ValueOf(s: string): nat
    requires AllDigits(s)
  {
    if s == "" then 0 else 10 * ValueOf(s[..|s| - 1]) + (s[|s| - 1] as nat - '0' as nat)
  }

  lemma {:induction false} DecimalValue(n: nat)
    ensures ValueOf(Decimal(n)) == n
  {
    var s := Decimal(n);
    if n < 10 {
      assert s[..|s| - 1] == "";
    } else {
      DecimalValue(n / 10);
      assert s[..|s| - 1] == Decimal(n / 10);
    }
  }

  /** How many digits a string starts with. */
  function DigitRun(s: string): (n: nat)
    ensures n <= |s| && AllDigits(s[..n])
  {
    if s != "" && IsDigit(s[0]) then 1 + DigitRun(s[1..]) else 0
  }

  // ---------- one line ----------

  function After(s: string, prefix: string): Option<string> {
    if prefix <= s then Some(s[|prefix|..]) else None
  }

  function Number(s: string): Option<(nat, string)> {
    var n := DigitRun(s);
    if n == 0 then None else Some((ValueOf(s[..n]), s[n..]))
  }

  /** The two positions of a chunk header; the counts are checked for their form only, and
      anything may follow. */
  function ChunkStart(s: string): Option<(nat, nat)> {
    var s1 :- After(s, "@@ -");
    var (srcPos, s2) :- Number(s1);
    var s3 :- After(s2, ",");
    var (_, s4) :- Number(s3);
    var s5 :- After(s4, " +");
    var (dstPos, s6) :- Number(s5);
    var s7 :- After(s6, ",");
    var (_, s8) :- Number(s7);
    var _ :- After(s8, " @@");
    Some((srcPos, dstPos))
  }

  datatype Reading =
    | FromFile(name: string)
    | ToFile(name: string)
    | Start(srcPos: nat, dstPos: nat)
    | Body(line: Line)
    | Bad

  /** A line without its line end. */
  function Clipped(s: string): string {
    if s != "" && s[|s| - 1] == '\n' then s[..|s| - 1] else s
  }

  /** What one line of the input is taken for. */
  function Read(line: string): Reading {
    var s := Clipped(line);
    var oneLine := '\n' !in s;
    if oneLine && "--- " <= s then FromFile(s[4..])
    else if oneLine && "+++ " <= s then ToFile(s[4..])
    else if ChunkStart(line).Some? then Start(ChunkStart(line).value.0, ChunkStart(line).value.1)
    else if !oneLine || s == "" then Bad
    else if s[0] == '-' then Body(Line(SRC, s[1..]))
    else if s[0] == '+' then Body(Line(DST, s[1..]))
    else if s[0] == ' ' then Body(Line(BOTH, s[1..]))
    else Bad
  }

  // ---------- reading a patch set ----------

  /** The patch that holds the chunk created last, or -1. */
  function LastChunked(ps: seq<Patch>): (k: int)
    ensures -1 <= k < |ps| && (k >= 0 ==> ps[k].chunks != [])
  {
    if ps == [] then -1
    else if ps[|ps| - 1].chunks != [] then |ps| - 1
    else LastChunked(ps[..|ps| - 1])
  }

  lemma LastChunkedAppend(ps: seq<Patch>, p: Patch)
    requires p.chunks == []
    ensures LastChunked(ps + [p]) == LastChunked(ps)
  {
    assert (ps + [p])[..|ps|] == ps;
  }

  lemma {:induction false} LastChunkedSame(ps: seq<Patch>, qs: seq<Patch>)
    requires |ps| == |qs| && forall k :: 0 <= k < |ps| ==> (ps[k].chunks == [] <==> qs[k].chunks == [])
    ensures LastChunked(ps) == LastChunked(qs)
    decreases |ps|
  {
    if ps != [] {
      LastChunkedSame(ps[..|ps| - 1], qs[..|qs| - 1]);
    }
  }

  function WithLine(c: Chunk, line: Line): Chunk {
    c.(lines := c.lines + [line])
  }

  function WithLastChunk(p: Patch, line: Line): Patch
    requires p.chunks != []
  {
    p.(chunks := p.chunks[..|p.chunks| - 1] + [WithLine(p.chunks[|p.chunks| - 1], line)])
  }

  lemma LastChunkedNamed(ps: seq<Patch>, name: string)
    requires ps != []
    ensures LastChunked(ps[|ps| - 1 := ps[|ps| - 1].(dst := name)]) == LastChunked(ps)
  {
    LastChunkedSame(ps, ps[|ps| - 1 := ps[|ps| - 1].(dst := name)]);
  }

  lemma LastChunkedWithLine(ps: seq<Patch>, line: Line)
    requires LastChunked(ps) >= 0
    ensures var k := LastChunked(ps); LastChunked(ps[k := WithLastChunk(ps[k], line)]) == k
  {
    var k := LastChunked(ps);
    LastChunkedSame(ps, ps[k := WithLastChunk(ps[k], line)]);
  }

  /** The patches so far after one more line; nothing if the reader raises.  A body line goes to
      the chunk created last, even when a new patch has been opened since. */
  function Taken(ps: seq<Patch>, reading: Reading): Option<seq<Patch>> {
    match reading
    case FromFile(name) => Some(ps + [Patch(name, "", [])])
    case ToFile(name) =>
      if ps == [] then None else Some(ps[|ps| - 1 := ps[|ps| - 1].(dst := name)])
    case Start(srcPos, dstPos) =>
      if ps == [] then None else
        var last := ps[|ps| - 1];
        Some(ps[|ps| - 1 := last.(chunks := last.chunks + [Chunk(srcPos, dstPos, [])])])
    case Body(l) =>
      var k := LastChunked(ps);
      if k < 0 then None else Some(ps[k := WithLastChunk(ps[k], l)])
    case Bad => None
  }

  lemma TakenBody(ps: seq<Patch>, l: Line)
    requires LastChunked(ps) >= 0
    ensures var k := LastChunked(ps); Taken(ps, Body(l)) == Some(ps[k := WithLastChunk(ps[k], l)])
  {
  }

  function ReadLine(ps: seq<Patch>, line: string): Option<seq<Patch>> {
    Taken(ps, Read(line))
  }

  function ReadAll(ps: seq<Patch>, lines: seq<string>): Option<seq<Patch>>
    decreases |lines|
  {
    if lines == [] then Some(ps) else
      var next :- ReadLine(ps, lines[0]);
      ReadAll(next, lines[1..])
  }

  lemma ReadAllStep(ps: seq<Patch>, lines: seq<string>, i: nat)
    requires i < |lines|
    ensures ReadLine(ps, lines[i]).None? ==> ReadAll(ps, lines[i..]).None?
    ensures ReadLine(ps, lines[i]).Some? ==>
      ReadAll(ps, lines[i..]) == ReadAll(ReadLine(ps, lines[i]).value, lines[i + 1..])
  {
    assert lines[i..][0] == lines[i] && lines[i..][1..] == lines[i + 1..];
  }

  function Parsed(lines: seq<string>): Option<seq<Patch>> {
    ReadAll([], lines)
  }

  // ---------- writing a patch set ----------

  function Mark(kind: Kind): char {
    match kind
    case SRC => '-'
    case DST => '+'
    case BOTH => ' '
  }

  function LineText(l: Line): string {
    [Mark(l.kind)] + l.text + "\n"
  }

  function LineTexts(ls: seq<Line>): (r: seq<string>)
    ensures |r| == |ls|
  {
    seq(|ls|, i requires 0 <= i < |ls| => LineText(ls[i]))
  }

  function OnSrc(l: Line): bool {
    l.kind != DST
  }

  function OnDst(l: Line): bool {
    l.kind != SRC
  }

  function SrcLen(ls: seq<Line>): nat {
    if ls == [] then 0 else SrcLen(ls[..|ls| - 1]) + if OnSrc(ls[|ls| - 1]) then 1 else 0
  }

  function DstLen(ls: seq<Line>): nat {
    if ls == [] then 0 else DstLen(ls[..|ls| - 1]) + if OnDst(ls[|ls| - 1]) then 1 else 0
  }

  function Header(srcPos: nat, srcLen: nat, dstPos: nat, dstLen: nat): string {
    "@@ -" + (Decimal(srcPos) + ("," + (Decimal(srcLen) +
      (" +" + (Decimal(dstPos) + ("," + (Decimal(dstLen) + (" @@" + "\n"))))))))
  }

  function ChunkTexts(c: Chunk): seq<string> {
    [Header(c.srcPos, SrcLen(c.lines), c.dstPos, DstLen(c.lines))] + LineTexts(c.lines)
  }

  function ChunksTexts(cs: seq<Chunk>): seq<string> {
    if cs == [] then [] else ChunksTexts(cs[..|cs| - 1]) + ChunkTexts(cs[|cs| - 1])
  }

  lemma ChunksTextsStep(cs: seq<Chunk>, i: nat)
    requires i < |cs|
    ensures ChunksTexts(cs[..i + 1]) == ChunksTexts(cs[..i]) + ChunkTexts(cs[i])
  {
    assert cs[..i + 1][..i] == cs[..i];
  }

  function PatchTexts(p: Patch): seq<string> {
    ["--- " + p.src + "\n", "+++ " + p.dst + "\n"] + ChunksTexts(p.chunks)
  }

  function Written(ps: seq<Patch>): seq<string> {
    if ps == [] then [] else Written(ps[..|ps| - 1]) + PatchTexts(ps[|ps| - 1])
  }

  // ---------- the round trip ----------

  ghost predicate SingleLine(s: string) {
    '\n' !in s
  }

  ghost predicate SingleLinesIn(c: Chunk) {
    forall l :: l in c.lines ==> SingleLine(l.text)
  }

  /** Names and texts hold no line end, as file names and lines of text do. */
  ghost predicate SingleLines(p: Patch) {
    && SingleLine(p.src) && SingleLine(p.dst)
    && (forall c :: c in p.chunks ==> SingleLinesIn(c))
  }

  /** Written out, the line looks like a file header. */
  predicate LooksLikeHeader(l: Line) {
    (l.kind == SRC && "-- " <= l.text) || (l.kind == DST && "++ " <= l.text)
  }

  lemma {:induction false} DigitRunOf(d: string, rest: string)
    requires AllDigits(d) && (rest != "" ==> !IsDigit(rest[0]))
    ensures DigitRun(d + rest) == |d|
  {
    if d == "" {
      assert d + rest == rest;
    } else {
      assert (d + rest)[1..] == d[1..] + rest;
      DigitRunOf(d[1..], rest);
    }
  }

  lemma NumberOf(n: nat, rest: string)
    requires rest != "" ==> !IsDigit(rest[0])
    ensures Number(Decimal(n) + rest) == Some((n, rest))
  {
    DigitRunOf(Decimal(n), rest);
    DecimalValue(n);
    assert (Decimal(n) + rest)[..|Decimal(n)|] == Decimal(n);
    assert (Decimal(n) + rest)[|Decimal(n)|..] == rest;
  }

  lemma AfterPrefix(prefix: string, rest: string)
    ensures After(prefix + rest, prefix) == Some(rest)
  {
  }

  /** A written chunk header is read as the positions it was written from. */
  lemma HeaderRead(srcPos: nat, srcLen: nat, dstPos: nat, dstLen: nat)
    ensures ChunkStart(Header(srcPos, srcLen, dstPos, dstLen)) == Some((srcPos, dstPos))
  {
    var s8 := " @@" + "\n";
    var s7 := Decimal(dstLen) + s8;
    var s6 := "," + s7;
    var s5 := Decimal(dstPos) + s6;
    var s4 := " +" + s5;
    var s3 := Decimal(srcLen) + s4;
    var s2 := "," + s3;
    var s1 := Decimal(srcPos) + s2;
    AfterPrefix("@@ -", s1);
    NumberOf(srcPos, s2);
    AfterPrefix(",", s3);
    NumberOf(srcLen, s4);
    AfterPrefix(" +", s5);
    NumberOf(dstPos, s6);
    AfterPrefix(",", s7);
    NumberOf(dstLen, s8);
    AfterPrefix(" @@", "\n");
  }

  /** The four numbers of a chunk header: position and count of the source side, then of the
      destination side. */
  ghost function HeaderNumbers(s: string): Option<(nat, nat, nat, nat)> {
    var s1 :- After(s, "@@ -");
    var (srcPos, s2) :- Number(s1);
    var s3 :- After(s2, ",");
    var (srcLen, s4) :- Number(s3);
    var s5 :- After(s4, " +");
    var (dstPos, s6) :- Number(s5);
    var s7 :- After(s6, ",");
    var (dstLen, s8) :- Number(s7);
    if s8 == " @@\n" then Some((srcPos, srcLen, dstPos, dstLen)) else None
  }

  lemma HeaderNumbersRead(srcPos: nat, srcLen: nat, dstPos: nat, dstLen: nat)
    ensures HeaderNumbers(Header(srcPos, srcLen, dstPos, dstLen)) == Some((srcPos, srcLen, dstPos, dstLen))
  {
    var s8 := " @@" + "\n";
    var s7 := Decimal(dstLen) + s8;
    var s6 := "," + s7;
    var s5 := Decimal(dstPos) + s6;
    var s4 := " +" + s5;
    var s3 := Decimal(srcLen) + s4;
    var s2 := "," + s3;
    var s1 := Decimal(srcPos) + s2;
    AfterPrefix("@@ -", s1);
    NumberOf(srcPos, s2);
    AfterPrefix(",", s3);
    NumberOf(srcLen, s4);
    AfterPrefix(" +", s5);
    NumberOf(dstPos, s6);
    AfterPrefix(",", s7);
    NumberOf(dstLen, s8);
  }

  /** How many texts start with one of two marks. */
  ghost function Starting(texts: seq<string>, mark: char, other: char): nat {
    if texts == [] then 0 else
      var t := texts[|texts| - 1];
      Starting(texts[..|texts| - 1], mark, other) + if t != "" && (t[0] == mark || t[0] == other) then 1 else 0
  }

  lemma {:induction false} CountsOfBody(ls: seq<Line>)
    ensures Starting(LineTexts(ls), '-', ' ') == SrcLen(ls) && Starting(LineTexts(ls), '+', ' ') == DstLen(ls)
    decreases |ls|
  {
    if ls != [] {
      var n := |ls| - 1;
      CountsOfBody(ls[..n]);
      assert LineTexts(ls)[..n] == LineTexts(ls[..n]);
      assert LineTexts(ls)[n] == LineText(ls[n]);
    }
  }

  /** The counts in a written header are those of the lines that are written after it: removed and
      context lines, added and context lines. */
  lemma HeaderFits(c: Chunk)
    ensures var texts := ChunkTexts(c);
      |texts| == |c.lines| + 1 &&
      HeaderNumbers(texts[0])
        == Some((c.srcPos, Starting(texts[1..], '-', ' '), c.dstPos, Starting(texts[1..], '+', ' ')))
  {
    HeaderNumbersRead(c.srcPos, SrcLen(c.lines), c.dstPos, DstLen(c.lines));
    CountsOfBody(c.lines);
    assert ChunkTexts(c)[1..] == LineTexts(c.lines);
  }

  // What each kind of written line is taken for.

  lemma WithLineEnd(s: string)
    ensures Clipped(s + "\n") == s
  {
    assert (s + "\n")[..|s|] == s;
  }

  lemma AfterMark(mark: string, name: string)
    requires |mark| == 4 && '\n' !in mark && SingleLine(name)
    ensures mark <= mark + name && (mark + name)[4..] == name && '\n' !in mark + name
  {
  }

  lemma FromRead(name: string)
    requires SingleLine(name)
    ensures Read("--- " + name + "\n") == FromFile(name)
  {
    WithLineEnd("--- " + name);
    AfterMark("--- ", name);
  }

  lemma ToRead(name: string)
    requires SingleLine(name)
    ensures Read("+++ " + name + "\n") == ToFile(name)
  {
    WithLineEnd("+++ " + name);
    AfterMark("+++ ", name);
    assert ("+++ " + name)[0] == '+';
  }

  lemma StartRead(srcPos: nat, srcLen: nat, dstPos: nat, dstLen: nat)
    ensures Read(Header(srcPos, srcLen, dstPos, dstLen)) == Start(srcPos, dstPos)
  {
    HeaderRead(srcPos, srcLen, dstPos, dstLen);
    assert Header(srcPos, srcLen, dstPos, dstLen)[0] == '@';
  }

  lemma LineRead(l: Line)
    requires SingleLine(l.text)
    ensures Read(LineText(l)) ==
      if !LooksLikeHeader(l) then Body(l)
      else if l.kind == SRC then FromFile(l.text[3..])
      else ToFile(l.text[3..])
  {
    var s := [Mark(l.kind)] + l.text;
    WithLineEnd(s);
    assert s[1..] == l.text;
    assert LineText(l)[0] != '@';
    assert "-- " <= l.text <==> "--- " <= "-" + l.text by {
      assert ("-" + l.text)[1..] == l.text;
      assert "--- "[1..] == "-- ";
    }
    assert "++ " <= l.text <==> "+++ " <= "+" + l.text by {
      assert ("+" + l.text)[1..] == l.text;
      assert "+++ "[1..] == "++ ";
    }
  }

  // ---------- what any line is taken for ----------

  /** The line is the text, with or without its line end. */
  ghost predicate Spelled(line: string, text: string) {
    line == text || line == text + "\n"
  }

  lemma ClippedIff(line: string, text: string)
    requires SingleLine(text)
    ensures Spelled(line, text) <==> Clipped(line) == text
  {
    if Clipped(line) == text && line != text {
      assert line == line[..|line| - 1] + [line[|line| - 1]];
    }
  }

  lemma AfterIff(s: string, prefix: string, rest: string)
    ensures (prefix <= s && s[|prefix|..] == rest) <==> s == prefix + rest
  {
  }

  lemma PrefixedSingle(prefix: string, rest: string)
    requires SingleLine(prefix)
    ensures SingleLine(prefix + rest) <==> SingleLine(rest)
  {
    assert forall c :: c in prefix + rest <==> c in prefix || c in rest;
  }

  /** A file header is a mark and a name on one line, and nothing else is. */
  lemma FileHeaderIff(line: string, name: string)
    ensures Read(line) == FromFile(name) <==> SingleLine(name) && Spelled(line, "--- " + name)
    ensures Read(line) == ToFile(name) <==> SingleLine(name) && Spelled(line, "+++ " + name)
  {
    var s := Clipped(line);
    PrefixedSingle("--- ", name);
    PrefixedSingle("+++ ", name);
    AfterIff(s, "--- ", name);
    AfterIff(s, "+++ ", name);
    if SingleLine(name) {
      ClippedIff(line, "--- " + name);
      ClippedIff(line, "+++ " + name);
    }
    HeadersDiffer(s);
  }

  lemma HeadersDiffer(s: string)
    ensures !("--- " <= s && "+++ " <= s)
  {
    assert "--- " <= s ==> s[0] == '-';
    assert "+++ " <= s ==> s[0] == '+';
  }

  lemma StartMark(line: string)
    requires ChunkStart(line).Some?
    ensures line[0] == '@' && Clipped(line) != "" && Clipped(line)[0] == '@'
  {
    assert "@@ -" <= line;
  }

  lemma BodyRead(line: string, l: Line)
    requires SingleLine(l.text) && !LooksLikeHeader(l) && Clipped(line) == [Mark(l.kind)] + l.text
    ensures Read(line) == Body(l)
  {
    PrefixedSingle([Mark(l.kind)], l.text);
    HeaderMark(l);
    if ChunkStart(line).Some? {
      StartMark(line);
    }
  }

  lemma BodyForm(line: string, l: Line)
    requires Read(line) == Body(l)
    ensures SingleLine(l.text) && !LooksLikeHeader(l) && Clipped(line) == [Mark(l.kind)] + l.text
  {
    var s := Clipped(line);
    assert s == [s[0]] + s[1..];
    PrefixedSingle([s[0]], s[1..]);
    HeaderMark(l);
  }

  /** A body line is a mark and a text on one line, unless that looks like a file header. */
  lemma BodyIff(line: string, l: Line)
    ensures Read(line) == Body(l) <==>
      SingleLine(l.text) && !LooksLikeHeader(l) && Spelled(line, [Mark(l.kind)] + l.text)
  {
    PrefixedSingle([Mark(l.kind)], l.text);
    if SingleLine(l.text) {
      ClippedIff(line, [Mark(l.kind)] + l.text);
    }
    if Read(line) == Body(l) {
      BodyForm(line, l);
    } else if SingleLine(l.text) && !LooksLikeHeader(l) && Clipped(line) == [Mark(l.kind)] + l.text {
      BodyRead(line, l);
    }
  }

  lemma HeaderMark(l: Line)
    ensures var text := [Mark(l.kind)] + l.text; LooksLikeHeader(l) <==> "--- " <= text || "+++ " <= text
    ensures ([Mark(l.kind)] + l.text)[1..] == l.text
  {
    var text := [Mark(l.kind)] + l.text;
    assert "--- "[1..] == "-- " && "+++ "[1..] == "++ ";
    assert "--- " <= text <==> text[0] == '-' && "-- " <= text[1..];
    assert "+++ " <= text <==> text[0] == '+' && "++ " <= text[1..];
  }

  /** A string of digits, one at least, spells the number. */
  ghost predicate Spells(s: string, n: nat) {
    s != "" && AllDigits(s) && ValueOf(s) == n
  }

  /** The line starts as a chunk header with these four numbers. */
  ghost predicate HeaderForm(line: string, a: string, b: string, c: string, d: string, rest: string) {
    line == "@@ -" + (a + ("," + (b + (" +" + (c + ("," + (d + (" @@" + rest))))))))
  }

  /** The line starts as a chunk header for the two positions, with two more numbers as counts. */
  ghost predicate StartsChunk(line: string, srcPos: nat, dstPos: nat) {
    exists a, b, c, d, rest :: HeaderForm(line, a, b, c, d, rest)
      && Spells(a, srcPos) && b != "" && AllDigits(b) && Spells(c, dstPos) && d != "" && AllDigits(d)
  }

  lemma DigitsNumber(d: string, rest: string)
    requires d != "" && AllDigits(d) && (rest != "" ==> !IsDigit(rest[0]))
    ensures Number(d + rest) == Some((ValueOf(d), rest))
  {
    DigitRunOf(d, rest);
    assert (d + rest)[..|d|] == d && (d + rest)[|d|..] == rest;
  }

  lemma FormRead(line: string, a: string, b: string, c: string, d: string, rest: string)
    requires HeaderForm(line, a, b, c, d, rest)
    requires a != "" && AllDigits(a) && b != "" && AllDigits(b) && c != "" && AllDigits(c) && d != "" && AllDigits(d)
    ensures ChunkStart(line) == Some((ValueOf(a), ValueOf(c)))
  {
    var s8 := " @@" + rest;
    var s7 := d + s8;
    var s6 := "," + s7;
    var s5 := c + s6;
    var s4 := " +" + s5;
    var s3 := b + s4;
    var s2 := "," + s3;
    var s1 := a + s2;
    AfterPrefix("@@ -", s1);
    DigitsNumber(a, s2);
    AfterPrefix(",", s3);
    DigitsNumber(b, s4);
    AfterPrefix(" +", s5);
    DigitsNumber(c, s6);
    AfterPrefix(",", s7);
    DigitsNumber(d, s8);
    AfterPrefix(" @@", rest);
  }

  lemma SplitAfter(s: string, prefix: string)
    requires After(s, prefix).Some?
    ensures s == prefix + After(s, prefix).value
  {
  }

  lemma SplitNumber(s: string) returns (d: string)
    requires Number(s).Some?
    ensures d != "" && AllDigits(d) && ValueOf(d) == Number(s).value.0 && s == d + Number(s).value.1
  {
    d := s[..DigitRun(s)];
  }

  lemma StartForm(line: string)
    requires ChunkStart(line).Some?
    ensures StartsChunk(line, ChunkStart(line).value.0, ChunkStart(line).value.1)
  {
    SplitAfter(line, "@@ -");
    var s1 := After(line, "@@ -").value;
    var a := SplitNumber(s1);
    var s2 := Number(s1).value.1;
    SplitAfter(s2, ",");
    var s3 := After(s2, ",").value;
    var b := SplitNumber(s3);
    var s4 := Number(s3).value.1;
    SplitAfter(s4, " +");
    var s5 := After(s4, " +").value;
    var c := SplitNumber(s5);
    var s6 := Number(s5).value.1;
    SplitAfter(s6, ",");
    var s7 := After(s6, ",").value;
    var d := SplitNumber(s7);
    var s8 := Number(s7).value.1;
    SplitAfter(s8, " @@");
    assert HeaderForm(line, a, b, c, d, After(s8, " @@").value);
  }

  lemma ReadStartIff(line: string, srcPos: nat, dstPos: nat)
    ensures Read(line) == Start(srcPos, dstPos) <==> ChunkStart(line) == Some((srcPos, dstPos))
  {
    if ChunkStart(line).Some? {
      StartMark(line);
    }
  }

  lemma FormStarts(line: string, srcPos: nat, dstPos: nat)
    requires StartsChunk(line, srcPos, dstPos)
    ensures ChunkStart(line) == Some((srcPos, dstPos))
  {
    var a, b, c, d, rest :| HeaderForm(line, a, b, c, d, rest)
      && Spells(a, srcPos) && b != "" && AllDigits(b) && Spells(c, dstPos) && d != "" && AllDigits(d);
    FormRead(line, a, b, c, d, rest);
  }

  /** A line starts a chunk exactly if it has the form of a header, whatever follows it. */
  lemma StartIff(line: string, srcPos: nat, dstPos: nat)
    ensures Read(line) == Start(srcPos, dstPos) <==> StartsChunk(line, srcPos, dstPos)
  {
    ReadStartIff(line, srcPos, dstPos);
    if ChunkStart(line) == Some((srcPos, dstPos)) {
      StartForm(line);
    } else if StartsChunk(line, srcPos, dstPos) {
      FormStarts(line, srcPos, dstPos);
    }
  }

  /** The lines take the reader from ps to qs. */
  ghost predicate Reads(ps: seq<Patch>, lines: seq<string>, qs: seq<Patch>) {
    ReadAll(ps, lines) == Some(qs)
  }

  lemma {:induction false} ReadsThen(ps: seq<Patch>, a: seq<string>, qs: seq<Patch>, b: seq<string>, rs: seq<Patch>)
    requires Reads(ps, a, qs) && Reads(qs, b, rs)
    ensures Reads(ps, a + b, rs)
    decreases |a|
  {
    if a == [] {
      assert a + b == b;
    } else {
      assert (a + b)[1..] == a[1..] + b;
      ReadsThen(ReadLine(ps, a[0]).value, a[1..], qs, b, rs);
    }
  }

  lemma ReadsOne(ps: seq<Patch>, line: string, qs: seq<Patch>)
    requires ReadLine(ps, line) == Some(qs)
    ensures Reads(ps, [line], qs)
  {
    assert [line][1..] == [];
  }

  /** A patch under way: its last chunk has the given lines so far. */
  ghost function Under(p: Patch, c: Chunk, ls: seq<Line>): Patch {
    p.(chunks := p.chunks + [c.(lines := ls)])
  }

  lemma ReadBody(done: seq<Patch>, p: Patch, c: Chunk, ls: seq<Line>, l: Line)
    requires SingleLine(l.text) && !LooksLikeHeader(l)
    ensures ReadLine(done + [Under(p, c, ls)], LineText(l)) == Some(done + [Under(p, c, ls + [l])])
  {
    LineRead(l);
    var q := Under(p, c, ls);
    assert q.chunks[..|q.chunks| - 1] == p.chunks;
    assert WithLastChunk(q, l) == Under(p, c, ls + [l]);
    assert (done + [q])[|done| := Under(p, c, ls + [l])] == done + [Under(p, c, ls + [l])];
  }

  ghost predicate PlainLines(ls: seq<Line>) {
    forall l :: l in ls ==> SingleLine(l.text) && !LooksLikeHeader(l)
  }

  ghost predicate Plain(c: Chunk) {
    PlainLines(c.lines)
  }

  lemma LineTextsAppend(ls: seq<Line>, l: Line)
    ensures LineTexts(ls + [l]) == LineTexts(ls) + [LineText(l)]
  {
  }

  lemma ReadOneMore(done: seq<Patch>, p: Patch, c: Chunk, ls: seq<Line>, l: Line)
    requires Reads(done + [Under(p, c, [])], LineTexts(ls), done + [Under(p, c, ls)])
    requires SingleLine(l.text) && !LooksLikeHeader(l)
    ensures Reads(done + [Under(p, c, [])], LineTexts(ls + [l]), done + [Under(p, c, ls + [l])])
  {
    ReadBody(done, p, c, ls, l);
    ReadsOne(done + [Under(p, c, ls)], LineText(l), done + [Under(p, c, ls + [l])]);
    ReadsThen(done + [Under(p, c, [])], LineTexts(ls), done + [Under(p, c, ls)], [LineText(l)],
              done + [Under(p, c, ls + [l])]);
    LineTextsAppend(ls, l);
  }

  lemma {:induction false} ReadBodies(done: seq<Patch>, p: Patch, c: Chunk, ls: seq<Line>)
    requires PlainLines(ls)
    ensures Reads(done + [Under(p, c, [])], LineTexts(ls), done + [Under(p, c, ls)])
    decreases |ls|
  {
    if ls != [] {
      ReadBodies(done, p, c, ls[..|ls| - 1]);
      ReadOneMore(done, p, c, ls[..|ls| - 1], ls[|ls| - 1]);
      assert ls[..|ls| - 1] + [ls[|ls| - 1]] == ls;
    }
  }

  lemma TakenStart(done: seq<Patch>, p: Patch, c: Chunk)
    ensures Taken(done + [p], Start(c.srcPos, c.dstPos)) == Some(done + [Under(p, c, [])])
  {
    assert (done + [p])[|done| := Under(p, c, [])] == done + [Under(p, c, [])];
  }

  lemma ReadsStart(done: seq<Patch>, p: Patch, line: string, c: Chunk)
    requires Read(line) == Start(c.srcPos, c.dstPos)
    ensures Reads(done + [p], [line], done + [Under(p, c, [])])
  {
    TakenStart(done, p, c);
    ReadsOne(done + [p], line, done + [Under(p, c, [])]);
  }

  lemma ReadChunk(done: seq<Patch>, p: Patch, c: Chunk)
    requires Plain(c)
    ensures Reads(done + [p], ChunkTexts(c), done + [p.(chunks := p.chunks + [c])])
  {
    var header := Header(c.srcPos, SrcLen(c.lines), c.dstPos, DstLen(c.lines));
    StartRead(c.srcPos, SrcLen(c.lines), c.dstPos, DstLen(c.lines));
    ReadsStart(done, p, header, c);
    ReadBodies(done, p, c, c.lines);
    ReadsThen(done + [p], [header], done + [Under(p, c, [])], LineTexts(c.lines), done + [Under(p, c, c.lines)]);
  }

  lemma {:induction false} ReadChunks(done: seq<Patch>, p: Patch, cs: seq<Chunk>)
    requires p.chunks == [] && forall c :: c in cs ==> Plain(c)
    ensures Reads(done + [p], ChunksTexts(cs), done + [p.(chunks := cs)])
    decreases |cs|
  {
    if cs != [] {
      var front, c := cs[..|cs| - 1], cs[|cs| - 1];
      assert front + [c] == cs;
      ReadChunks(done, p, front);
      ReadChunk(done, p.(chunks := front), c);
      ReadsThen(done + [p], ChunksTexts(front), done + [p.(chunks := front)], ChunkTexts(c), done + [p.(chunks := cs)]);
    }
  }

  ghost predicate PlainPatch(p: Patch) {
    SingleLine(p.src) && SingleLine(p.dst) && forall c :: c in p.chunks ==> Plain(c)
  }

  lemma ReadsNames(done: seq<Patch>, from: string, to: string, src: string, dst: string)
    requires Read(from) == FromFile(src) && Read(to) == ToFile(dst)
    ensures Reads(done, [from, to], done + [Patch(src, dst, [])])
  {
    var begun, named := Patch(src, "", []), Patch(src, dst, []);
    ReadsOne(done, from, done + [begun]);
    assert (done + [begun])[|done| := named] == done + [named];
    ReadsOne(done + [begun], to, done + [named]);
    ReadsThen(done, [from], done + [begun], [to], done + [named]);
    assert [from] + [to] == [from, to];
  }

  lemma ReadPatch(done: seq<Patch>, p: Patch)
    requires PlainPatch(p)
    ensures Reads(done, PatchTexts(p), done + [p])
  {
    var from, to := "--- " + p.src + "\n", "+++ " + p.dst + "\n";
    var named := Patch(p.src, p.dst, []);
    FromRead(p.src);
    ToRead(p.dst);
    ReadsNames(done, from, to, p.src, p.dst);
    ReadChunks(done, named, p.chunks);
    ReadsThen(done, [from, to], done + [named], ChunksTexts(p.chunks), done + [p]);
  }

  lemma {:induction false} ReadWritten(ps: seq<Patch>)
    requires forall p :: p in ps ==> PlainPatch(p)
    ensures Reads([], Written(ps), ps)
    decreases |ps|
  {
    if ps != [] {
      var front, p := ps[..|ps| - 1], ps[|ps| - 1];
      assert front + [p] == ps;
      ReadWritten(front);
      ReadPatch(front, p);
      ReadsThen([], Written(front), front, PatchTexts(p), ps);
    }
  }

  // ---------- lines that are lost ----------

  ghost function ChunkTotal(cs: seq<Chunk>): nat {
    if cs == [] then 0 else ChunkTotal(cs[..|cs| - 1]) + |cs[|cs| - 1].lines|
  }

  /** How many body lines the patches hold. */
  ghost function Total(ps: seq<Patch>): nat {
    if ps == [] then 0 else Total(ps[..|ps| - 1]) + ChunkTotal(ps[|ps| - 1].chunks)
  }

  /** How many lines are taken for body lines. */
  ghost function Bodies(lines: seq<string>): nat {
    if lines == [] then 0 else (if Read(lines[0]).Body? then 1 else 0) + Bodies(lines[1..])
  }

  lemma {:induction false} BodiesConcat(a: seq<string>, b: seq<string>)
    ensures Bodies(a + b) == Bodies(a) + Bodies(b)
    decreases |a|
  {
    if a == [] {
      assert a + b == b;
    } else {
      assert (a + b)[1..] == a[1..] + b;
      BodiesConcat(a[1..], b);
    }
  }

  lemma {:induction false} TotalUpdate(ps: seq<Patch>, k: nat, p: Patch)
    requires k < |ps|
    ensures Total(ps[k := p]) == Total(ps) - ChunkTotal(ps[k].chunks) + ChunkTotal(p.chunks)
    decreases |ps|
  {
    var qs := ps[k := p];
    if k == |ps| - 1 {
      assert qs[..|qs| - 1] == ps[..|ps| - 1];
    } else {
      assert qs[..|qs| - 1] == ps[..|ps| - 1][k := p];
      TotalUpdate(ps[..|ps| - 1], k, p);
    }
  }

  lemma TotalWithLine(p: Patch, l: Line)
    requires p.chunks != []
    ensures ChunkTotal(WithLastChunk(p, l).chunks) == ChunkTotal(p.chunks) + 1
  {
    var cs := WithLastChunk(p, l).chunks;
    assert cs[..|cs| - 1] == p.chunks[..|p.chunks| - 1];
  }

  lemma TotalAppend(ps: seq<Patch>, p: Patch)
    ensures Total(ps + [p]) == Total(ps) + ChunkTotal(p.chunks)
  {
    assert (ps + [p])[..|ps|] == ps;
  }

  lemma TakenTotal(ps: seq<Patch>, reading: Reading)
    requires Taken(ps, reading).Some?
    ensures Total(Taken(ps, reading).value) == Total(ps) + if reading.Body? then 1 else 0
  {
    match reading
    case FromFile(name) => TotalAppend(ps, Patch(name, "", []));
    case ToFile(name) => TotalUpdate(ps, |ps| - 1, ps[|ps| - 1].(dst := name));
    case Start(srcPos, dstPos) =>
      var last := ps[|ps| - 1];
      var cs := last.chunks + [Chunk(srcPos, dstPos, [])];
      assert cs[..|cs| - 1] == last.chunks;
      TotalUpdate(ps, |ps| - 1, last.(chunks := cs));
    case Body(l) =>
      var k := LastChunked(ps);
      TotalUpdate(ps, k, WithLastChunk(ps[k], l));
      TotalWithLine(ps[k], l);
  }

  lemma {:induction false} ReadAllTotal(ps: seq<Patch>, lines: seq<string>)
    requires ReadAll(ps, lines).Some?
    ensures Total(ReadAll(ps, lines).value) == Total(ps) + Bodies(lines)
    decreases |lines|
  {
    if lines != [] {
      TakenTotal(ps, Read(lines[0]));
      ReadAllTotal(ReadLine(ps, lines[0]).value, lines[1..]);
    }
  }

  ghost predicate Lookalike(ls: seq<Line>) {
    exists l :: l in ls && LooksLikeHeader(l)
  }

  ghost predicate LookalikeAmong(cs: seq<Chunk>) {
    exists c :: c in cs && Lookalike(c.lines)
  }

  ghost predicate LookalikeIn(p: Patch) {
    LookalikeAmong(p.chunks)
  }

  lemma {:induction false} LineBodies(ls: seq<Line>)
    requires forall l :: l in ls ==> SingleLine(l.text)
    ensures Bodies(LineTexts(ls)) <= |ls|
    ensures Lookalike(ls) ==> Bodies(LineTexts(ls)) < |ls|
    decreases |ls|
  {
    if ls != [] {
      var texts := LineTexts(ls);
      assert texts[1..] == LineTexts(ls[1..]);
      LineRead(ls[0]);
      LineBodies(ls[1..]);
      if Lookalike(ls) && !LooksLikeHeader(ls[0]) {
        var l :| l in ls && LooksLikeHeader(l);
        assert l in ls[1..];
      }
    }
  }

  lemma SingleLineBodies(line: string)
    ensures Bodies([line]) == if Read(line).Body? then 1 else 0
  {
    assert [line][1..] == [];
  }

  lemma ChunkBodies(c: Chunk)
    requires SingleLinesIn(c)
    ensures Bodies(ChunkTexts(c)) == Bodies(LineTexts(c.lines))
  {
    var header := Header(c.srcPos, SrcLen(c.lines), c.dstPos, DstLen(c.lines));
    StartRead(c.srcPos, SrcLen(c.lines), c.dstPos, DstLen(c.lines));
    SingleLineBodies(header);
    BodiesConcat([header], LineTexts(c.lines));
  }

  lemma LookalikeLast(cs: seq<Chunk>)
    requires cs != []
    ensures LookalikeAmong(cs) ==> LookalikeAmong(cs[..|cs| - 1]) || Lookalike(cs[|cs| - 1].lines)
  {
    if LookalikeAmong(cs) {
      var i :| 0 <= i < |cs| && Lookalike(cs[i].lines);
      if i < |cs| - 1 {
        assert cs[i] in cs[..|cs| - 1];
      }
    }
  }

  lemma {:induction false} ChunksBodies(cs: seq<Chunk>)
    requires forall c :: c in cs ==> SingleLinesIn(c)
    ensures Bodies(ChunksTexts(cs)) <= ChunkTotal(cs)
    ensures LookalikeAmong(cs) ==> Bodies(ChunksTexts(cs)) < ChunkTotal(cs)
    decreases |cs|
  {
    if cs != [] {
      var front, last := cs[..|cs| - 1], cs[|cs| - 1];
      ChunksBodies(front);
      ChunkBodies(last);
      LineBodies(last.lines);
      BodiesConcat(ChunksTexts(front), ChunkTexts(last));
      LookalikeLast(cs);
    }
  }

  lemma PatchBodies(p: Patch)
    requires SingleLines(p)
    ensures Bodies(PatchTexts(p)) == Bodies(ChunksTexts(p.chunks))
  {
    var from, to := "--- " + p.src + "\n", "+++ " + p.dst + "\n";
    FromRead(p.src);
    ToRead(p.dst);
    SingleLineBodies(from);
    SingleLineBodies(to);
    BodiesConcat([from], [to]);
    assert [from] + [to] == [from, to];
    BodiesConcat([from, to], ChunksTexts(p.chunks));
  }

  lemma {:induction false} WrittenBodies(ps: seq<Patch>)
    requires forall p :: p in ps ==> SingleLines(p)
    ensures Bodies(Written(ps)) <= Total(ps)
    ensures (exists p :: p in ps && LookalikeIn(p)) ==> Bodies(Written(ps)) < Total(ps)
    decreases |ps|
  {
    if ps != [] {
      var front, last := ps[..|ps| - 1], ps[|ps| - 1];
      WrittenBodies(front);
      PatchBodies(last);
      ChunksBodies(last.chunks);
      BodiesConcat(Written(front), PatchTexts(last));
      if (exists p :: p in ps && LookalikeIn(p)) && !LookalikeIn(last) {
        var p :| p in ps && LookalikeIn(p);
        assert p in front;
      }
    }
  }

  /** Writing and reading gives the patches back exactly when no removed line starts with "-- "
      and no added one with "++ ". */
  lemma RoundTrip(ps: seq<Patch>)
    requires forall p :: p in ps ==> SingleLines(p)
    ensures Parsed(Written(ps)) == Some(ps) <==> !exists p :: p in ps && LookalikeIn(p)
  {
    if exists p :: p in ps && LookalikeIn(p) {
      WrittenBodies(ps);
      if Parsed(Written(ps)).Some? {
        ReadAllTotal([], Written(ps));
      }
    } else {
      forall p | p in ps ensures PlainPatch(p) {
        assert !LookalikeIn(p) && !LookalikeAmong(p.chunks);
        forall c | c in p.chunks ensures Plain(c) {
          assert !Lookalike(c.lines);
        }
      }
      ReadWritten(ps);
    }
  }

  /** A removed line "-- a" is written as "--- a", which opens a new patch. */
  lemma RemovedLineLost()
    ensures
      var ps := [Patch("a", "b", [Chunk(1, 1, [Line(SRC, "-- a")])])];
      Parsed(Written(ps)) != Some(ps)
  {
    var l := Line(SRC, "-- a");
    var c := Chunk(1, 1, [l]);
    var p := Patch("a", "b", [c]);
    assert l in c.lines && LooksLikeHeader(l);
    assert c in p.chunks && Lookalike(c.lines);
    assert p in [p] && LookalikeIn(p);
    RoundTrip([p]);
  }
}
