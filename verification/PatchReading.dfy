/** What the patch reader of utils/check-style.py makes of any list of lines. */
module PatchReading {
  import opened Options
  import opened PatchText
  import opened Sequences

  ghost function Readings(lines: seq<string>): (rs: seq<Reading>)
    ensures |rs| == |lines|
  {
    seq(|lines|, i requires 0 <= i < |lines| => Read(lines[i]))
  }

  // ---------- which lists are read at all ----------

  ghost predicate OpensPatch(rs: seq<Reading>) {
    exists j :: 0 <= j < |rs| && rs[j].FromFile?
  }

  ghost predicate StartsChunks(rs: seq<Reading>) {
    exists j :: 0 <= j < |rs| && rs[j].Start?
  }

  /** A line that comes after the given ones is in its place. */
  ghost predicate InPlace(before: seq<Reading>, r: Reading) {
    match r
    case FromFile(_) => true
    case ToFile(_) => OpensPatch(before)
    case Start(_, _) => OpensPatch(before)
    case Body(_) => StartsChunks(before)
    case Bad => false
  }

  ghost predicate AllInPlace(rs: seq<Reading>) {
    forall i :: 0 <= i < |rs| ==> InPlace(rs[..i], rs[i])
  }

  // ---------- what a patch set shows ----------

  ghost function Bodied(ls: seq<Line>): seq<Reading> {
    seq(|ls|, i requires 0 <= i < |ls| => Body(ls[i]))
  }

  /** The chunks with their lines. */
  ghost function ChunksShown(cs: seq<Chunk>): seq<Reading> {
    if cs == [] then [] else
      var c := cs[|cs| - 1];
      ChunksShown(cs[..|cs| - 1]) + ([Start(c.srcPos, c.dstPos)] + Bodied(c.lines))
  }

  ghost function LinesShown(ps: seq<Patch>): seq<Reading> {
    if ps == [] then [] else LinesShown(ps[..|ps| - 1]) + ChunksShown(ps[|ps| - 1].chunks)
  }

  ghost function StartsShown(cs: seq<Chunk>): seq<Reading> {
    seq(|cs|, i requires 0 <= i < |cs| => Start(cs[i].srcPos, cs[i].dstPos))
  }

  /** The patches with their chunks. */
  ghost function FilesShown(ps: seq<Patch>): seq<Reading> {
    if ps == [] then [] else
      var p := ps[|ps| - 1];
      FilesShown(ps[..|ps| - 1]) + ([FromFile(p.src)] + StartsShown(p.chunks))
  }

  ghost function Names(ps: seq<Patch>): seq<(string, string)> {
    seq(|ps|, i requires 0 <= i < |ps| => (ps[i].src, ps[i].dst))
  }

  // ---------- what the lines say ----------

  /** The chunk headers and body lines. */
  ghost function ChunkLines(rs: seq<Reading>): seq<Reading> {
    if rs == [] then [] else
      var r := rs[|rs| - 1];
      ChunkLines(rs[..|rs| - 1]) + if r.Start? || r.Body? then [r] else []
  }

  /** The source file headers and chunk headers. */
  ghost function HeaderLines(rs: seq<Reading>): seq<Reading> {
    if rs == [] then [] else
      var r := rs[|rs| - 1];
      HeaderLines(rs[..|rs| - 1]) + if r.FromFile? || r.Start? then [r] else []
  }

  ghost function NamesAfter(before: seq<(string, string)>, r: Reading): seq<(string, string)> {
    match r
    case FromFile(name) => before + [(name, "")]
    case ToFile(name) => if before == [] then [] else before[..|before| - 1] + [(before[|before| - 1].0, name)]
    case _ => before
  }

  /** Each source file with the destination file named last before the next source file. */
  ghost function FileNames(rs: seq<Reading>): seq<(string, string)> {
    if rs == [] then [] else NamesAfter(FileNames(rs[..|rs| - 1]), rs[|rs| - 1])
  }

  // ---------- one line more ----------

  lemma {:induction false} ReadAllMore(ps: seq<Patch>, lines: seq<string>, line: string)
    ensures ReadAll(ps, lines + [line])
      == if ReadAll(ps, lines).None? then None else ReadLine(ReadAll(ps, lines).value, line)
    decreases |lines|
  {
    if lines == [] {
      assert [] + [line] == [line] && [line][1..] == [];
    } else {
      assert (lines + [line])[1..] == lines[1..] + [line];
      var next := ReadLine(ps, lines[0]);
      if next.Some? {
        ReadAllMore(next.value, lines[1..], line);
      }
    }
  }

  /** The patch set is what the lines say. */
  ghost predicate Says(rs: seq<Reading>, ps: seq<Patch>) {
    && LinesShown(ps) == ChunkLines(rs)
    && FilesShown(ps) == HeaderLines(rs)
    && Names(ps) == FileNames(rs)
  }

  ghost predicate Known(rs: seq<Reading>, ps: seq<Patch>) {
    && (ps != [] <==> OpensPatch(rs)) && (LastChunked(ps) >= 0 <==> StartsChunks(rs))
  }

  lemma OpenedMore(rs: seq<Reading>, r: Reading)
    ensures OpensPatch(rs + [r]) <==> OpensPatch(rs) || r.FromFile?
    ensures StartsChunks(rs + [r]) <==> StartsChunks(rs) || r.Start?
  {
    var more := rs + [r];
    assert more[|rs|] == r;
    if OpensPatch(rs) {
      var j :| 0 <= j < |rs| && rs[j].FromFile?;
      assert more[j] == rs[j];
    }
    if StartsChunks(rs) {
      var j :| 0 <= j < |rs| && rs[j].Start?;
      assert more[j] == rs[j];
    }
  }

  lemma LastChunkedStart(ps: seq<Patch>, c: Chunk)
    requires ps != []
    ensures var last := ps[|ps| - 1];
      LastChunked(ps[|ps| - 1 := last.(chunks := last.chunks + [c])]) == |ps| - 1
  {
  }

  lemma TakenKnown(rs: seq<Reading>, ps: seq<Patch>, r: Reading)
    requires Known(rs, ps)
    ensures Taken(ps, r).Some? <==> InPlace(rs, r)
    ensures Taken(ps, r).Some? ==> Known(rs + [r], Taken(ps, r).value)
  {
    OpenedMore(rs, r);
    match r
    case FromFile(name) => LastChunkedAppend(ps, Patch(name, "", []));
    case ToFile(name) =>
      if ps != [] {
        LastChunkedSame(ps, Taken(ps, r).value);
      }
    case Start(srcPos, dstPos) =>
      if ps != [] {
        LastChunkedStart(ps, Chunk(srcPos, dstPos, []));
      }
    case Body(l) =>
      if LastChunked(ps) >= 0 {
        LastChunkedWithLine(ps, l);
      }
    case Bad =>
  }

  lemma InPlaceMore(rs: seq<Reading>, r: Reading)
    ensures AllInPlace(rs + [r]) <==> AllInPlace(rs) && InPlace(rs, r)
  {
    var more := rs + [r];
    assert more[..|rs|] == rs && more[|rs|] == r;
    assert forall i :: 0 <= i < |rs| ==> more[..i] == rs[..i] && more[i] == rs[i];
  }

  /** The reader gets through exactly if every line is one of the five kinds, a destination file or a
      chunk comes after a source file, and a body line after a chunk header. */
  lemma {:induction false} ReadableIff(lines: seq<string>)
    ensures Parsed(lines).Some? <==> AllInPlace(Readings(lines))
    ensures Parsed(lines).Some? ==> Known(Readings(lines), Parsed(lines).value)
    decreases |lines|
  {
    if lines != [] {
      var front, last := lines[..|lines| - 1], lines[|lines| - 1];
      assert lines == front + [last] && Readings(lines) == Readings(front) + [Read(last)];
      ReadableIff(front);
      ReadAllMore([], front, last);
      InPlaceMore(Readings(front), Read(last));
      if Parsed(front).Some? {
        TakenKnown(Readings(front), Parsed(front).value, Read(last));
      }
    }
  }

  // ---------- the patch set is what the lines say ----------

  /** What a list shows whose last patch is p. */
  lemma WithLast(front: seq<Patch>, p: Patch)
    ensures var ps := front + [p];
      && LinesShown(ps) == LinesShown(front) + ChunksShown(p.chunks)
      && FilesShown(ps) == FilesShown(front) + ([FromFile(p.src)] + StartsShown(p.chunks))
      && Names(ps) == Names(front) + [(p.src, p.dst)]
  {
    assert (front + [p])[..|front|] == front;
  }

  /** The last patch becomes q, which shows one line more in its last chunk or chunk header. */
  lemma LastGrows(front: seq<Patch>, p: Patch, q: Patch, r: Reading, header: bool)
    requires q.src == p.src && q.dst == p.dst && ChunksShown(q.chunks) == ChunksShown(p.chunks) + [r]
    requires StartsShown(q.chunks) == StartsShown(p.chunks) + if header then [r] else []
    ensures var ps, qs := front + [p], front + [q];
      && LinesShown(qs) == LinesShown(ps) + [r]
      && FilesShown(qs) == FilesShown(ps) + (if header then [r] else [])
      && Names(qs) == Names(ps)
  {
    WithLast(front, p);
    WithLast(front, q);
    Regroup(LinesShown(front), ChunksShown(p.chunks), [r]);
    Regroup([FromFile(p.src)], StartsShown(p.chunks), if header then [r] else []);
    Regroup(FilesShown(front), [FromFile(p.src)] + StartsShown(p.chunks), if header then [r] else []);
  }

  lemma LastOf(ps: seq<Patch>, q: Patch)
    requires ps != []
    ensures ps[|ps| - 1 := q] == ps[..|ps| - 1] + [q] && ps == ps[..|ps| - 1] + [ps[|ps| - 1]]
  {
  }

  lemma PatchOpened(ps: seq<Patch>, name: string)
    ensures var qs := ps + [Patch(name, "", [])];
      && LinesShown(qs) == LinesShown(ps) && FilesShown(qs) == FilesShown(ps) + [FromFile(name)]
      && Names(qs) == Names(ps) + [(name, "")]
  {
    assert (ps + [Patch(name, "", [])])[..|ps|] == ps;
  }

  lemma PatchNamed(ps: seq<Patch>, name: string)
    requires ps != []
    ensures var n := |ps| - 1; var qs := ps[n := ps[n].(dst := name)];
      && LinesShown(qs) == LinesShown(ps) && FilesShown(qs) == FilesShown(ps)
      && Names(qs) == Names(ps)[..n] + [(Names(ps)[n].0, name)]
  {
    var n := |ps| - 1;
    var q := ps[n].(dst := name);
    LastOf(ps, q);
    WithLast(ps[..n], ps[n]);
    WithLast(ps[..n], q);
  }

  lemma ChunkShown(cs: seq<Chunk>, c: Chunk)
    requires c.lines == []
    ensures ChunksShown(cs + [c]) == ChunksShown(cs) + [Start(c.srcPos, c.dstPos)]
    ensures StartsShown(cs + [c]) == StartsShown(cs) + [Start(c.srcPos, c.dstPos)]
  {
    assert (cs + [c])[..|cs|] == cs && Bodied(c.lines) == [];
  }

  lemma ChunkStarted(ps: seq<Patch>, c: Chunk)
    requires ps != [] && c.lines == []
    ensures var n := |ps| - 1; var qs := ps[n := ps[n].(chunks := ps[n].chunks + [c])];
      && LinesShown(qs) == LinesShown(ps) + [Start(c.srcPos, c.dstPos)]
      && FilesShown(qs) == FilesShown(ps) + [Start(c.srcPos, c.dstPos)]
      && Names(qs) == Names(ps)
  {
    var p := ps[|ps| - 1];
    var q := p.(chunks := p.chunks + [c]);
    ChunkShown(p.chunks, c);
    LastOf(ps, q);
    LastGrows(ps[..|ps| - 1], p, q, Start(c.srcPos, c.dstPos), true);
  }

  lemma ChunkExtended(p: Patch, l: Line)
    requires p.chunks != []
    ensures var q := WithLastChunk(p, l);
      && ChunksShown(q.chunks) == ChunksShown(p.chunks) + [Body(l)] && StartsShown(q.chunks) == StartsShown(p.chunks)
      && q.src == p.src && q.dst == p.dst
  {
    var n := |p.chunks| - 1;
    var c, q := p.chunks[n], WithLastChunk(p, l);
    assert q.chunks[..n] == p.chunks[..n] && q.chunks[n] == WithLine(c, l);
    assert Bodied(c.lines + [l]) == Bodied(c.lines) + [Body(l)];
  }

  /** The line goes to the chunk that was started last, even if patches were opened since. */
  lemma {:induction false} LineAdded(ps: seq<Patch>, l: Line)
    requires LastChunked(ps) >= 0
    ensures var k := LastChunked(ps); var qs := ps[k := WithLastChunk(ps[k], l)];
      && LinesShown(qs) == LinesShown(ps) + [Body(l)] && FilesShown(qs) == FilesShown(ps) && Names(qs) == Names(ps)
    decreases |ps|
  {
    var n, k := |ps| - 1, LastChunked(ps);
    var q := WithLastChunk(ps[k], l);
    ChunkExtended(ps[k], l);
    if k == n {
      LastOf(ps, q);
      assert StartsShown(q.chunks) == StartsShown(ps[k].chunks) + [];
      LastGrows(ps[..n], ps[k], q, Body(l), false);
    } else {
      LineAdded(ps[..n], l);
      AddedBefore(ps, k, q, l);
    }
  }

  lemma AddedBefore(ps: seq<Patch>, k: nat, q: Patch, l: Line)
    requires k < |ps| - 1 && ps[|ps| - 1].chunks == []
    requires var front := ps[..|ps| - 1]; var more := front[k := q];
      && LinesShown(more) == LinesShown(front) + [Body(l)]
      && FilesShown(more) == FilesShown(front) && Names(more) == Names(front)
    ensures var qs := ps[k := q];
      && LinesShown(qs) == LinesShown(ps) + [Body(l)] && FilesShown(qs) == FilesShown(ps) && Names(qs) == Names(ps)
  {
    var n, qs := |ps| - 1, ps[k := q];
    assert qs[..n] == ps[..n][k := q] && qs[n] == ps[n];
    assert Names(qs) == Names(qs[..n]) + [Names(ps)[n]] && Names(ps) == Names(ps[..n]) + [Names(ps)[n]];
  }

  lemma LinesMore(rs: seq<Reading>, r: Reading)
    ensures ChunkLines(rs + [r]) == ChunkLines(rs) + if r.Start? || r.Body? then [r] else []
    ensures HeaderLines(rs + [r]) == HeaderLines(rs) + if r.FromFile? || r.Start? then [r] else []
  {
    assert (rs + [r])[..|rs|] == rs;
  }

  lemma NamesMore(rs: seq<Reading>, r: Reading)
    ensures FileNames(rs + [r]) == NamesAfter(FileNames(rs), r)
  {
    assert (rs + [r])[..|rs|] == rs;
  }

  lemma TakenSays(rs: seq<Reading>, ps: seq<Patch>, r: Reading)
    requires Says(rs, ps) && Taken(ps, r).Some?
    ensures Says(rs + [r], Taken(ps, r).value)
  {
    LinesMore(rs, r);
    NamesMore(rs, r);
    match r
    case FromFile(name) => PatchOpened(ps, name);
    case ToFile(name) => PatchNamed(ps, name);
    case Start(srcPos, dstPos) => ChunkStarted(ps, Chunk(srcPos, dstPos, []));
    case Body(l) => LineAdded(ps, l);
  }

  /** The patch set has the chunk headers and body lines of the input, in their order; its patches have
      the source files and chunks in their order, and the names as given last. */
  lemma {:induction false} ParsedSays(lines: seq<string>)
    requires Parsed(lines).Some?
    ensures Says(Readings(lines), Parsed(lines).value)
    decreases |lines|
  {
    if lines != [] {
      var front, last := lines[..|lines| - 1], lines[|lines| - 1];
      assert lines == front + [last] && Readings(lines) == Readings(front) + [Read(last)];
      ReadAllMore([], front, last);
      ParsedSays(front);
      TakenSays(Readings(front), Parsed(front).value, Read(last));
    }
  }

  // ---------- and nothing else says the same ----------

  ghost predicate Heads(r: Reading, file: bool) {
    if file then r.FromFile? else r.Start?
  }

  /** Two lists that end with the same kind of header and its followers agree in all parts. */
  lemma SplitAtHead(a: seq<Reading>, x: Reading, s: seq<Reading>,
                    b: seq<Reading>, y: Reading, t: seq<Reading>, file: bool)
    requires a + ([x] + s) == b + ([y] + t) && Heads(x, file) && Heads(y, file)
    requires forall i :: 0 <= i < |s| ==> !Heads(s[i], file)
    requires forall i :: 0 <= i < |t| ==> !Heads(t[i], file)
    ensures a == b && x == y && s == t
  {
    var all := a + ([x] + s);
    assert all[|a|] == x && all[|b|] == y;
    assert forall i :: |a| < i < |all| ==> all[i] == s[i - |a| - 1];
    assert forall i :: |b| < i < |all| ==> all[i] == t[i - |b| - 1];
    assert |a| == |b|;
    assert all[..|a|] == a && all[..|b|] == b;
    assert all[|a| + 1..] == s && all[|b| + 1..] == t;
  }

  /** Given how many chunks there are, a list shows one list of chunks only. */
  lemma {:induction false} SameChunks(a: seq<Reading>, cs: seq<Chunk>, b: seq<Reading>, ds: seq<Chunk>)
    requires a + ChunksShown(cs) == b + ChunksShown(ds) && |cs| == |ds|
    ensures a == b && cs == ds
    decreases |cs|
  {
    if cs == [] {
      assert a + [] == a && b + [] == b;
    } else {
      var n := |cs| - 1;
      var c, d := cs[n], ds[n];
      var x, y := Start(c.srcPos, c.dstPos), Start(d.srcPos, d.dstPos);
      Regroup(a, ChunksShown(cs[..n]), [x] + Bodied(c.lines));
      Regroup(b, ChunksShown(ds[..n]), [y] + Bodied(d.lines));
      SplitAtHead(a + ChunksShown(cs[..n]), x, Bodied(c.lines), b + ChunksShown(ds[..n]), y, Bodied(d.lines), false);
      SameBodies(c.lines, d.lines);
      SameChunks(a, cs[..n], b, ds[..n]);
      assert cs == cs[..n] + [c] && ds == ds[..n] + [d];
    }
  }

  lemma SameBodies(ls: seq<Line>, ms: seq<Line>)
    requires Bodied(ls) == Bodied(ms)
    ensures ls == ms
  {
    assert |ls| == |Bodied(ls)| == |Bodied(ms)| == |ms|;
    forall i | 0 <= i < |ls| ensures ls[i] == ms[i] {
      assert Bodied(ls)[i] == Body(ls[i]) && Bodied(ms)[i] == Body(ms[i]);
    }
  }

  lemma {:induction false} SameCounts(ps: seq<Patch>, qs: seq<Patch>)
    requires FilesShown(ps) == FilesShown(qs) && |ps| == |qs|
    ensures forall i :: 0 <= i < |ps| ==> |ps[i].chunks| == |qs[i].chunks|
    decreases |ps|
  {
    if ps != [] {
      var n := |ps| - 1;
      SplitAtHead(FilesShown(ps[..n]), FromFile(ps[n].src), StartsShown(ps[n].chunks),
                  FilesShown(qs[..n]), FromFile(qs[n].src), StartsShown(qs[n].chunks), true);
      assert |StartsShown(ps[n].chunks)| == |ps[n].chunks| && |StartsShown(qs[n].chunks)| == |qs[n].chunks|;
      SameCounts(ps[..n], qs[..n]);
    }
  }

  lemma {:induction false} SamePatches(ps: seq<Patch>, qs: seq<Patch>)
    requires |ps| == |qs| && Names(ps) == Names(qs) && LinesShown(ps) == LinesShown(qs)
    requires forall i :: 0 <= i < |ps| ==> |ps[i].chunks| == |qs[i].chunks|
    ensures ps == qs
    decreases |ps|
  {
    if ps != [] {
      var n := |ps| - 1;
      SameChunks(LinesShown(ps[..n]), ps[n].chunks, LinesShown(qs[..n]), qs[n].chunks);
      assert Names(ps[..n]) == Names(ps)[..n] && Names(qs[..n]) == Names(qs)[..n];
      assert Names(ps)[n] == (ps[n].src, ps[n].dst) && Names(qs)[n] == (qs[n].src, qs[n].dst);
      SamePatches(ps[..n], qs[..n]);
      assert ps == ps[..n] + [ps[n]] && qs == qs[..n] + [qs[n]];
    }
  }

  lemma SaysOnce(rs: seq<Reading>, ps: seq<Patch>, qs: seq<Patch>)
    requires Says(rs, ps) && Says(rs, qs)
    ensures ps == qs
  {
    assert |ps| == |Names(ps)| == |Names(qs)| == |qs|;
    SameCounts(ps, qs);
    SamePatches(ps, qs);
  }

  /** Reading gives a patch set exactly if every line is in its place and the patch set is what the
      lines say. */
  lemma ParsedIff(lines: seq<string>, ps: seq<Patch>)
    ensures Parsed(lines) == Some(ps) <==> AllInPlace(Readings(lines)) && Says(Readings(lines), ps)
  {
    ReadableIff(lines);
    if Parsed(lines).Some? {
      ParsedSays(lines);
      if Says(Readings(lines), ps) {
        SaysOnce(Readings(lines), ps, Parsed(lines).value);
      }
    }
  }
}
