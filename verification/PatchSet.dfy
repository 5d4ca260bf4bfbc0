/** The patch, chunk and line objects of utils/check-style.py: reading them, writing them, and the
    rewrite that changes lines through the lists src() and dst(), which share objects. */
module PatchSet {
  import opened Options
  import T = PatchText
  import W = Whitespace

  class PatchChunkLine {
    var kind: T.Kind
    var text: string
    // The chunk that holds the line, and where.
    ghost var owner: PatchChunk?
    ghost var place: nat

    constructor SetSrc(line: string)
      ensures View() == T.Line(T.SRC, line) && owner == null
    {
      kind, text, owner := T.SRC, line, null;
    }

    constructor SetDst(line: string)
      ensures View() == T.Line(T.DST, line) && owner == null
    {
      kind, text, owner := T.DST, line, null;
    }

    constructor SetBoth(line: string)
      ensures View() == T.Line(T.BOTH, line) && owner == null
    {
      kind, text, owner := T.BOTH, line, null;
    }

    function View(): T.Line
      reads this
    {
      T.Line(kind, text)
    }

    method AppendToLine(s: string)
      modifies this`text
      ensures text == old(text) + s
    {
      text := text + s;
    }
  }

  function Lines(ls: seq<PatchChunkLine>): (r: seq<T.Line>)
    reads ls
    ensures |r| == |ls|
  {
    seq(|ls|, i requires 0 <= i < |ls| reads ls => ls[i].View())
  }

  /** The objects at the given positions. */
  ghost predicate Picks(ls: seq<PatchChunkLine>, objects: seq<PatchChunkLine>, positions: seq<nat>) {
    && |objects| == |positions| && W.Positions(positions, |ls|)
    && forall k :: 0 <= k < |objects| ==> objects[k] == ls[positions[k]]
  }

  class PatchChunk {
    const srcPos: nat
    const dstPos: nat
    var lines: seq<PatchChunkLine>
    // The patch that holds the chunk, and where.
    ghost var owner: Patch?
    ghost var place: nat

    constructor (srcPos: nat, dstPos: nat)
      ensures this.srcPos == srcPos && this.dstPos == dstPos && lines == [] && owner == null
    {
      this.srcPos, this.dstPos, lines, owner := srcPos, dstPos, [], null;
    }

    /** Different lines, which no other chunk holds. */
    ghost predicate Valid()
      reads this, lines`owner, lines`place
    {
      forall i :: 0 <= i < |lines| ==> lines[i].owner == this && lines[i].place == i
    }

    function View(): T.Chunk
      reads this, lines
    {
      T.Chunk(srcPos, dstPos, Lines(lines))
    }

    method AddLine(line: PatchChunkLine)
      modifies this`lines
      ensures lines == old(lines) + [line]
      ensures View() == T.WithLine(old(View()), old(line.View()))
    {
      lines := lines + [line];
    }

    /** Records that the last line is this chunk's own. */
    ghost method OwnLast(line: PatchChunkLine)
      requires lines != [] && lines[|lines| - 1] == line && line.owner == null
      requires forall i :: 0 <= i < |lines| - 1 ==> lines[i].owner == this && lines[i].place == i
      modifies line`owner, line`place
      ensures Valid() && View() == old(View())
    {
      line.owner, line.place := this, |lines| - 1;
    }

    method Src() returns (src: seq<PatchChunkLine>)
      ensures Picks(lines, src, W.Sources(Lines(lines)))
    {
      src := [];
      for i := 0 to |lines|
        invariant Picks(lines, src, W.Sources(Lines(lines)[..i]))
      {
        assert Lines(lines)[..i + 1][..i] == Lines(lines)[..i];
        if T.OnSrc(lines[i].View()) {
          src := src + [lines[i]];
        }
      }
      assert Lines(lines)[..|lines|] == Lines(lines);
    }

    method Dst() returns (dst: seq<PatchChunkLine>)
      ensures Picks(lines, dst, W.Targets(Lines(lines)))
    {
      dst := [];
      for i := 0 to |lines|
        invariant Picks(lines, dst, W.Targets(Lines(lines)[..i]))
      {
        assert Lines(lines)[..i + 1][..i] == Lines(lines)[..i];
        if T.OnDst(lines[i].View()) {
          dst := dst + [lines[i]];
        }
      }
      assert Lines(lines)[..|lines|] == Lines(lines);
    }

    method WriteTexts() returns (out: seq<string>)
      ensures out == T.ChunkTexts(View())
    {
      var src := Src();
      var dst := Dst();
      out := [T.Header(srcPos, |src|, dstPos, |dst|)];
      for i := 0 to |lines|
        invariant out == [T.Header(srcPos, |src|, dstPos, |dst|)] + T.LineTexts(Lines(lines)[..i])
      {
        out := out + [T.LineText(lines[i].View())];
        assert Lines(lines)[..i + 1] == Lines(lines)[..i] + [lines[i].View()];
        T.LineTextsAppend(Lines(lines)[..i], lines[i].View());
      }
      assert Lines(lines)[..|lines|] == Lines(lines);
    }

    /** The header, whose counts are those of the lines after it, and the lines. */
    method Write() returns (out: seq<string>)
      ensures out == T.ChunkTexts(View())
      ensures |out| == |lines| + 1 && T.HeaderNumbers(out[0])
        == Some((srcPos, T.Starting(out[1..], '-', ' '), dstPos, T.Starting(out[1..], '+', ' ')))
    {
      out := WriteTexts();
      T.HeaderFits(View());
    }

    /** One comparison: the lines s and d may be the same object, and d may be on the source side
        as well. */
    method RestoreBlank(s: PatchChunkLine, d: PatchChunkLine, ghost i: nat, ghost j: nat)
      requires Valid() && i < |lines| && j < |lines| && lines[i] == s && lines[j] == d
      modifies d`text
      ensures Valid() && Lines(lines) == W.Step(old(Lines(lines)), i, j)
    {
      if W.LostBlank(s.text, d.text) {
        d.AppendToLine([s.text[|s.text| - 1]]);
      }
      assert forall k :: 0 <= k < |lines| && k != j ==> lines[k].View() == old(lines[k].View());
    }

    /** What the lines show, as long as they are the chunk's own. */
    ghost function Showing(): Option<seq<T.Line>>
      reads this, lines
    {
      if Valid() then Some(Lines(lines)) else None
    }

    /** Line k of one side is compared with line k of the other. */
    method CompareAt(k: nat, src: seq<PatchChunkLine>, dst: seq<PatchChunkLine>, ghost before: seq<T.Line>,
                     ghost sources: seq<nat>, ghost targets: seq<nat>)
      requires Picks(lines, src, sources) && Picks(lines, dst, targets) && k < |src| && k < |dst|
      requires |before| == |lines| && Showing() == Some(W.Stage(before, sources, targets, k))
      modifies lines`text
      ensures Showing() == Some(W.Stage(before, sources, targets, k + 1))
    {
      RestoreBlank(src[k], dst[k], sources[k], targets[k]);
    }

    method CompareAll(src: seq<PatchChunkLine>, dst: seq<PatchChunkLine>, ghost before: seq<T.Line>,
                      ghost sources: seq<nat>, ghost targets: seq<nat>) returns (k: nat)
      requires Picks(lines, src, sources) && Picks(lines, dst, targets)
      requires |before| == |lines| && Showing() == Some(before)
      modifies lines`text
      ensures k <= |src| && k <= |dst| && (k == |src| || k == |dst|)
      ensures Showing() == Some(W.Stage(before, sources, targets, k))
    {
      k := 0;
      while k < |src| && k < |dst|
        invariant k <= |src| && k <= |dst| && Showing() == Some(W.Stage(before, sources, targets, k))
        decreases |src| - k
      {
        CompareAt(k, src, dst, before, sources, targets);
        k := k + 1;
      }
    }

    /** Compares each source line with the destination line at the same index and gives back a lost
        last blank.  Not ok if the destination side is too short: then dst[k] raises, which ends
        the whole rewrite. */
    method RestoreBlanks() returns (ok: bool)
      requires Valid()
      modifies lines`text
      ensures Showing() == Some(W.Rewritten(old(Lines(lines))))
      ensures ok == W.GetsThrough(old(Lines(lines)))
    {
      ghost var before := Lines(lines);
      var src := Src();
      var dst := Dst();
      var k := CompareAll(src, dst, before, W.Sources(before), W.Targets(before));
      // With source lines left, dst[k] raises an IndexError.
      ok := k == |src|;
    }
  }

  function Chunks(cs: seq<PatchChunk>): (r: seq<T.Chunk>)
    reads cs, Held(cs)
    ensures |r| == |cs| && forall i {:trigger r[i]} :: 0 <= i < |cs| ==> (HeldHas(cs, i); r[i] == cs[i].View())
  {
    if cs == [] then [] else
      HeldHas(cs, |cs| - 1);
      Chunks(cs[..|cs| - 1]) + [cs[|cs| - 1].View()]
  }

  /** The lines that the chunks hold. */
  ghost function Held(cs: seq<PatchChunk>): set<PatchChunkLine>
    reads cs
  {
    set c, l | c in cs && l in c.lines :: l
  }

  lemma HeldHas(cs: seq<PatchChunk>, i: nat)
    requires i < |cs|
    ensures forall l :: l in cs[i].lines ==> l in Held(cs)
  {
    assert cs[i] in cs;
  }

  class Patch {
    var src: string
    var dst: string
    var chunks: seq<PatchChunk>
    // Where the patch stands in its patch set.
    ghost var place: nat

    constructor ()
      ensures src == dst == "" && chunks == []
    {
      src, dst, chunks := "", "", [];
    }

    /** Different chunks, which no other patch holds. */
    ghost predicate Valid()
      reads this, chunks, Held(chunks)
    {
      forall i :: 0 <= i < |chunks| ==>
        chunks[i].owner == this && chunks[i].place == i && (HeldHas(chunks, i); chunks[i].Valid())
    }

    function View(): T.Patch
      reads this, chunks, Held(chunks)
    {
      T.Patch(src, dst, Chunks(chunks))
    }

    method AddChunk(chunk: PatchChunk)
      requires Valid() && chunk.owner == null && chunk.lines == []
      modifies this`chunks, chunk`owner, chunk`place
      ensures Valid() && chunks == old(chunks) + [chunk]
      ensures Chunks(chunks) == old(Chunks(chunks)) + [T.Chunk(chunk.srcPos, chunk.dstPos, [])]
    {
      chunks := chunks + [chunk];
      chunk.owner, chunk.place := this, |chunks| - 1;
      assert forall i :: 0 <= i < |chunks| - 1 ==> chunks[i].View() == old(chunks[i].View());
    }

    method WriteChunk(i: nat, ghost all: seq<T.Chunk>) returns (texts: seq<string>)
      requires i < |chunks| && Chunks(chunks) == all
      ensures texts == T.ChunkTexts(all[i]) && Chunks(chunks) == all
    {
      texts := chunks[i].Write();
    }

    method WriteChunks() returns (out: seq<string>)
      ensures out == T.ChunksTexts(Chunks(chunks))
    {
      ghost var all := Chunks(chunks);
      out := [];
      for i := 0 to |chunks|
        invariant Chunks(chunks) == all && out == T.ChunksTexts(all[..i])
      {
        var texts := WriteChunk(i, all);
        out := out + texts;
        T.ChunksTextsStep(all, i);
      }
      assert all[..|chunks|] == all;
    }

    method Write() returns (out: seq<string>)
      ensures out == T.PatchTexts(View())
    {
      var body := WriteChunks();
      out := ["--- " + src + "\n", "+++ " + dst + "\n"] + body;
    }

    /** Rewrites one chunk; the others share no line with it. */
    method RestoreChunk(i: nat) returns (ok: bool)
      requires Valid() && i < |chunks|
      modifies chunks[i].lines`text
      ensures Valid()
      ensures Chunks(chunks) == old(Chunks(chunks))[i := W.RewrittenChunk(old(chunks[i].View()))]
      ensures ok == W.GetsThrough(old(chunks[i].View()).lines)
    {
      ok := chunks[i].RestoreBlanks();
      assert forall k :: 0 <= k < |chunks| && k != i ==> chunks[k].View() == old(chunks[k].View());
    }

    /** The chunk's lines are among the given ones. */
    ghost predicate Within(held: set<PatchChunkLine>)
      reads this, chunks
    {
      forall i, l :: 0 <= i < |chunks| && l in chunks[i].lines ==> l in held
    }

    /** The chunks have been rewritten up to chunk i, without a stop. */
    ghost predicate Through(before: seq<T.Chunk>, i: nat)
      reads this, chunks, Held(chunks)
    {
      && Valid() && i <= |chunks| == |before|
      && Chunks(chunks) == W.Splice(before, W.EachChunk(before), i)
    }

    method RestoreNext(i: nat, ghost before: seq<T.Chunk>) returns (ok: bool)
      requires i < |chunks| && Through(before, i)
      modifies chunks[i].lines`text
      ensures Through(before, i + 1)
      ensures ok == W.GetsThrough(before[i].lines)
    {
      W.SpliceStep(before, W.EachChunk(before), i);
      ok := RestoreChunk(i);
    }

    /** Rewrites the chunks in order, up to and with the first that stops the rewrite. */
    method RestoreChunks(ghost held: set<PatchChunkLine>) returns (ok: bool)
      requires Valid() && Within(held)
      modifies held`text
      ensures Valid()
      ensures Chunks(chunks) == W.RewrittenChunks(old(Chunks(chunks)))
      ensures ok == W.ChunksThrough(old(Chunks(chunks)))
    {
      ghost var before := Chunks(chunks);
      for i := 0 to |chunks|
        invariant Through(before, i)
        invariant W.ChunksReached(before, i) == W.ChunksReached(before, 0)
      {
        ok := RestoreNext(i, before);
        if !ok {
          return false;
        }
      }
      return true;
    }
  }

  // ---------- patch sets ----------

  /** The chunks that the patches hold. */
  ghost function HeldChunks(ps: seq<Patch>): set<PatchChunk>
    reads ps
  {
    set p, c | p in ps && c in p.chunks :: c
  }

  /** The lines that the patches hold. */
  ghost function HeldLines(ps: seq<Patch>): set<PatchChunkLine>
    reads ps, HeldChunks(ps)
  {
    set c, l | c in HeldChunks(ps) && l in c.lines :: l
  }

  lemma HoldsPatch(ps: seq<Patch>, i: nat)
    requires i < |ps|
    ensures (set c | c in ps[i].chunks) <= HeldChunks(ps)
    ensures Held(ps[i].chunks) <= HeldLines(ps)
  {
    forall c | c in ps[i].chunks ensures c in HeldChunks(ps) {
      assert ps[i] in ps;
    }
  }

  /** Different patches, each with its own chunks and lines. */
  ghost predicate ValidSet(ps: seq<Patch>)
    reads ps, HeldChunks(ps), HeldLines(ps)
  {
    forall i :: 0 <= i < |ps| ==> ps[i].place == i && (HoldsPatch(ps, i); ps[i].Valid())
  }

  function Patches(ps: seq<Patch>): (r: seq<T.Patch>)
    reads ps, HeldChunks(ps), HeldLines(ps)
    ensures |r| == |ps| && forall i {:trigger r[i]} :: 0 <= i < |ps| ==> (HoldsPatch(ps, i); r[i] == ps[i].View())
  {
    if ps == [] then [] else
      HoldsPatch(ps, |ps| - 1);
      Patches(ps[..|ps| - 1]) + [ps[|ps| - 1].View()]
  }

  lemma HeldOwned(p: Patch)
    requires p.Valid()
    ensures forall l :: l in Held(p.chunks) ==> l.owner != null && l.owner.owner == p
  {
  }

  lemma HeldApart(ps: seq<Patch>, i: nat, k: nat)
    requires ValidSet(ps) && i < |ps| && k < |ps| && i != k
    ensures Held(ps[i].chunks) !! Held(ps[k].chunks)
  {
    HeldOwned(ps[i]);
    HeldOwned(ps[k]);
  }

  /** A rewrite of one patch keeps the others, which share no line with it. */
  method RestoreOne(ps: seq<Patch>, i: nat) returns (ok: bool)
    requires ValidSet(ps) && i < |ps|
    modifies Held(ps[i].chunks)`text
    ensures ps[i].Valid() && forall k :: 0 <= k < |ps| && k != i ==> ps[k].Valid() && ps[k].View() == old(ps[k].View())
    ensures ps[i].View() == W.RewrittenPatch(old(ps[i].View()))
    ensures ok == W.ChunksThrough(old(ps[i].View()).chunks)
  {
    forall k | 0 <= k < |ps| && k != i ensures Held(ps[i].chunks) !! Held(ps[k].chunks) {
      HeldApart(ps, i, k);
    }
    forall k, l | 0 <= k < |ps[i].chunks| && l in ps[i].chunks[k].lines ensures l in Held(ps[i].chunks) {
      HeldHas(ps[i].chunks, k);
    }
    ok := ps[i].RestoreChunks(Held(ps[i].chunks));
  }

  method RestorePatch(ps: seq<Patch>, i: nat) returns (ok: bool)
    requires ValidSet(ps) && i < |ps|
    modifies Held(ps[i].chunks)`text
    ensures ValidSet(ps)
    ensures Patches(ps) == old(Patches(ps))[i := W.RewrittenPatch(old(ps[i].View()))]
    ensures ok == W.ChunksThrough(old(ps[i].View()).chunks)
  {
    ok := RestoreOne(ps, i);
  }

  // ---------- reading ----------

  twostate lemma PatchKept(p: Patch)
    requires old(p.Valid()) && unchanged(p)
    requires forall c :: c in p.chunks ==> unchanged(c)
    requires forall l :: l in old(Held(p.chunks)) ==> unchanged(l)
    ensures p.Valid() && p.View() == old(p.View())
  {
    forall i | 0 <= i < |p.chunks|
      ensures p.chunks[i].Valid() && p.chunks[i].View() == old(p.chunks[i].View())
      ensures p.chunks[i].owner == p && p.chunks[i].place == i
    {
      var c := p.chunks[i];
      assert c in p.chunks && c in old(p.chunks);
      forall j | 0 <= j < |c.lines| ensures unchanged(c.lines[j]) {
        assert c.lines[j] in old(c.lines) && c.lines[j] in old(Held(p.chunks));
      }
    }
  }

  twostate lemma AllKept(ps: seq<Patch>)
    requires old(ValidSet(ps)) && forall k :: 0 <= k < |ps| ==> unchanged(ps[k])
    requires forall k, c :: 0 <= k < |ps| && c in ps[k].chunks ==> unchanged(c)
    requires forall k, l :: 0 <= k < |ps| && l in old(Held(ps[k].chunks)) ==> unchanged(l)
    ensures ValidSet(ps) && Patches(ps) == old(Patches(ps))
    ensures forall k :: 0 <= k < |ps| ==> ps[k].View() == old(ps[k].View())
  {
    forall k | 0 <= k < |ps| ensures ps[k].Valid() && ps[k].View() == old(ps[k].View()) {
      PatchKept(ps[k]);
    }
  }

  method OpenPatch(ps: seq<Patch>, name: string) returns (p: Patch)
    requires ValidSet(ps)
    ensures fresh(p) && ValidSet(ps + [p]) && p.chunks == [] && p.View() == T.Patch(name, "", [])
    ensures Patches(ps) == old(Patches(ps)) && Patches(ps + [p]) == Patches(ps) + [p.View()]
  {
    p := new Patch();
    p.src, p.place := name, |ps|;
    AllKept(ps);
  }

  method NameOne(ps: seq<Patch>, p: Patch, name: string)
    requires ValidSet(ps) && ps != [] && p == ps[|ps| - 1]
    modifies p`dst
    ensures forall k :: 0 <= k < |ps| - 1 ==> ps[k].Valid() && ps[k].View() == old(ps[k].View())
    ensures p.Valid() && p.View() == old(p.View()).(dst := name)
  {
    p.dst := name;
    forall k | 0 <= k < |ps| - 1 ensures ps[k].Valid() && ps[k].View() == old(ps[k].View()) {
      assert ps[k].place != p.place;
      PatchKept(ps[k]);
    }
  }

  method NamePatch(ps: seq<Patch>, p: Patch, name: string)
    requires ValidSet(ps) && ps != [] && p == ps[|ps| - 1]
    modifies p`dst
    ensures ValidSet(ps)
    ensures Patches(ps) == old(Patches(ps))[|ps| - 1 := old(p.View()).(dst := name)]
  {
    NameOne(ps, p, name);
  }

  method ChunkOne(ps: seq<Patch>, p: Patch, c: PatchChunk)
    requires ValidSet(ps) && ps != [] && p == ps[|ps| - 1] && c.owner == null && c.lines == []
    modifies p`chunks, c`owner, c`place
    ensures forall k :: 0 <= k < |ps| - 1 ==> ps[k].Valid() && ps[k].View() == old(ps[k].View())
    ensures p.Valid() && p.chunks == old(p.chunks) + [c]
    ensures p.View() == old(p.View()).(chunks := old(Chunks(p.chunks)) + [T.Chunk(c.srcPos, c.dstPos, [])])
  {
    p.AddChunk(c);
    forall k | 0 <= k < |ps| - 1 ensures ps[k].Valid() && ps[k].View() == old(ps[k].View()) {
      assert ps[k].place != p.place;
      PatchKept(ps[k]);
    }
  }

  method PlaceChunk(ps: seq<Patch>, p: Patch, c: PatchChunk)
    requires ValidSet(ps) && ps != [] && p == ps[|ps| - 1] && c.owner == null && c.lines == []
    modifies p`chunks, c`owner, c`place
    ensures ValidSet(ps) && p.chunks == old(p.chunks) + [c]
    ensures var q := old(p.View());
      Patches(ps) == old(Patches(ps))[|ps| - 1 := q.(chunks := q.chunks + [T.Chunk(c.srcPos, c.dstPos, [])])]
  {
    ChunkOne(ps, p, c);
  }

  method OpenChunk(ps: seq<Patch>, p: Patch, srcPos: nat, dstPos: nat) returns (c: PatchChunk)
    requires ValidSet(ps) && ps != [] && p == ps[|ps| - 1]
    modifies p`chunks
    ensures fresh(c) && ValidSet(ps) && p.chunks == old(p.chunks) + [c] && c.lines == []
    ensures var q := old(p.View());
      Patches(ps) == old(Patches(ps))[|ps| - 1 := q.(chunks := q.chunks + [T.Chunk(srcPos, dstPos, [])])]
  {
    c := new PatchChunk(srcPos, dstPos);
    AllKept(ps);
    PlaceChunk(ps, p, c);
  }

  method LineOne(ps: seq<Patch>, ghost k: nat, c: PatchChunk, line: PatchChunkLine)
    requires ValidSet(ps) && k < |ps| && ps[k].chunks != [] && c == ps[k].chunks[|ps[k].chunks| - 1]
    requires line.owner == null
    modifies c`lines, line`owner, line`place
    ensures c.lines == old(c.lines) + [line]
    ensures forall i :: 0 <= i < |ps| && i != k ==> ps[i].Valid() && ps[i].View() == old(ps[i].View())
    ensures ps[k].Valid() && ps[k].View() == T.WithLastChunk(old(ps[k].View()), old(line.View()))
  {
    ghost var p := ps[k];
    c.AddLine(line);
    c.OwnLast(line);
    forall i | 0 <= i < |ps| && i != k ensures ps[i].Valid() && ps[i].View() == old(ps[i].View()) {
      PatchKept(ps[i]);
    }
  }

  method PlaceLine(ps: seq<Patch>, ghost k: nat, c: PatchChunk, line: PatchChunkLine)
    requires ValidSet(ps) && k < |ps| && ps[k].chunks != [] && c == ps[k].chunks[|ps[k].chunks| - 1]
    requires line.owner == null
    modifies c`lines, line`owner, line`place
    ensures ValidSet(ps) && c.lines == old(c.lines) + [line]
    ensures Patches(ps) == old(Patches(ps))[k := T.WithLastChunk(old(ps[k].View()), old(line.View()))]
  {
    LineOne(ps, k, c, line);
  }

  /** The reader's two variables: the patch opened last and the chunk created last, which need not
      belong to that patch. */
  ghost predicate Current(ps: seq<Patch>, p: Patch?, c: PatchChunk?)
    reads ps, HeldChunks(ps), HeldLines(ps)
  {
    && (if ps == [] then p == null else p == ps[|ps| - 1])
    && var k := T.LastChunked(Patches(ps));
      if k < 0 then c == null else c == ps[k].chunks[|ps[k].chunks| - 1]
  }

  /** What a reader has read, if its variables are in order. */
  ghost function Reading(ps: seq<Patch>, p: Patch?, c: PatchChunk?): Option<seq<T.Patch>>
    reads ps, HeldChunks(ps), HeldLines(ps)
  {
    if ValidSet(ps) && Current(ps, p, c) then Some(Patches(ps)) else None
  }

  lemma CurrentAppend(ps: seq<Patch>, c: PatchChunk?, q: Patch)
    requires q.chunks == []
    requires var k := T.LastChunked(Patches(ps)); if k < 0 then c == null else c == ps[k].chunks[|ps[k].chunks| - 1]
    requires Patches(ps + [q]) == Patches(ps) + [q.View()]
    ensures Current(ps + [q], q, c)
  {
    T.LastChunkedAppend(Patches(ps), q.View());
  }

  method ReadFromFile(ps: seq<Patch>, ghost p: Patch?, ghost c: PatchChunk?, name: string) returns (q: Patch)
    requires Reading(ps, p, c).Some?
    ensures fresh(q)
    ensures Reading(ps + [q], q, c) == T.Taken(old(Reading(ps, p, c)).value, T.FromFile(name))
  {
    q := OpenPatch(ps, name);
    CurrentAppend(ps, c, q);
  }

  method NameCurrent(ps: seq<Patch>, p: Patch, ghost c: PatchChunk?, name: string)
    requires ValidSet(ps) && ps != [] && Current(ps, p, c)
    modifies p`dst
    ensures ValidSet(ps) && Current(ps, p, c)
    ensures Patches(ps) == old(Patches(ps))[|ps| - 1 := old(p.View()).(dst := name)]
  {
    T.LastChunkedNamed(Patches(ps), name);
    NamePatch(ps, p, name);
  }

  method ReadToFile(ps: seq<Patch>, p: Patch, ghost c: PatchChunk?, name: string)
    requires Reading(ps, p, c).Some?
    modifies p`dst
    ensures Reading(ps, p, c) == T.Taken(old(Reading(ps, p, c)).value, T.ToFile(name))
  {
    NameCurrent(ps, p, c, name);
  }

  method StartCurrent(ps: seq<Patch>, p: Patch, ghost c: PatchChunk?, srcPos: nat, dstPos: nat) returns (d: PatchChunk)
    requires ValidSet(ps) && ps != [] && Current(ps, p, c)
    modifies p`chunks
    ensures fresh(d) && ValidSet(ps) && Current(ps, p, d)
    ensures var q := old(p.View());
      Patches(ps) == old(Patches(ps))[|ps| - 1 := q.(chunks := q.chunks + [T.Chunk(srcPos, dstPos, [])])]
  {
    d := OpenChunk(ps, p, srcPos, dstPos);
  }

  method ReadStart(ps: seq<Patch>, p: Patch, ghost c: PatchChunk?, srcPos: nat, dstPos: nat) returns (d: PatchChunk)
    requires Reading(ps, p, c).Some?
    modifies p`chunks
    ensures fresh(d)
    ensures Reading(ps, p, d) == T.Taken(old(Reading(ps, p, c)).value, T.Start(srcPos, dstPos))
  {
    d := StartCurrent(ps, p, c, srcPos, dstPos);
  }

  method PlaceCurrent(ps: seq<Patch>, ghost p: Patch?, c: PatchChunk, line: PatchChunkLine)
    requires ValidSet(ps) && Current(ps, p, c) && line.owner == null
    modifies c`lines, line`owner, line`place
    ensures ValidSet(ps) && Current(ps, p, c)
    ensures var k, before := T.LastChunked(old(Patches(ps))), old(Patches(ps));
      k >= 0 && Patches(ps) == before[k := T.WithLastChunk(before[k], old(line.View()))]
  {
    ghost var before := Patches(ps);
    ghost var k := T.LastChunked(before);
    T.LastChunkedWithLine(before, line.View());
    PlaceLine(ps, k, c, line);
  }

  method ReadBody(ps: seq<Patch>, ghost p: Patch?, c: PatchChunk, line: PatchChunkLine)
    requires Reading(ps, p, c).Some? && line.owner == null
    modifies c`lines, line`owner, line`place
    ensures Reading(ps, p, c) == T.Taken(old(Reading(ps, p, c)).value, T.Body(old(line.View())))
  {
    T.TakenBody(Patches(ps), line.View());
    PlaceCurrent(ps, p, c, line);
  }

  method NewLine(l: T.Line) returns (line: PatchChunkLine)
    ensures fresh(line) && line.owner == null && line.View() == l
  {
    if l.kind == T.SRC {
      line := new PatchChunkLine.SetSrc(l.text);
    } else if l.kind == T.DST {
      line := new PatchChunkLine.SetDst(l.text);
    } else {
      line := new PatchChunkLine.SetBoth(l.text);
    }
  }

  method ReadBodyLine(ps: seq<Patch>, ghost p: Patch?, c: PatchChunk, l: T.Line)
    requires Reading(ps, p, c).Some?
    modifies c`lines
    ensures Reading(ps, p, c) == T.Taken(old(Reading(ps, p, c)).value, T.Body(l))
  {
    var line := NewLine(l);
    AllKept(ps);
    ReadBody(ps, p, c, line);
  }

  /** The variables are unset as long as there is nothing they could stand for. */
  lemma ReadingUnset(ps: seq<Patch>, p: Patch?, c: PatchChunk?)
    requires Reading(ps, p, c).Some?
    ensures p == null <==> Reading(ps, p, c).value == []
    ensures c == null <==> T.LastChunked(Reading(ps, p, c).value) < 0
  {
  }

  /** What one line is taken for.  Not ok if the reader raises. */
  method Take(ps: seq<Patch>, p: Patch?, c: PatchChunk?, reading: T.Reading)
    returns (ok: bool, qs: seq<Patch>, q: Patch?, d: PatchChunk?)
    requires Reading(ps, p, c).Some?
    modifies p, c
    ensures if ok then Reading(qs, q, d) == T.Taken(old(Reading(ps, p, c)).value, reading)
            else T.Taken(old(Reading(ps, p, c)).value, reading) == None
    ensures ok ==> Reading(qs, q, d).Some?
    ensures qs == ps || (q != null && fresh(q) && qs == ps + [q])
  {
    ReadingUnset(ps, p, c);
    qs, q, d := ps, p, c;
    if reading.FromFile? {
      q := ReadFromFile(ps, p, c, reading.name);
      ok, qs := true, ps + [q];
    } else if reading.ToFile? {
      ok := p != null;
      if ok {
        ReadToFile(ps, p, c, reading.name);
      }
    } else if reading.Start? {
      ok := p != null;
      if ok {
        d := ReadStart(ps, p, c, reading.srcPos, reading.dstPos);
      }
    } else if reading.Body? {
      ok := c != null;
      if ok {
        ReadBodyLine(ps, p, c, reading.line);
      }
    } else {
      ok := false;
    }
  }

  /** What the input will have been read as, if the reader's variables are in order. */
  ghost function Outlook(ps: seq<Patch>, p: Patch?, c: PatchChunk?, lines: seq<string>): Option<Option<seq<T.Patch>>>
    reads ps, HeldChunks(ps), HeldLines(ps)
  {
    var read :- Reading(ps, p, c);
    Some(T.ReadAll(read, lines))
  }

  lemma OutlookHeld(ps: seq<Patch>, p: Patch?, c: PatchChunk?, lines: seq<string>)
    requires Outlook(ps, p, c, lines).Some?
    ensures p != null ==> p in ps
    ensures c != null ==> c.owner in ps
  {
    if c != null {
      var k := T.LastChunked(Patches(ps));
      assert c == ps[k].chunks[|ps[k].chunks| - 1];
    }
  }

  /** What the patches show, if each has its own chunks and lines. */
  ghost function Shown(ps: seq<Patch>): Option<seq<T.Patch>>
    reads ps, HeldChunks(ps), HeldLines(ps)
  {
    if ValidSet(ps) then Some(Patches(ps)) else None
  }

  lemma OutlookDone(ps: seq<Patch>, p: Patch?, c: PatchChunk?)
    requires Outlook(ps, p, c, []).Some?
    ensures Shown(ps).Some? && Outlook(ps, p, c, []) == Some(Shown(ps))
  {
  }

  method ReadNext(ps: seq<Patch>, p: Patch?, c: PatchChunk?, lines: seq<string>, i: nat)
    returns (ok: bool, qs: seq<Patch>, q: Patch?, d: PatchChunk?)
    requires i < |lines| && Outlook(ps, p, c, lines[i..]).Some?
    modifies p, c
    ensures ok ==> Outlook(qs, q, d, lines[i + 1..]) == old(Outlook(ps, p, c, lines[i..]))
    ensures !ok ==> old(Outlook(ps, p, c, lines[i..])) == Some(None)
    ensures qs == ps || (q != null && fresh(q) && qs == ps + [q])
  {
    T.ReadAllStep(Reading(ps, p, c).value, lines, i);
    ok, qs, q, d := Take(ps, p, c, T.Read(lines[i]));
  }

  method ReadLines(lines: seq<string>) returns (ok: bool, patchset: seq<Patch>)
    ensures ok <==> T.Parsed(lines).Some?
    ensures ok ==> Shown(patchset) == T.Parsed(lines)
    ensures forall p :: p in patchset ==> fresh(p)
  {
    patchset := [];
    var currentPatch: Patch?, currentChunk: PatchChunk? := null, null;
    assert lines[0..] == lines;
    for i := 0 to |lines|
      invariant forall p :: p in patchset ==> fresh(p)
      invariant Outlook(patchset, currentPatch, currentChunk, lines[i..]) == Some(T.Parsed(lines))
    {
      OutlookHeld(patchset, currentPatch, currentChunk, lines[i..]);
      ok, patchset, currentPatch, currentChunk := ReadNext(patchset, currentPatch, currentChunk, lines, i);
      if !ok {
        return;
      }
    }
    assert lines[|lines|..] == [];
    OutlookDone(patchset, currentPatch, currentChunk);
    ok := true;
  }

  /** Reads a patch set, all of it new objects. */
  method ParsePatchset(lines: seq<string>) returns (ok: bool, patchset: seq<Patch>)
    ensures ok <==> T.Parsed(lines).Some?
    ensures ok ==> ValidSet(patchset) && Patches(patchset) == T.Parsed(lines).value
    ensures ok ==> fresh(HeldLines(patchset))
  {
    ok, patchset := ReadLines(lines);
  }

  // ---------- the rewrite ----------

  /** Rewrites the patches in order, up to and with the first that stops the rewrite. */
  method RestorePatches(ps: seq<Patch>)
    requires ValidSet(ps)
    modifies HeldLines(ps)`text
    ensures ValidSet(ps)
    ensures Patches(ps) == W.RewrittenPatches(old(Patches(ps)))
  {
    ghost var before := Patches(ps);
    for i := 0 to |ps|
      invariant ValidSet(ps)
      invariant Patches(ps) == W.Splice(before, W.EachPatch(before), i)
      invariant W.PatchesReached(before, i) == W.PatchesReached(before, 0)
    {
      HoldsPatch(ps, i);
      W.SpliceStep(before, W.EachPatch(before), i);
      var ok := RestorePatch(ps, i);
      if !ok {
        return;
      }
    }
  }

  /** The patch set that the input describes, with lost last blanks given back. */
  method RemoveTrailingWhitespaceChanges(lines: seq<string>) returns (ok: bool, patchset: seq<Patch>)
    ensures ok <==> T.Parsed(lines).Some?
    ensures ok ==> ValidSet(patchset) && Patches(patchset) == W.RewrittenPatches(T.Parsed(lines).value)
  {
    ok, patchset := ParsePatchset(lines);
    if ok {
      RestorePatches(patchset);
    }
  }
}
