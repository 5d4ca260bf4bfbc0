/** What utils/check-style.py does to a chunk when it undoes changes of trailing whitespace, on
    the chunk's lines as values. */
module Whitespace {
  import opened PatchText

  /** Positions in a list of n lines. */
  ghost predicate Positions(r: seq<nat>, n: nat) {
    forall k :: 0 <= k < |r| ==> r[k] < n
  }

  ghost predicate Increasing(r: seq<nat>) {
    forall j, k :: 0 <= j < k < |r| ==> r[j] < r[k]
  }

  /** The positions of the lines on the source side, as src() lists them. */
  function Sources(ls: seq<Line>): (r: seq<nat>)
    ensures |r| == SrcLen(ls) && Positions(r, |ls|) && Increasing(r)
  {
    if ls == [] then [] else Sources(ls[..|ls| - 1]) + if OnSrc(ls[|ls| - 1]) then [|ls| - 1] else []
  }

  /** The positions of the lines on the destination side, as dst() lists them. */
  function Targets(ls: seq<Line>): (r: seq<nat>)
    ensures |r| == DstLen(ls) && Positions(r, |ls|) && Increasing(r)
  {
    if ls == [] then [] else Targets(ls[..|ls| - 1]) + if OnDst(ls[|ls| - 1]) then [|ls| - 1] else []
  }

  lemma {:induction false} SourcesExact(ls: seq<Line>, i: nat)
    requires i < |ls|
    ensures i in Sources(ls) <==> OnSrc(ls[i])
  {
    if i < |ls| - 1 {
      SourcesExact(ls[..|ls| - 1], i);
    }
  }

  lemma {:induction false} TargetsExact(ls: seq<Line>, i: nat)
    requires i < |ls|
    ensures i in Targets(ls) <==> OnDst(ls[i])
  {
    if i < |ls| - 1 {
      TargetsExact(ls[..|ls| - 1], i);
    }
  }

  /** How many lines of the two sides face each other. */
  function Faced(ls: seq<Line>): nat {
    if SrcLen(ls) <= DstLen(ls) then SrcLen(ls) else DstLen(ls)
  }

  predicate IsBlank(c: char) {
    c == ' ' || c == '\t'
  }

  /** The regular expression's first group is greedy, so its second one is the last blank alone. */
  predicate EndsBlank(s: string) {
    s != "" && IsBlank(s[|s| - 1])
  }

  /** The destination line lacks the last blank of the source line and nothing else. */
  predicate LostBlank(s: string, d: string) {
    EndsBlank(s) && s[..|s| - 1] == d
  }

  function Restored(s: string, d: string): (r: string)
    ensures r == if LostBlank(s, d) then s else d
  {
    if LostBlank(s, d) then d + [s[|s| - 1]] else d
  }

  function Step(ls: seq<Line>, s: nat, d: nat): seq<Line>
    requires s < |ls| && d < |ls|
  {
    ls[d := ls[d].(text := Restored(ls[s].text, ls[d].text))]
  }

  predicate SameKinds(ls: seq<Line>, ms: seq<Line>) {
    |ls| == |ms| && forall i :: 0 <= i < |ls| ==> ls[i].kind == ms[i].kind
  }

  /** The lines after k of them have been compared with the ones they face.  A line on both sides
      may be changed before it is looked at on the source side. */
  function Stage(ls: seq<Line>, src: seq<nat>, dst: seq<nat>, k: nat): (r: seq<Line>)
    requires k <= |src| && k <= |dst| && Positions(src, |ls|) && Positions(dst, |ls|)
    ensures SameKinds(r, ls)
  {
    if k == 0 then ls else Step(Stage(ls, src, dst, k - 1), src[k - 1], dst[k - 1])
  }

  /** The lines of a chunk after the rewrite. */
  function Rewritten(ls: seq<Line>): (r: seq<Line>)
    ensures SameKinds(r, ls)
  {
    Stage(ls, Sources(ls), Targets(ls), Faced(ls))
  }

  /** Whether the rewrite gets through: a source side longer than the destination side makes it
      run past the end, and the whole rewrite stops there. */
  predicate GetsThrough(ls: seq<Line>) {
    SrcLen(ls) <= DstLen(ls)
  }

  // ---------- what one run may do to a line ----------

  /** Not changed, or one blank longer. */
  ghost predicate Grown(s: string, t: string) {
    t == s || t == s + " " || t == s + "\t"
  }

  /** A text lacks the last blank of another exactly if the other is one blank longer. */
  lemma LostBlankIff(s: string, d: string)
    ensures LostBlank(s, d) <==> s == d + " " || s == d + "\t"
  {
    if LostBlank(s, d) {
      assert s == d + [s[|s| - 1]];
    }
  }

  lemma StageLeaves(ls: seq<Line>, src: seq<nat>, dst: seq<nat>, k: nat, i: nat)
    requires 0 < k <= |src| && k <= |dst| && Positions(src, |ls|) && Positions(dst, |ls|)
    requires i < |ls| && i != dst[k - 1]
    ensures Stage(ls, src, dst, k)[i] == Stage(ls, src, dst, k - 1)[i]
  {
    var before := Stage(ls, src, dst, k - 1);
    assert Stage(ls, src, dst, k) == Step(before, src[k - 1], dst[k - 1]);
  }

  /** A line is touched only at its turns on the destination side. */
  lemma {:induction false} StageSame(ls: seq<Line>, src: seq<nat>, dst: seq<nat>, j: nat, k: nat, i: nat)
    requires j <= k <= |src| && k <= |dst| && Positions(src, |ls|) && Positions(dst, |ls|)
    requires i < |ls| && i !in dst[j..k]
    ensures Stage(ls, src, dst, k)[i] == Stage(ls, src, dst, j)[i]
    decreases k
  {
    if j < k {
      assert dst[j..k] == dst[j..k - 1] + [dst[k - 1]];
      StageSame(ls, src, dst, j, k - 1, i);
      StageLeaves(ls, src, dst, k, i);
    }
  }

  lemma StageUntouched(ls: seq<Line>, src: seq<nat>, dst: seq<nat>, k: nat, i: nat)
    requires k <= |src| && k <= |dst| && Positions(src, |ls|) && Positions(dst, |ls|)
    requires i < |ls| && i !in dst[..k]
    ensures Stage(ls, src, dst, k)[i] == ls[i]
  {
    assert dst[0..k] == dst[..k];
    StageSame(ls, src, dst, 0, k, i);
  }

  lemma StageSettled(ls: seq<Line>, src: seq<nat>, dst: seq<nat>, j: nat, k: nat)
    requires j < k <= |src| && k <= |dst| && Positions(src, |ls|) && Positions(dst, |ls|)
    requires Increasing(dst)
    ensures Stage(ls, src, dst, k)[dst[j]] == Stage(ls, src, dst, j + 1)[dst[j]]
  {
    assert forall t :: j < t < k ==> dst[t] != dst[j];
    StageSame(ls, src, dst, j + 1, k, dst[j]);
  }

  /** At its turn a destination line is compared with what its source line says by then. */
  lemma TargetText(ls: seq<Line>, src: seq<nat>, dst: seq<nat>, j: nat, k: nat)
    requires j < k <= |src| && k <= |dst| && Positions(src, |ls|) && Positions(dst, |ls|) && Increasing(dst)
    ensures Stage(ls, src, dst, k)[dst[j]].text == Restored(Stage(ls, src, dst, j)[src[j]].text, ls[dst[j]].text)
  {
    StageSettled(ls, src, dst, j, k);
    StageUntouched(ls, src, dst, j, dst[j]);
  }

  /** Every text is as before or has gained exactly one blank at its end, and a line that is on the
      source side only is as before. */
  lemma TextsGrow(ls: seq<Line>, i: nat)
    requires i < |ls|
    ensures Rewritten(ls)[i].kind == ls[i].kind
    ensures Grown(ls[i].text, Rewritten(ls)[i].text)
    ensures ls[i].kind == SRC ==> Rewritten(ls)[i] == ls[i]
  {
    var src, dst, n := Sources(ls), Targets(ls), Faced(ls);
    TargetsExact(ls, i);
    if i in dst[..n] {
      var j :| 0 <= j < n && dst[..n][j] == i;
      TargetText(ls, src, dst, j, n);
      LostBlankIff(Stage(ls, src, dst, j)[src[j]].text, ls[i].text);
    } else {
      StageUntouched(ls, src, dst, n, i);
    }
  }

  /** What source line j says when it is compared: it may be a line on both sides that has had its
      turn on the destination side. */
  ghost function SourceText(ls: seq<Line>, j: nat): string
    requires j < Faced(ls)
  {
    if Sources(ls)[j] in Targets(ls)[..j] then Rewritten(ls)[Sources(ls)[j]].text else ls[Sources(ls)[j]].text
  }

  /** Destination line j becomes the source line it faces if that is one blank longer, and stays as it
      was otherwise. */
  lemma TargetExact(ls: seq<Line>, j: nat)
    requires j < SrcLen(ls) && j < DstLen(ls)
    ensures var s, d := SourceText(ls, j), ls[Targets(ls)[j]].text;
      Rewritten(ls)[Targets(ls)[j]].text == if s == d + " " || s == d + "\t" then s else d
  {
    var src, dst := Sources(ls), Targets(ls);
    var i := src[j];
    if i in dst[..j] {
      var t :| 0 <= t < j && dst[..j][t] == i;
      StageSettled(ls, src, dst, t, j);
      StageSettled(ls, src, dst, t, Faced(ls));
    } else {
      StageUntouched(ls, src, dst, j, i);
    }
    TargetText(ls, src, dst, j, Faced(ls));
    LostBlankIff(SourceText(ls, j), ls[dst[j]].text);
  }

  /** A line that is no destination line, or faces no source line, stays. */
  lemma OthersExact(ls: seq<Line>, i: nat)
    requires i < |ls|
    requires i !in if SrcLen(ls) < DstLen(ls) then Targets(ls)[..SrcLen(ls)] else Targets(ls)
    ensures Rewritten(ls)[i] == ls[i]
  {
    assert Targets(ls)[..DstLen(ls)] == Targets(ls);
    StageUntouched(ls, Sources(ls), Targets(ls), Faced(ls), i);
  }

  // ---------- the source side ----------

  /** The source side reads as before. */
  ghost predicate SourceKept(ls: seq<Line>) {
    forall i :: 0 <= i < |ls| && OnSrc(ls[i]) ==> Rewritten(ls)[i] == ls[i]
  }

  /** A line on both sides lacks the last blank of the source line it faces, as LostBlankIff has it. */
  ghost predicate SharedLoss(ls: seq<Line>, j: nat) {
    j < Faced(ls) && ls[Targets(ls)[j]].kind == BOTH && LostBlank(ls[Sources(ls)[j]].text, ls[Targets(ls)[j]].text)
  }

  /** While the source side is as before, each destination line is compared with the source line
      as it was given. */
  lemma {:induction false} SourceStage(ls: seq<Line>, src: seq<nat>, dst: seq<nat>, k: nat, i: nat)
    requires k <= |src| && k <= |dst| && Positions(src, |ls|) && Positions(dst, |ls|)
    requires forall j :: 0 <= j < k ==> OnSrc(ls[src[j]])
    requires forall j :: 0 <= j < k ==> !OnSrc(ls[dst[j]]) || !LostBlank(ls[src[j]].text, ls[dst[j]].text)
    requires i < |ls| && OnSrc(ls[i])
    ensures Stage(ls, src, dst, k)[i] == ls[i]
    decreases k
  {
    if k > 0 {
      SourceStage(ls, src, dst, k - 1, i);
      if i == dst[k - 1] {
        SourceStage(ls, src, dst, k - 1, src[k - 1]);
        StepOnSource(ls, Stage(ls, src, dst, k - 1), src[k - 1], i);
      } else {
        StageLeaves(ls, src, dst, k, i);
      }
    }
  }

  lemma StepOnSource(ls: seq<Line>, ms: seq<Line>, s: nat, d: nat)
    requires s < |ls| == |ms| && d < |ls| && ms[s] == ls[s] && ms[d] == ls[d]
    requires !LostBlank(ls[s].text, ls[d].text)
    ensures Step(ms, s, d)[d] == ls[d]
  {
  }

  lemma KeptSourceAt(ls: seq<Line>, j: nat)
    requires SourceKept(ls) && j < Faced(ls)
    ensures Stage(ls, Sources(ls), Targets(ls), j)[Sources(ls)[j]] == ls[Sources(ls)[j]]
  {
    var src, dst, i := Sources(ls), Targets(ls), Sources(ls)[j];
    SourcesExact(ls, i);
    if i in dst[..j] {
      var t :| 0 <= t < j && dst[..j][t] == i;
      StageSettled(ls, src, dst, t, j);
      StageSettled(ls, src, dst, t, Faced(ls));
    } else {
      StageUntouched(ls, src, dst, j, i);
    }
  }

  /** When the source side is kept, the destination lines that lacked one last blank, and no others,
      are changed: each becomes the source line it faces. */
  lemma KeptTargets(ls: seq<Line>, j: nat)
    requires SourceKept(ls) && j < Faced(ls)
    ensures
      var s, d := ls[Sources(ls)[j]].text, ls[Targets(ls)[j]].text;
      Rewritten(ls)[Targets(ls)[j]].text == if LostBlank(s, d) then s else d
  {
    KeptSourceAt(ls, j);
    TargetText(ls, Sources(ls), Targets(ls), j, Faced(ls));
  }

  lemma KeptHasNoLoss(ls: seq<Line>, j: nat)
    requires SourceKept(ls) && j < Faced(ls)
    ensures !SharedLoss(ls, j)
  {
    KeptTargets(ls, j);
    TargetsExact(ls, Targets(ls)[j]);
  }

  lemma NoLossKeeps(ls: seq<Line>)
    requires forall j :: 0 <= j < Faced(ls) ==> !SharedLoss(ls, j)
    ensures SourceKept(ls)
  {
    var src, dst, n := Sources(ls), Targets(ls), Faced(ls);
    forall j | 0 <= j < n
      ensures OnSrc(ls[src[j]]) && (!OnSrc(ls[dst[j]]) || !LostBlank(ls[src[j]].text, ls[dst[j]].text))
    {
      SourcesExact(ls, src[j]);
      TargetsExact(ls, dst[j]);
      assert !SharedLoss(ls, j);
    }
    forall i | 0 <= i < |ls| && OnSrc(ls[i]) ensures Rewritten(ls)[i] == ls[i] {
      SourceStage(ls, src, dst, n, i);
    }
  }

  /** The rewrite keeps the source side exactly when no line on both sides lacks the last blank of
      the source line that it faces. */
  lemma SourceKeptIff(ls: seq<Line>)
    ensures SourceKept(ls) <==> forall j :: 0 <= j < Faced(ls) ==> !SharedLoss(ls, j)
  {
    if SourceKept(ls) {
      forall j | 0 <= j < Faced(ls) ensures !SharedLoss(ls, j) {
        KeptHasNoLoss(ls, j);
      }
    } else if forall j :: 0 <= j < Faced(ls) ==> !SharedLoss(ls, j) {
      NoLossKeeps(ls);
    }
  }

  /** Every line on both sides has the same index in both. */
  ghost predicate Aligned(ls: seq<Line>) {
    forall j, k :: 0 <= j < |Sources(ls)| && 0 <= k < |Targets(ls)| && Sources(ls)[j] == Targets(ls)[k] ==> j == k
  }

  lemma AlignedKeepsSource(ls: seq<Line>)
    requires Aligned(ls)
    ensures SourceKept(ls)
  {
    forall j | 0 <= j < Faced(ls) ensures !SharedLoss(ls, j) {
      SourcesExact(ls, Targets(ls)[j]);
    }
    SourceKeptIff(ls);
  }

  /** Without that, a context line can change: here "x" becomes "x ", because it faces the removed
      line above it. */
  lemma ContextLineChanges()
    ensures !SourceKept([Line(SRC, "x "), Line(BOTH, "x"), Line(DST, "y")])
  {
    var ls := [Line(SRC, "x "), Line(BOTH, "x"), Line(DST, "y")];
    ContextSides(ls);
    assert SharedLoss(ls, 0);
    SourceKeptIff(ls);
  }

  lemma ContextSides(ls: seq<Line>)
    requires |ls| == 3 && ls[0].kind == SRC && ls[1].kind == BOTH && ls[2].kind == DST
    ensures Sources(ls) == [0, 1] && Targets(ls) == [1, 2] && Faced(ls) == 2
  {
    ContextFront(ls[..2]);
  }

  lemma ContextFront(ls: seq<Line>)
    requires |ls| == 2 && ls[0].kind == SRC && ls[1].kind == BOTH
    ensures Sources(ls) == [0, 1] && Targets(ls) == [1]
  {
    assert ls[..1][..0] == [];
    assert Sources(ls[..1]) == [0] && Targets(ls[..1]) == [];
  }

  // ---------- twice is once ----------

  lemma {:induction false} KindsDecide(ls: seq<Line>, ms: seq<Line>)
    requires SameKinds(ls, ms)
    ensures SrcLen(ms) == SrcLen(ls) && DstLen(ms) == DstLen(ls)
    ensures Sources(ms) == Sources(ls) && Targets(ms) == Targets(ls)
    decreases |ls|
  {
    if ls != [] {
      KindsDecide(ls[..|ls| - 1], ms[..|ms| - 1]);
    }
  }

  lemma NothingAt(ls: seq<Line>, k: nat)
    requires SourceKept(ls) && k < Faced(ls)
    ensures Step(Rewritten(ls), Sources(ls)[k], Targets(ls)[k]) == Rewritten(ls)
  {
    SourcesExact(ls, Sources(ls)[k]);
    KeptTargets(ls, k);
    var r, d := Rewritten(ls), Targets(ls)[k];
    assert r[d].(text := r[d].text) == r[d];
  }

  lemma {:induction false} FixedStage(ls: seq<Line>, src: seq<nat>, dst: seq<nat>, k: nat)
    requires k <= |src| && k <= |dst| && Positions(src, |ls|) && Positions(dst, |ls|)
    requires forall j :: 0 <= j < k ==> Step(ls, src[j], dst[j]) == ls
    ensures Stage(ls, src, dst, k) == ls
  {
    if k > 0 {
      FixedStage(ls, src, dst, k - 1);
    }
  }

  /** A rewrite that kept the source side leaves nothing for a second one to do. */
  lemma RewriteTwice(ls: seq<Line>)
    requires SourceKept(ls)
    ensures Rewritten(Rewritten(ls)) == Rewritten(ls)
  {
    KindsDecide(ls, Rewritten(ls));
    forall k | 0 <= k < Faced(ls)
      ensures Step(Rewritten(ls), Sources(ls)[k], Targets(ls)[k]) == Rewritten(ls)
    {
      NothingAt(ls, k);
    }
    FixedStage(Rewritten(ls), Sources(ls), Targets(ls), Faced(ls));
  }

  // ---------- whole patch sets ----------

  function RewrittenChunk(c: Chunk): Chunk {
    c.(lines := Rewritten(c.lines))
  }

  /** The first k elements of ys, then the rest of xs. */
  function Splice<A>(xs: seq<A>, ys: seq<A>, k: nat): (r: seq<A>)
    requires k <= |xs| == |ys|
    ensures |r| == |xs|
  {
    ys[..k] + xs[k..]
  }

  lemma SpliceStep<A>(xs: seq<A>, ys: seq<A>, k: nat)
    requires k < |xs| == |ys|
    ensures Splice(xs, ys, k)[k] == xs[k]
    ensures Splice(xs, ys, k)[k := ys[k]] == Splice(xs, ys, k + 1)
  {
  }

  function EachChunk(cs: seq<Chunk>): (r: seq<Chunk>)
    ensures |r| == |cs|
  {
    seq(|cs|, i requires 0 <= i < |cs| => RewrittenChunk(cs[i]))
  }

  /** From chunk k on: how far the rewrite comes, and whether it comes through.  The chunk that
      stops it is still rewritten. */
  function ChunksReached(cs: seq<Chunk>, k: nat): (r: (nat, bool))
    requires k <= |cs|
    ensures k <= r.0 <= |cs|
    decreases |cs| - k
  {
    if k == |cs| then (k, true)
    else if GetsThrough(cs[k].lines) then ChunksReached(cs, k + 1)
    else (k + 1, false)
  }

  function RewrittenChunks(cs: seq<Chunk>): (r: seq<Chunk>)
    ensures |r| == |cs|
  {
    Splice(cs, EachChunk(cs), ChunksReached(cs, 0).0)
  }

  function RewrittenPatch(p: Patch): Patch {
    p.(chunks := RewrittenChunks(p.chunks))
  }

  /** The rewrite does not run past the end of a destination side. */
  predicate ChunksThrough(cs: seq<Chunk>) {
    ChunksReached(cs, 0).1
  }

  function EachPatch(ps: seq<Patch>): (r: seq<Patch>)
    ensures |r| == |ps|
  {
    seq(|ps|, i requires 0 <= i < |ps| => RewrittenPatch(ps[i]))
  }

  function PatchesReached(ps: seq<Patch>, k: nat): (r: nat)
    requires k <= |ps|
    ensures k <= r <= |ps|
    decreases |ps| - k
  {
    if k == |ps| then k else if ChunksThrough(ps[k].chunks) then PatchesReached(ps, k + 1) else k + 1
  }

  /** The patch set after the rewrite. */
  function RewrittenPatches(ps: seq<Patch>): (r: seq<Patch>)
    ensures |r| == |ps|
  {
    Splice(ps, EachPatch(ps), PatchesReached(ps, 0))
  }

  /** A chunk is rewritten exactly when every chunk before it in its patch let the rewrite through;
      the patch lets it through when all of them do. */
  lemma {:induction false} ChunksReachedExact(cs: seq<Chunk>, k: nat, i: nat)
    requires k <= i <= |cs|
    ensures i < ChunksReached(cs, k).0 || (i == |cs| && ChunksReached(cs, k).1)
       <==> forall j :: k <= j < i ==> GetsThrough(cs[j].lines)
    decreases |cs| - k
  {
    if k < i && GetsThrough(cs[k].lines) {
      ChunksReachedExact(cs, k + 1, i);
    }
  }

  /** The same lines, but for blanks gained at the end. */
  ghost predicate LinesGrown(ls: seq<Line>, ms: seq<Line>) {
    && SameKinds(ls, ms)
    && (forall i :: 0 <= i < |ls| ==> Grown(ls[i].text, ms[i].text))
    && (forall i :: 0 <= i < |ls| && ls[i].kind == SRC ==> ms[i] == ls[i])
  }

  ghost predicate ChunkGrown(c: Chunk, d: Chunk) {
    c.srcPos == d.srcPos && c.dstPos == d.dstPos && LinesGrown(c.lines, d.lines)
  }

  ghost predicate PatchGrown(p: Patch, q: Patch) {
    p.src == q.src && p.dst == q.dst && |p.chunks| == |q.chunks| &&
    forall i :: 0 <= i < |p.chunks| ==> ChunkGrown(p.chunks[i], q.chunks[i])
  }

  lemma RewrittenChunkGrown(c: Chunk)
    ensures ChunkGrown(c, RewrittenChunk(c))
  {
    forall i | 0 <= i < |c.lines|
      ensures Grown(c.lines[i].text, Rewritten(c.lines)[i].text)
      ensures c.lines[i].kind == SRC ==> Rewritten(c.lines)[i] == c.lines[i]
    {
      TextsGrow(c.lines, i);
    }
  }

  /** The body of a rewritten chunk has the counts its header was written with. */
  lemma HeaderKept(c: Chunk, d: Chunk)
    requires ChunkGrown(c, d)
    ensures ChunkTexts(c)[0] == ChunkTexts(d)[0] && |ChunkTexts(c)| == |ChunkTexts(d)|
  {
    KindsDecide(c.lines, d.lines);
  }

  lemma PatchGrownItself(p: Patch)
    ensures PatchGrown(p, p)
  {
  }

  lemma RewrittenChunksGrown(cs: seq<Chunk>, i: nat)
    requires i < |cs|
    ensures ChunkGrown(cs[i], RewrittenChunks(cs)[i])
  {
    RewrittenChunkGrown(cs[i]);
    assert RewrittenChunks(cs)[i] == RewrittenChunk(cs[i]) || RewrittenChunks(cs)[i] == cs[i];
  }

  lemma RewrittenPatchGrown(p: Patch)
    ensures PatchGrown(p, RewrittenPatch(p))
  {
    forall i | 0 <= i < |p.chunks| ensures ChunkGrown(p.chunks[i], RewrittenChunks(p.chunks)[i]) {
      RewrittenChunksGrown(p.chunks, i);
    }
  }

  /** The rewrite changes no name, position, count, kind or order anywhere in a patch set; texts
      gain one blank at most. */
  lemma RewrittenPatchesGrown(ps: seq<Patch>, i: nat)
    requires i < |ps|
    ensures PatchGrown(ps[i], RewrittenPatches(ps)[i])
  {
    RewrittenPatchGrown(ps[i]);
    PatchGrownItself(ps[i]);
  }

  // ---------- which chunks are rewritten ----------

  /** The first n chunks let the rewrite through. */
  ghost predicate LetThrough(cs: seq<Chunk>, n: nat)
    requires n <= |cs|
  {
    forall m :: 0 <= m < n ==> SrcLen(cs[m].lines) <= DstLen(cs[m].lines)
  }

  lemma ChunksThroughAll(cs: seq<Chunk>)
    ensures ChunksThrough(cs) <==> LetThrough(cs, |cs|)
  {
    ChunksReachedExact(cs, 0, |cs|);
  }

  lemma {:induction false} PatchesReachedExact(ps: seq<Patch>, k: nat, i: nat)
    requires k <= i < |ps|
    ensures i < PatchesReached(ps, k) <==> forall j :: k <= j < i ==> ChunksThrough(ps[j].chunks)
    decreases |ps| - k
  {
    if k < i && ChunksThrough(ps[k].chunks) {
      PatchesReachedExact(ps, k + 1, i);
    }
  }

  /** The rewrite comes to chunk k of patch i. */
  ghost predicate ComesTo(ps: seq<Patch>, i: nat, k: nat)
    requires i < |ps| && k < |ps[i].chunks|
  {
    (forall j :: 0 <= j < i ==> LetThrough(ps[j].chunks, |ps[j].chunks|)) && LetThrough(ps[i].chunks, k)
  }

  lemma ChunkOfPatch(cs: seq<Chunk>, k: nat)
    requires k < |cs|
    ensures RewrittenChunks(cs)[k] == if LetThrough(cs, k) then RewrittenChunk(cs[k]) else cs[k]
  {
    ChunksReachedExact(cs, 0, k);
  }

  lemma PatchOfSet(ps: seq<Patch>, i: nat)
    requires i < |ps|
    ensures RewrittenPatches(ps)[i]
         == if forall j :: 0 <= j < i ==> ChunksThrough(ps[j].chunks) then RewrittenPatch(ps[i]) else ps[i]
  {
    PatchesReachedExact(ps, 0, i);
  }

  /** A chunk of a patch set is rewritten exactly when every chunk of every earlier patch and every
      earlier chunk of its own has no more source than destination lines. */
  lemma ChunkOfSet(ps: seq<Patch>, i: nat, k: nat)
    requires i < |ps| && k < |ps[i].chunks|
    ensures |RewrittenPatches(ps)[i].chunks| == |ps[i].chunks|
    ensures RewrittenPatches(ps)[i].chunks[k]
         == if ComesTo(ps, i, k) then RewrittenChunk(ps[i].chunks[k]) else ps[i].chunks[k]
  {
    PatchOfSet(ps, i);
    ChunkOfPatch(ps[i].chunks, k);
    forall j | 0 <= j < i
      ensures ChunksThrough(ps[j].chunks) <==> LetThrough(ps[j].chunks, |ps[j].chunks|)
    {
      ChunksThroughAll(ps[j].chunks);
    }
  }

  /** A chunk that only removes lines keeps the rewrite from every chunk after it. */
  lemma RemovalStops()
    ensures
      var removal := Chunk(1, 1, [Line(SRC, "x")]);
      var change := Chunk(9, 8, [Line(SRC, "y "), Line(DST, "y")]);
      && RewrittenPatches([Patch("a", "b", [removal, change])])[0].chunks[1] == change
      && RewrittenPatches([Patch("a", "b", [change])])[0].chunks[0].lines == [Line(SRC, "y "), Line(DST, "y ")]
  {
    var removal := Chunk(1, 1, [Line(SRC, "x")]);
    var change := Chunk(9, 8, [Line(SRC, "y "), Line(DST, "y")]);
    var stopped, alone := [Patch("a", "b", [removal, change])], [Patch("a", "b", [change])];
    assert SrcLen(removal.lines) == 1 && DstLen(removal.lines) == 0;
    ChunkOfSet(stopped, 0, 1);
    assert !LetThrough(stopped[0].chunks, 1);
    ChunkOfSet(alone, 0, 0);
    OneLost(change.lines);
  }

  lemma OneFacesOne(ls: seq<Line>)
    requires |ls| == 2 && ls[0].kind == SRC && ls[1].kind == DST
    ensures Sources(ls) == [0] && Targets(ls) == [1] && Faced(ls) == 1
  {
    assert ls[..1][..0] == [];
    assert Sources(ls[..1]) == [0] && Targets(ls[..1]) == [] && SrcLen(ls[..1]) == 1 && DstLen(ls[..1]) == 0;
  }

  lemma OneLost(ls: seq<Line>)
    requires ls == [Line(SRC, "y "), Line(DST, "y")]
    ensures Rewritten(ls) == [Line(SRC, "y "), Line(DST, "y ")]
  {
    OneFacesOne(ls);
    assert Stage(ls, [0], [1], 1) == Step(ls, 0, 1);
  }
}
