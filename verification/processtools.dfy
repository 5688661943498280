/** The frame-sampling arithmetic of `processTools.py`: the worker that pulls
    ~100 evenly spaced thumbnails out of a video (`ExtractImages`) and the
    single-frame extractor used for hover previews (`PreviewPosition`).
    The decoder is an oracle `readable(i)`: whether seeking to frame `i` and
    reading it succeeds. A decoded picture is opaque and known only by the
    frame it shows and its size. */
module ProcessTools {
  import opened Wrappers
  import TimeText

  /** Every thumbnail is scaled to this height. */
  const ThumbHeight: int := 80
  /** The number of thumbnails a run aims at. */
  const ThumbBudget: int := 100

  datatype Thumb = Thumb(frame: int, width: int, height: int)

  /** Exceptions the Python code raises: `fW / fH` with a zero frame height
      (ZeroDivisionError) and a `range` whose step is zero (ValueError). */
  datatype ToolError = ZeroFrameHeight | ZeroRangeStep

  /** What `baselineRead` learns from the container. */
  datatype Baseline = Baseline(frameCount: nat, frameWidth: int, frameHeight: int, frameInterval: nat)

  datatype WorkerSignal = ReelImage(image: Thumb, seqIndex: int) | Finished | Over(pos: int)

  // ---------------------------------------------------------------------------
  // Arithmetic helpers
  // ---------------------------------------------------------------------------

  lemma MulAtLeast(b: int, k: int)
    requires b > 0 && k >= 1
    ensures b * k >= b
  {
  }

  lemma MulAtMostNeg(b: int, k: int)
    requires b > 0 && k <= -1
    ensures b * k <= -b
  {
  }

  lemma MulMono(a: int, b: int, c: int)
    requires a >= 0 && b <= c
    ensures a * b <= a * c
  {
  }

  /** A multiple of `b` strictly between `-b` and `b` is zero. */
  lemma MulBetween(b: int, d: int)
    requires b > 0 && -b < b * d < b
    ensures d == 0
  {
    if d >= 1 {
      MulAtLeast(b, d);
      assert false;
    } else if d <= -1 {
      MulAtMostNeg(b, d);
      assert false;
    }
  }

  /** Division with remainder has a unique answer. */
  lemma DivModUnique(a: int, b: int, q: int, r: int)
    requires b > 0 && a == b * q + r && 0 <= r < b
    ensures a / b == q && a % b == r
  {
    var q0, r0 := a / b, a % b;
    assert b * q0 + r0 == b * q + r;
    assert b * (q - q0) == r0 - r;
    MulBetween(b, q - q0);
  }

  lemma DivNonneg(a: int, b: int)
    requires a >= 0 && b > 0
    ensures a / b >= 0
  {
    var q := a / b;
    if q < 0 {
      MulAtMostNeg(b, q);
      assert false;
    }
  }

  lemma MulCancelLess(a: int, b: int, c: int)
    requires a > 0 && a * b < a * c
    ensures b < c
  {
    if b >= c {
      MulMono(a, c, b);
      assert false;
    }
  }

  // ---------------------------------------------------------------------------
  // Thumbnail size
  // ---------------------------------------------------------------------------

  /** `math.ceil(frameCount / 100)`: the spacing of sampled frames. */
  function FrameInterval(frameCount: nat): (fi: nat)
    ensures frameCount <= ThumbBudget * fi < frameCount + ThumbBudget
  {
    (frameCount + 99) / 100
  }

  /** `int(r * 80)` with `r = fW / fH`: the width of every thumbnail. */
  function ThumbWidth(fW: int, fH: int): int
    requires fH != 0
  {
    TimeText.Trunc((fW as real / fH as real) * ThumbHeight as real)
  }

  /** The thumbnail keeps the frame's aspect ratio up to the rounding of its
      width to whole pixels: `w/80 <= fW/fH < (w+1)/80`. */
  lemma ThumbAspect(fW: int, fH: int)
    requires fW >= 0 && fH > 0
    ensures ThumbWidth(fW, fH) >= 0
    ensures ThumbWidth(fW, fH) * fH <= ThumbHeight * fW < (ThumbWidth(fW, fH) + 1) * fH
  {
    var x := (fW as real / fH as real) * 80.0;
    assert x * fH as real == 80.0 * fW as real;
    BracketScales(fW, fH, ThumbWidth(fW, fH), x);
  }

  /** Scaling `w <= x < w + 1` by the frame height, where `x * fH == 80 * fW`. */
  lemma BracketScales(fW: int, fH: int, w: int, x: real)
    requires fH > 0 && x * fH as real == 80.0 * fW as real
    requires w as real <= x < w as real + 1.0
    ensures w * fH <= ThumbHeight * fW < (w + 1) * fH
  {
    var h := fH as real;
    assert x < (w + 1) as real;
    RealMulStrict(x, (w + 1) as real, h);
    CastMul(w + 1, fH);
    CastMul(80, fW);
    assert (80 * fW) as real < ((w + 1) * fH) as real;
    RealMulLe(w as real, x, h);
    CastMul(w, fH);
    assert (w * fH) as real <= (80 * fW) as real;
  }

  lemma CastMul(a: int, b: int)
    ensures (a * b) as real == a as real * b as real
  {
  }

  lemma RealMulLe(a: real, c: real, p: real)
    requires a <= c && p > 0.0
    ensures a * p <= c * p
  {
  }

  lemma RealMulStrict(a: real, c: real, p: real)
    requires a < c && p > 0.0
    ensures a * p < c * p
  {
  }

  /** The thumbnail of frame `i`: 80 high, `int(r*80)` wide. */
  function ThumbOf(fW: int, fH: int, i: int): (t: Thumb)
    requires fH != 0
    ensures t.frame == i && t.height == ThumbHeight
  {
    Thumb(i, ThumbWidth(fW, fH), ThumbHeight)
  }

  // ---------------------------------------------------------------------------
  // ExtractImages
  // ---------------------------------------------------------------------------

  /** `baselineRead`: frame count, frame size and the spacing of samples. */
  function BaselineRead(frameCount: nat, fW: int, fH: int): (r: Result<Baseline, ToolError>)
    ensures r.Failure? <==> fH == 0
    ensures r.Success? ==> r.value.frameCount == frameCount && r.value.frameHeight == fH
    ensures r.Success? ==> frameCount <= ThumbBudget * r.value.frameInterval < frameCount + ThumbBudget
  {
    if fH == 0 then Failure(ZeroFrameHeight)
    else Success(Baseline(frameCount, fW, fH, FrameInterval(frameCount)))
  }

  /** Python's `range(start, stop, step)` for a positive step. */
  function Range(start: int, stop: int, step: int): (r: seq<int>)
    requires step > 0
    ensures |r| > 0 <==> start < stop
    ensures |r| > 0 ==> r[0] == start
    ensures forall x :: x in r ==> start <= x < stop
    decreases stop - start
  {
    if start >= stop then [] else [start] + Range(start + step, stop, step)
  }

  lemma {:induction false} RangeMembership(start: int, stop: int, step: int, x: int)
    requires step > 0
    ensures x in Range(start, stop, step) <==> start <= x < stop && (x - start) % step == 0
    decreases stop - start
  {
    if start < stop {
      RangeMembership(start + step, stop, step, x);
      if start < x < start + step {
        DivModUnique(x - start, step, 0, x - start);
      } else if x >= start + step {
        var q := (x - start - step) / step;
        var r := (x - start - step) % step;
        DivModUnique(x - start, step, q + 1, r);
      }
    }
  }

  /** The step of worker loops: `frameInterval * split`. */
  function Stride(b: Baseline, split: nat): nat
  {
    b.frameInterval * split
  }

  /** Frame indices worker `pos` of `split` visits:
      `range(pos*frameInterval, frameCount, frameInterval*split)`. */
  function WorkerIndices(b: Baseline, split: nat, pos: nat): (idxs: seq<int>)
    requires Stride(b, split) > 0
    ensures |idxs| > 0 <==> pos * b.frameInterval < b.frameCount
    ensures forall x :: x in idxs ==> pos * b.frameInterval <= x < b.frameCount
  {
    Range(pos * b.frameInterval, b.frameCount, Stride(b, split))
  }

  /** `math.floor(i / frameInterval)`: the place of frame `i` in the strip. */
  function SeqIndex(b: Baseline, i: int): int
    requires b.frameInterval > 0
  {
    i / b.frameInterval
  }

  /** The stride is positive exactly when there is at least one frame and at
      least one worker; otherwise the `range` call raises. */
  lemma StridePositive(b: Baseline, split: nat)
    requires b.frameInterval == FrameInterval(b.frameCount)
    ensures Stride(b, split) > 0 <==> b.frameCount >= 1 && split >= 1
    ensures b.frameCount >= 1 ==> b.frameInterval >= 1
  {
    if b.frameCount >= 1 && split >= 1 {
      MulAtLeast(b.frameInterval, split);
    }
  }

  /** Worker `pos` visits `pos*fi + j*fi*split` for every `j >= 0` that stays
      below the frame count, and nothing else. */
  lemma WorkerVisits(b: Baseline, split: nat, pos: nat, x: int)
    requires Stride(b, split) > 0
    ensures x in WorkerIndices(b, split, pos) <==>
      x < b.frameCount && exists j: nat :: x == pos * b.frameInterval + j * Stride(b, split)
  {
    var fi, st := b.frameInterval, Stride(b, split);
    var base := pos * fi;
    RangeMembership(base, b.frameCount, st, x);
    if x in WorkerIndices(b, split, pos) {
      var d := x - base;
      DivNonneg(d, st);
      var j: nat := d / st;
      assert d == st * j + d % st;
      assert x == base + j * st;
    }
    if x < b.frameCount && exists j: nat :: x == base + j * st {
      var j: nat :| x == base + j * st;
      MulMono(st, 0, j);
      assert x - base == st * j + 0;
      DivModUnique(x - base, st, j, 0);
    }
  }

  /** Arithmetic core of `WorkerIndexShape`: `pos*fi + j*fi*split` with
      `j >= 0` are the multiples `k*fi`, `k >= 0`, with `k % split == pos`. */
  lemma StrideShapeForward(fi: int, split: int, pos: int, j: int, x: int)
    requires fi > 0 && split > 0 && 0 <= pos < split && j >= 0
    requires x == pos * fi + j * (fi * split)
    ensures x >= 0 && x % fi == 0 && (x / fi) % split == pos
  {
    var k := pos + j * split;
    assert j * (fi * split) == fi * (j * split);
    assert x == fi * k;
    DivModUnique(x, fi, k, 0);
    DivModUnique(k, split, j, pos);
  }

  lemma StrideShapeBackward(fi: int, split: int, pos: int, x: int)
    requires fi > 0 && split > 0 && 0 <= pos < split
    requires x >= 0 && x % fi == 0 && (x / fi) % split == pos
    ensures x / fi / split >= 0
    ensures x == pos * fi + (x / fi / split) * (fi * split)
  {
    var k := x / fi;
    DivNonneg(x, fi);
    var j := k / split;
    DivNonneg(k, split);
    assert k == split * j + pos;
    assert x == fi * k;
    assert fi * k == fi * (split * j) + fi * pos;
    assert fi * (split * j) == j * (fi * split);
  }

  /** The index set of worker `pos < split` is exactly the multiples `k*fi`
      below the frame count whose `k` leaves remainder `pos` modulo `split`. */
  lemma WorkerIndexShape(b: Baseline, split: nat, pos: nat, x: int)
    requires Stride(b, split) > 0 && pos < split
    ensures x in WorkerIndices(b, split, pos) <==>
      0 <= x < b.frameCount && x % b.frameInterval == 0 && (x / b.frameInterval) % split == pos
  {
    var fi := b.frameInterval;
    assert fi > 0;
    WorkerVisits(b, split, pos, x);
    if x in WorkerIndices(b, split, pos) {
      var j: nat :| x == pos * fi + j * Stride(b, split);
      StrideShapeForward(fi, split, pos, j, x);
    }
    if 0 <= x < b.frameCount && x % fi == 0 && (x / fi) % split == pos {
      StrideShapeBackward(fi, split, pos, x);
      var j: nat := x / fi / split;
      assert x == pos * fi + j * Stride(b, split);
    }
  }

  /** No frame index is visited by two workers. */
  lemma WorkersDisjoint(b: Baseline, split: nat, p: nat, q: nat, x: int)
    requires Stride(b, split) > 0 && p < split && q < split && p != q
    ensures !(x in WorkerIndices(b, split, p) && x in WorkerIndices(b, split, q))
  {
    WorkerIndexShape(b, split, p, x);
    WorkerIndexShape(b, split, q, x);
  }

  /** Together the workers visit every multiple of the frame interval below
      the frame count, each one in the worker `(x / fi) % split`. */
  lemma WorkersCover(b: Baseline, split: nat, x: int)
    requires Stride(b, split) > 0
    ensures (exists p: nat :: p < split && x in WorkerIndices(b, split, p)) <==>
      0 <= x < b.frameCount && x % b.frameInterval == 0
  {
    var fi := b.frameInterval;
    assert fi > 0 && split > 0;
    if 0 <= x < b.frameCount && x % fi == 0 {
      var p: nat := (x / fi) % split;
      WorkerIndexShape(b, split, p, x);
    }
    if exists p: nat :: p < split && x in WorkerIndices(b, split, p) {
      var p: nat :| p < split && x in WorkerIndices(b, split, p);
      WorkerIndexShape(b, split, p, x);
    }
  }

  /** The tag of a visited frame `k*fi` is `k`, and it is below 100: a run
      never produces more than 100 distinct thumbnails. */
  lemma SeqIndexOfVisited(b: Baseline, split: nat, pos: nat, x: int)
    requires b.frameInterval == FrameInterval(b.frameCount)
    requires Stride(b, split) > 0 && pos < split
    requires x in WorkerIndices(b, split, pos)
    ensures SeqIndex(b, x) * b.frameInterval == x
    ensures 0 <= SeqIndex(b, x) < ThumbBudget
  {
    var fi := b.frameInterval;
    WorkerIndexShape(b, split, pos, x);
    var k := x / fi;
    assert x == fi * k;
    assert fi * k < fi * ThumbBudget;
    MulCancelLess(fi, k, ThumbBudget);
    DivNonneg(x, fi);
  }

  /** Tag `k` of a run is visited by some worker when `k*fi` is below the
      frame count... */
  lemma RunTagProduced(b: Baseline, split: nat, k: int) returns (p: nat, x: int)
    requires b.frameInterval == FrameInterval(b.frameCount)
    requires Stride(b, split) > 0
    requires 0 <= k && k * b.frameInterval < b.frameCount
    ensures x == k * b.frameInterval
    ensures p < split && x in WorkerIndices(b, split, p) && SeqIndex(b, x) == k
  {
    var fi := b.frameInterval;
    x := k * fi;
    DivModUnique(x, fi, k, 0);
    WorkersCover(b, split, x);
    p :| p < split && x in WorkerIndices(b, split, p);
  }

  /** ... and every tag a worker visits is such a `k`: the tags of a whole
      run are exactly `0 .. ceil(frameCount/fi) - 1`. */
  lemma RunTagBound(b: Baseline, split: nat, p: nat, x: int)
    requires b.frameInterval == FrameInterval(b.frameCount)
    requires Stride(b, split) > 0 && p < split && x in WorkerIndices(b, split, p)
    ensures 0 <= SeqIndex(b, x) && SeqIndex(b, x) * b.frameInterval < b.frameCount
  {
    SeqIndexOfVisited(b, split, p, x);
    WorkerIndexShape(b, split, p, x);
  }

  /** The longest prefix of `idxs` whose frames can all be read. */
  function ReadablePrefix(idxs: seq<int>, readable: int -> bool): (p: seq<int>)
    ensures p <= idxs
    ensures forall i :: 0 <= i < |p| ==> readable(p[i])
    ensures |p| < |idxs| ==> !readable(idxs[|p|])
  {
    if |idxs| == 0 || !readable(idxs[0]) then []
    else [idxs[0]] + ReadablePrefix(idxs[1..], readable)
  }

  /** A prefix that is readable throughout and stops at an unreadable frame
      (or the end) is the longest readable prefix. */
  lemma ReadablePrefixUnique(idxs: seq<int>, readable: int -> bool, k: nat)
    requires k <= |idxs|
    requires forall i :: 0 <= i < k ==> readable(idxs[i])
    requires k < |idxs| ==> !readable(idxs[k])
    ensures ReadablePrefix(idxs, readable) == idxs[..k]
  {
  }

  /** The thumbnails emitted for frames `idxs`, each tagged with its place. */
  function ReelImages(b: Baseline, idxs: seq<int>): (s: seq<WorkerSignal>)
    requires b.frameInterval > 0 && b.frameHeight != 0
    ensures |s| == |idxs|
    ensures forall j :: 0 <= j < |idxs| ==>
      (s[j] == ReelImage(ThumbOf(b.frameWidth, b.frameHeight, idxs[j]), SeqIndex(b, idxs[j])))
  {
    seq(|idxs|, j requires 0 <= j < |idxs| =>
      ReelImage(ThumbOf(b.frameWidth, b.frameHeight, idxs[j]), SeqIndex(b, idxs[j])))
  }

  /** The `reelImage` signals worker `pos` of `split` emits before it stops. */
  function Emitted(b: Baseline, split: nat, pos: nat, readable: int -> bool): (s: seq<WorkerSignal>)
    requires b.frameHeight != 0 && Stride(b, split) > 0
    ensures |s| <= |WorkerIndices(b, split, pos)|
  {
    ReelImages(b, ReadablePrefix(WorkerIndices(b, split, pos), readable))
  }

  /** `ExtractImages.run`: read the baseline, then seek and read each of the
      worker's frames, stop at the first failed read, and finally emit
      `finished` and `over(pos)`. A zero frame height or a zero stride raises
      before anything is emitted. */
  method RunWorker(frameCount: nat, fW: int, fH: int, split: nat, pos: nat, readable: int -> bool)
    returns (r: Result<seq<WorkerSignal>, ToolError>)
    ensures fH == 0 <==> r == Failure(ZeroFrameHeight)
    ensures fH != 0 && (frameCount == 0 || split == 0) <==> r == Failure(ZeroRangeStep)
    ensures r.Success? ==>
      var b := BaselineRead(frameCount, fW, fH).value;
      Stride(b, split) > 0 &&
      r.value == Emitted(b, split, pos, readable) + [Finished, Over(pos)]
  {
    var base := BaselineRead(frameCount, fW, fH);
    if base.Failure? {
      return Failure(base.error);
    }
    var b := base.value;
    StridePositive(b, split);
    if Stride(b, split) == 0 {
      return Failure(ZeroRangeStep);
    }
    var idxs := WorkerIndices(b, split, pos);
    var out: seq<WorkerSignal> := [];
    var k := 0;
    while k < |idxs|
      invariant 0 <= k <= |idxs|
      invariant forall i :: 0 <= i < k ==> readable(idxs[i])
      invariant out == ReelImages(b, idxs[..k])
    {
      if !readable(idxs[k]) {
        break;
      }
      out := out + [ReelImage(ThumbOf(fW, fH, idxs[k]), SeqIndex(b, idxs[k]))];
      k := k + 1;
    }
    ReadablePrefixUnique(idxs, readable, k);
    r := Success(out + [Finished, Over(pos)]);
  }

  /** Emitted frames are a prefix of the worker's indices, every one of them
      readable, and the first frame after them (if any) is not. These are
      the images `RunWorker` sends before its done signals. */
  lemma WorkerStopsAtFirstFailure(b: Baseline, split: nat, pos: nat, readable: int -> bool)
    requires b.frameInterval == FrameInterval(b.frameCount) && b.frameHeight != 0
    requires Stride(b, split) > 0 && pos < split
    ensures var idxs := WorkerIndices(b, split, pos);
      var p := ReadablePrefix(idxs, readable);
      var s := ReelImages(b, p);
      && s == Emitted(b, split, pos, readable)
      && (forall j :: 0 <= j < |s| ==>
            (s[j].image.frame == idxs[j] && readable(idxs[j])
             && 0 <= s[j].seqIndex < ThumbBudget && s[j].image.height == ThumbHeight))
      && (|s| < |idxs| ==> !readable(idxs[|s|]))
  {
    var idxs := WorkerIndices(b, split, pos);
    var p := ReadablePrefix(idxs, readable);
    forall j | 0 <= j < |p|
      ensures 0 <= SeqIndex(b, p[j]) < ThumbBudget
    {
      assert p[j] == idxs[j];
      SeqIndexOfVisited(b, split, pos, idxs[j]);
    }
  }

  /** When every frame of the file decodes, tag `k` (with `k*fi` below the
      frame count) is emitted by some worker, with the thumbnail of frame
      `k*fi`: nothing in the strip is left out. */
  lemma RunTagEmitted(b: Baseline, split: nat, k: int, readable: int -> bool) returns (p: nat)
    requires b.frameInterval == FrameInterval(b.frameCount) && b.frameHeight != 0
    requires Stride(b, split) > 0
    requires 0 <= k && k * b.frameInterval < b.frameCount
    requires forall i :: 0 <= i < b.frameCount ==> readable(i)
    ensures p < split
    ensures ReelImage(ThumbOf(b.frameWidth, b.frameHeight, k * b.frameInterval), k) in Emitted(b, split, p, readable)
  {
    var x;
    p, x := RunTagProduced(b, split, k);
    var idxs := WorkerIndices(b, split, p);
    forall i | 0 <= i < |idxs|
      ensures readable(idxs[i])
    {
      assert idxs[i] in idxs;
    }
    ReadablePrefixUnique(idxs, readable, |idxs|);
    assert idxs[..|idxs|] == idxs;
    var j :| 0 <= j < |idxs| && idxs[j] == x;
    var s := Emitted(b, split, p, readable);
    assert s[j] == ReelImage(ThumbOf(b.frameWidth, b.frameHeight, x), k);
  }

  /** A 3000-frame file that decodes throughout is sampled every 30 frames,
      and however many workers share the run, all hundred tags 0..99 are
      emitted, tag `k` with the thumbnail of frame `30*k`. */
  lemma ThreeThousandFrames(fW: int, fH: int, split: nat, readable: int -> bool)
    requires fH != 0 && split >= 1
    requires forall i :: 0 <= i < 3000 ==> readable(i)
    ensures BaselineRead(3000, fW, fH).Success?
    ensures var b := BaselineRead(3000, fW, fH).value;
      && b.frameInterval == 30
      && Stride(b, split) > 0
      && forall k :: 0 <= k < ThumbBudget ==>
           exists p: nat :: (p < split && ReelImage(ThumbOf(fW, fH, 30 * k), k) in Emitted(b, split, p, readable))
  {
    var b := BaselineRead(3000, fW, fH).value;
    assert b.frameInterval == 30;
    StridePositive(b, split);
    assert Stride(b, split) > 0;
    forall k | 0 <= k < ThumbBudget
      ensures exists p: nat :: (p < split &&
        ReelImage(ThumbOf(fW, fH, 30 * k), k) in Emitted(b, split, p, readable))
    {
      assert k * b.frameInterval == 30 * k < 3000;
      var p := RunTagEmitted(b, split, k, readable);
      assert b.frameWidth == fW && b.frameHeight == fH;
      assert ReelImage(ThumbOf(fW, fH, 30 * k), k) in Emitted(b, split, p, readable);
    }
    assert forall k :: 0 <= k < ThumbBudget ==>
      exists p: nat :: (p < split && ReelImage(ThumbOf(fW, fH, 30 * k), k) in Emitted(b, split, p, readable));
  }

  // ---------------------------------------------------------------------------
  // PreviewPosition
  // ---------------------------------------------------------------------------

  /** A single-frame extractor bound to one file; `readable` is its decoder. */
  datatype PreviewPosition = PreviewPosition(frameCount: int, frameWidth: int, frameHeight: int,
                                             readable: int -> bool)

  /** What one `extract` call did: where it seeked and what it returned. */
  datatype Extraction = Extraction(seekedTo: int, image: Option<Thumb>)

  /** The constructor: reads the frame count and size; a zero height raises. */
  function OpenPreview(frameCount: int, fW: int, fH: int, readable: int -> bool): (r: Result<PreviewPosition, ToolError>)
    ensures r.Failure? <==> fH == 0
    ensures r.Success? ==> r.value.frameHeight == fH && r.value.frameWidth == fW && r.value.frameCount == frameCount
  {
    if fH == 0 then Failure(ZeroFrameHeight) else Success(PreviewPosition(frameCount, fW, fH, readable))
  }

  /** `extract(n)`: seek to frame `n` (no range check), read it, and return
      its thumbnail, or `None` when the read fails. */
  function Extract(pp: PreviewPosition, n: int): (e: Extraction)
    requires pp.frameHeight != 0
    ensures e.seekedTo == n
    ensures e.image.Some? <==> pp.readable(n)
    ensures e.image.Some? ==> e.image.value.frame == n && e.image.value.height == ThumbHeight
  {
    Extraction(n, if pp.readable(n) then Some(ThumbOf(pp.frameWidth, pp.frameHeight, n)) else None)
  }

  /** The frame count plays no part in `extract`: a frame beyond the end is
      returned whenever the decoder manages to read it. */
  lemma ExtractIgnoresFrameCount(pp: PreviewPosition, n: int, count: int)
    requires pp.frameHeight != 0
    ensures Extract(pp, n) == Extract(pp.(frameCount := count), n)
  {
  }

  /** A preview has the same size as a strip thumbnail of the same file. */
  lemma PreviewMatchesStrip(pp: PreviewPosition, b: Baseline, n: int)
    requires pp.frameHeight != 0 && pp.readable(n)
    requires b.frameWidth == pp.frameWidth && b.frameHeight == pp.frameHeight
    ensures Extract(pp, n).image == Some(ThumbOf(b.frameWidth, b.frameHeight, n))
  {
  }

  /** A 100x100 file that reads: `extract(50)` seeks to 50 and returns an
      80x80 image of frame 50. */
  lemma ExtractSquareFrame(readable: int -> bool)
    requires readable(50)
    ensures Extract(PreviewPosition(100, 100, 100, readable), 50) == Extraction(50, Some(Thumb(50, 80, 80)))
  {
    assert (100 as real / 100 as real) * 80.0 == 80.0;
  }
}
