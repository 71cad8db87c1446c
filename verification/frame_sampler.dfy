/** The frame-index arithmetic of `load_video` and `load_video_uniform`.
    Decoding is left out: a video is its frame count and its average frame
    rate, the float-derived strides `round(fps_avg / rate)` are an opaque
    function of the requested rate, and a timestamp `round(idx / fps_avg, 1)`
    is an opaque function of the frame index. */
module FrameSampler {
  import opened Outcomes
  import opened Arith

  /** What the decoder reports: `len(vr)` and `vr.get_avg_fps()`. */
  datatype Video = Video(frameCount: nat, avgFps: real)

  /** The chosen frame indices and one timestamp per index. */
  datatype Sample = Sample(indices: seq<int>, timestamps: seq<real>)

  datatype SampleError =
    | NonPositiveFps   // `load_video` gives up before choosing frames
    | ZeroStep         // `range` with step 0 raises `ValueError`
    | DivisionByZero   // `//` by an empty index list, or a rate of 0
    | NegativeCount    // `np.linspace` with a negative sample count
    | EmptyVideo       // fetching any frame of a video without frames

  /** `list(range(0, n, step))`. */
  function PyRange(n: nat, step: int): (r: Result<seq<int>, SampleError>)
    ensures r.Failure? <==> step == 0
    ensures r.Success? && step < 0 ==> r.value == []
  {
    if step == 0 then Failure(ZeroStep)
    else if step < 0 then Success([])
    else Success(seq(CeilDiv(n, step), i => i * step))
  }

  /** With a positive step the range holds exactly the multiples of `step`
      in `[0, n)`, in increasing order. */
  lemma PyRangeMembers(n: nat, step: int)
    requires step > 0
    ensures var r := PyRange(n, step).value;
      && (forall i :: 0 <= i < |r| ==> r[i] == i * step && 0 <= r[i] < n)
      && (forall i, j :: 0 <= i < j < |r| ==> r[i] < r[j])
      && (forall x :: x in r <==> 0 <= x < n && x % step == 0)
  {
    var r := PyRange(n, step).value;
    assert |r| == CeilDiv(n, step);
    forall i | 0 <= i < |r|
      ensures r[i] == i * step && 0 <= r[i] < n
    {
      CeilDivBounds(n, step, i);
      MulLeft(0, i, step);
    }
    forall i, j | 0 <= i < j < |r|
      ensures r[i] < r[j]
    {
      MulLeft(i + 1, j, step);
    }
    forall x
      ensures x in r <==> 0 <= x < n && x % step == 0
    {
      if 0 <= x < n && x % step == 0 {
        var q := x / step;
        assert q * step == x;
        if q < 0 {
          MulLeft(q, -1, step);
        }
        CeilDivBounds(n, step, q);
        assert r[q] == x;
      }
      if x in r {
        var i :| 0 <= i < |r| && r[i] == x;
        MultipleMod(i, step);
      }
    }
  }

  /** The `i`-th of `k >= 2` evenly spaced integer points from 0 to `last`. */
  function LinPoint(i: int, last: nat, k: nat): int
    requires k >= 2
  {
    i * last / (k - 1)
  }

  /** `np.linspace(0, last, k, dtype=int)`: `k` evenly spaced points from 0
      to `last`, cast to int, with a single sample sitting at 0. */
  function Linspace(last: nat, k: nat): (r: seq<int>)
    ensures |r| == k
  {
    seq(k, i => if k < 2 then 0 else LinPoint(i, last, k))
  }

  lemma LinPointBounds(i: int, last: nat, k: nat)
    requires k >= 2 && 0 <= i < k
    ensures 0 <= LinPoint(i, last, k) <= last
    ensures LinPoint(0, last, k) == 0 && LinPoint(k - 1, last, k) == last
  {
    MulLeft(0, i, last);
    MulLeft(i, k - 1, last);
    DivMonotone(0, i * last, k - 1);
    DivMonotone(i * last, (k - 1) * last, k - 1);
    MultipleMod(last, k - 1);
    assert (k - 1) * last == last * (k - 1);
  }

  lemma LinPointMonotone(i: int, j: int, last: nat, k: nat)
    requires k >= 2 && i <= j
    ensures LinPoint(i, last, k) <= LinPoint(j, last, k)
  {
    MulLeft(i, j, last);
    DivMonotone(i * last, j * last, k - 1);
  }

  lemma LinPointStrict(i: int, j: int, last: nat, k: nat)
    requires k >= 2 && i < j && k - 1 <= last
    ensures LinPoint(i, last, k) < LinPoint(j, last, k)
  {
    var d := k - 1;
    MulLeft(i + 1, j, last);
    assert (i + 1) * last == i * last + last;
    DivMonotone(i * last + d, j * last, d);
    var q, m := i * last / d, i * last % d;
    assert i * last + d == (q + 1) * d + m;
    DivUnique(i * last + d, d, q + 1, m);
  }

  /** The linspace indices run from 0 to `last`, never decreasing, and the
      last one is `last` itself once there are two samples. */
  lemma LinspaceShape(last: nat, k: nat)
    ensures var r := Linspace(last, k);
      && (forall i :: 0 <= i < k ==> 0 <= r[i] <= last)
      && (forall i, j :: 0 <= i <= j < k ==> r[i] <= r[j])
      && (k >= 1 ==> r[0] == 0)
      && (k >= 2 ==> r[k - 1] == last)
  {
    var r := Linspace(last, k);
    if k >= 2 {
      forall i | 0 <= i < k
        ensures 0 <= r[i] <= last
      {
        LinPointBounds(i, last, k);
      }
      forall i, j | 0 <= i <= j < k
        ensures r[i] <= r[j]
      {
        LinPointMonotone(i, j, last, k);
      }
      LinPointBounds(0, last, k);
    }
  }

  /** When there are no more samples than frames, the linspace indices are
      pairwise distinct. */
  lemma LinspaceStrict(last: nat, k: nat)
    requires k - 1 <= last
    ensures var r := Linspace(last, k);
      forall i, j :: 0 <= i < j < k ==> r[i] < r[j]
  {
    var r := Linspace(last, k);
    if k >= 2 {
      forall i, j | 0 <= i < j < k
        ensures r[i] < r[j]
      {
        LinPointStrict(i, j, last, k);
      }
    }
  }

  /** A sequence of naturals rising at every step is at least its index. */
  lemma {:induction false} RisingAtLeastIndex(r: seq<int>, j: nat)
    requires j < |r| && r[0] >= 0
    requires forall i :: 0 <= i < |r| - 1 ==> r[i] < r[i + 1]
    ensures r[j] >= j
  {
    if j > 0 {
      RisingAtLeastIndex(r, j - 1);
    }
  }

  /** With more samples than frames some index is repeated. */
  lemma LinspaceRepeats(last: nat, k: nat)
    requires k > last + 1
    ensures var r := Linspace(last, k);
      exists i :: 0 <= i < k - 1 && r[i] == r[i + 1]
  {
    var r := Linspace(last, k);
    LinspaceShape(last, k);
    if forall i :: 0 <= i < k - 1 ==> r[i] != r[i + 1] {
      RisingAtLeastIndex(r, k - 1);
    }
  }

  /** One timestamp per index, in the same order. */
  function Timestamps(indices: seq<int>, timeOf: int -> real): (ts: seq<real>)
    ensures |ts| == |indices|
    ensures forall i :: 0 <= i < |indices| ==> ts[i] == timeOf(indices[i])
  {
    seq(|indices|, i requires 0 <= i < |indices| => timeOf(indices[i]))
  }

  /** For a timestamp function that never decreases, the timestamps of
      non-decreasing indices never decrease either. */
  lemma TimestampsMonotone(indices: seq<int>, timeOf: int -> real)
    requires forall a, b :: a <= b ==> timeOf(a) <= timeOf(b)
    requires forall i, j :: 0 <= i <= j < |indices| ==> indices[i] <= indices[j]
    ensures var ts := Timestamps(indices, timeOf);
      forall i, j :: 0 <= i <= j < |ts| ==> ts[i] <= ts[j]
  {
  }

  /** The initial stride: `round(fps_avg / fps)` for a positive requested
      rate, and 1 otherwise. */
  function InitialStep(fps: int, stepFor: int -> int): int
  {
    if fps > 0 then stepFor(fps) else 1
  }

  /** The `max_fps` branch: the frame budget per initial index, capped by
      `max_fps`, is the higher rate; when it exceeds the requested rate the
      video is re-strided with the stride of that higher rate. */
  function Resample(n: nat, idx: seq<int>, maxFrames: int, fps: int, maxFps: Option<int>,
                    stepFor: int -> int): Result<seq<int>, SampleError>
  {
    match maxFps
    case None => Success(idx)
    case Some(upper) =>
      if |idx| == 0 then Failure(DivisionByZero)
      else
        var higher := Min(maxFrames / |idx|, upper);
        if higher <= fps then Success(idx)
        else if higher == 0 then Failure(DivisionByZero)
        else PyRange(n, stepFor(higher))
  }

  /** The re-sampling changes the indices only when `max_fps` is set and
      `min(max_frames // count, max_fps)` exceeds the requested rate; it
      fails only on an empty index list or a zero stride or rate; and a
      re-stride with a positive stride yields exactly that stride's
      multiples below the frame count, in increasing order. */
  lemma ResampleWhen(n: nat, idx: seq<int>, maxFrames: int, fps: int, maxFps: Option<int>,
                     stepFor: int -> int)
    ensures var r := Resample(n, idx, maxFrames, fps, maxFps, stepFor);
      && (r.Success? && r.value != idx ==>
            maxFps.Some? && |idx| > 0 && Min(maxFrames / |idx|, maxFps.value) > fps)
      && (r.Failure? <==>
            maxFps.Some? &&
            (|idx| == 0 ||
             (var higher := Min(maxFrames / |idx|, maxFps.value);
              higher > fps && (higher == 0 || stepFor(higher) == 0))))
      && (maxFps.Some? && |idx| > 0 && Min(maxFrames / |idx|, maxFps.value) > fps ==>
            var higher := Min(maxFrames / |idx|, maxFps.value);
            higher != 0 && stepFor(higher) > 0 ==>
              && r.Success?
              && (forall x :: x in r.value <==> 0 <= x < n && x % stepFor(higher) == 0)
              && (forall i, j :: 0 <= i < j < |r.value| ==> r.value[i] < r.value[j]))
  {
    if maxFps.Some? && |idx| > 0 {
      var higher := Min(maxFrames / |idx|, maxFps.value);
      if higher > fps && higher != 0 && stepFor(higher) > 0 {
        PyRangeMembers(n, stepFor(higher));
      }
    }
  }

  /** The budget cap: a list longer than a positive `max_frames` is
      replaced by `max_frames` linspace indices over the whole video. */
  function Cap(n: nat, idx: seq<int>, maxFrames: int): (r: seq<int>)
    requires |idx| > 0 ==> n > 0
  {
    if maxFrames > 0 && |idx| > maxFrames then Linspace(n - 1, maxFrames) else idx
  }

  /** The cap keeps the list within a positive budget, fixes the first and
      last index of a replaced list, and keeps a list already in range in
      range. */
  lemma CapShape(n: nat, idx: seq<int>, maxFrames: int)
    requires |idx| > 0 ==> n > 0
    ensures var r := Cap(n, idx, maxFrames);
      && (maxFrames > 0 ==> |r| <= maxFrames)
      && (maxFrames > 0 && |idx| > maxFrames ==>
            |r| == maxFrames && r[0] == 0 && (maxFrames >= 2 ==> r[|r| - 1] == n - 1))
      && (maxFrames <= 0 || |idx| <= maxFrames ==> r == idx)
      && ((forall i :: 0 <= i < |idx| ==> 0 <= idx[i] < n) ==>
            forall i :: 0 <= i < |r| ==> 0 <= r[i] < n)
      && ((forall i, j :: 0 <= i <= j < |idx| ==> idx[i] <= idx[j]) ==>
            forall i, j :: 0 <= i <= j < |r| ==> r[i] <= r[j])
  {
    if maxFrames > 0 && |idx| > maxFrames {
      LinspaceShape(n - 1, maxFrames);
    }
  }

  /** `load_video`'s index selection: give up on a non-positive frame rate,
      stride through the video, re-stride for `max_fps`, cap to the budget,
      and stamp every chosen index. */
  function LoadVideo(v: Video, maxFrames: int, fps: int, maxFps: Option<int>,
                     stepFor: int -> int, timeOf: int -> real): Result<Sample, SampleError>
  {
    if v.avgFps <= 0.0 then Failure(NonPositiveFps)
    else
      match PyRange(v.frameCount, InitialStep(fps, stepFor))
      case Failure(e) => Failure(e)
      case Success(initial) =>
        match Resample(v.frameCount, initial, maxFrames, fps, maxFps, stepFor)
        case Failure(e) => Failure(e)
        case Success(resampled) =>
          InRangeNonEmpty(v.frameCount, resampled, fps, maxFps, stepFor, initial, maxFrames);
          var idx := Cap(v.frameCount, resampled, maxFrames);
          Success(Sample(idx, Timestamps(idx, timeOf)))
  }

  /** Indices drawn from `range(0, n, step)` exist only when `n > 0`. */
  lemma InRangeNonEmpty(n: nat, resampled: seq<int>, fps: int, maxFps: Option<int>,
                        stepFor: int -> int, initial: seq<int>, maxFrames: int)
    requires PyRange(n, InitialStep(fps, stepFor)) == Success(initial)
    requires Resample(n, initial, maxFrames, fps, maxFps, stepFor) == Success(resampled)
    ensures |resampled| > 0 ==> n > 0
    ensures forall i :: 0 <= i < |resampled| ==> 0 <= resampled[i] < n
  {
    RangeInBounds(n, InitialStep(fps, stepFor));
    if maxFps.Some? && |initial| > 0 {
      var higher := Min(maxFrames / |initial|, maxFps.value);
      if higher > fps && higher != 0 {
        RangeInBounds(n, stepFor(higher));
      }
    }
  }

  /** The indices of a successful range never decrease. */
  lemma RangeSorted(n: nat, step: int)
    ensures PyRange(n, step).Success? ==>
      forall i, j :: 0 <= i <= j < |PyRange(n, step).value| ==> PyRange(n, step).value[i] <= PyRange(n, step).value[j]
  {
    if step > 0 {
      PyRangeMembers(n, step);
    }
  }

  /** Re-striding keeps the index list sorted: whichever range it ends
      with never decreases. */
  lemma ResampleSorted(n: nat, idx: seq<int>, maxFrames: int, fps: int, maxFps: Option<int>,
                       stepFor: int -> int, resampled: seq<int>)
    requires forall i, j :: 0 <= i <= j < |idx| ==> idx[i] <= idx[j]
    requires Resample(n, idx, maxFrames, fps, maxFps, stepFor) == Success(resampled)
    ensures forall i, j :: 0 <= i <= j < |resampled| ==> resampled[i] <= resampled[j]
  {
    if maxFps.Some? && |idx| > 0 {
      var higher := Min(maxFrames / |idx|, maxFps.value);
      if higher > fps && higher != 0 {
        RangeSorted(n, stepFor(higher));
      }
    }
  }

  lemma RangeInBounds(n: nat, step: int)
    ensures PyRange(n, step).Success? ==>
      forall i :: 0 <= i < |PyRange(n, step).value| ==> 0 <= PyRange(n, step).value[i] < n
  {
    if step > 0 {
      PyRangeMembers(n, step);
    }
  }

  /** What `load_video` promises: a non-positive frame rate is an error
      raised before any index is chosen; a result has one timestamp per
      index, every index is a frame of the video, the indices never
      decrease, and a positive budget is respected. */
  lemma LoadVideoShape(v: Video, maxFrames: int, fps: int, maxFps: Option<int>,
                       stepFor: int -> int, timeOf: int -> real)
    ensures var r := LoadVideo(v, maxFrames, fps, maxFps, stepFor, timeOf);
      && (v.avgFps <= 0.0 ==> r == Failure(NonPositiveFps))
      && (r.Success? ==>
            && |r.value.timestamps| == |r.value.indices|
            && (forall i :: 0 <= i < |r.value.indices| ==>
                  0 <= r.value.indices[i] < v.frameCount
                  && r.value.timestamps[i] == timeOf(r.value.indices[i]))
            && (forall i, j :: 0 <= i <= j < |r.value.indices| ==>
                  r.value.indices[i] <= r.value.indices[j])
            && (maxFrames > 0 ==> |r.value.indices| <= maxFrames))
  {
    var r := LoadVideo(v, maxFrames, fps, maxFps, stepFor, timeOf);
    if r.Success? {
      var initial := PyRange(v.frameCount, InitialStep(fps, stepFor)).value;
      var resampled := Resample(v.frameCount, initial, maxFrames, fps, maxFps, stepFor).value;
      InRangeNonEmpty(v.frameCount, resampled, fps, maxFps, stepFor, initial, maxFrames);
      RangeSorted(v.frameCount, InitialStep(fps, stepFor));
      ResampleSorted(v.frameCount, initial, maxFrames, fps, maxFps, stepFor, resampled);
      CapShape(v.frameCount, resampled, maxFrames);
    }
  }

  /** With a timestamp function that never decreases, `load_video`'s
      timestamps never decrease either. */
  lemma LoadVideoTimestampsSorted(v: Video, maxFrames: int, fps: int, maxFps: Option<int>,
                                  stepFor: int -> int, timeOf: int -> real)
    requires forall a, b :: a <= b ==> timeOf(a) <= timeOf(b)
    ensures var r := LoadVideo(v, maxFrames, fps, maxFps, stepFor, timeOf);
      r.Success? ==> forall i, j :: 0 <= i <= j < |r.value.timestamps| ==>
        r.value.timestamps[i] <= r.value.timestamps[j]
  {
    var r := LoadVideo(v, maxFrames, fps, maxFps, stepFor, timeOf);
    if r.Success? {
      LoadVideoShape(v, maxFrames, fps, maxFps, stepFor, timeOf);
      TimestampsMonotone(r.value.indices, timeOf);
    }
  }

  /** Without `max_fps` and within the budget, `load_video` returns exactly
      the frames 0, step, 2*step, ... below the frame count. */
  lemma LoadVideoPlainStride(v: Video, maxFrames: int, fps: int, stepFor: int -> int,
                             timeOf: int -> real)
    requires v.avgFps > 0.0 && InitialStep(fps, stepFor) > 0
    requires maxFrames <= 0 || CeilDiv(v.frameCount, InitialStep(fps, stepFor)) <= maxFrames
    ensures var r := LoadVideo(v, maxFrames, fps, None, stepFor, timeOf);
      var step := InitialStep(fps, stepFor);
      && r.Success?
      && (forall x :: x in r.value.indices <==> 0 <= x < v.frameCount && x % step == 0)
      && (forall i, j :: 0 <= i < j < |r.value.indices| ==> r.value.indices[i] < r.value.indices[j])
  {
    PyRangeMembers(v.frameCount, InitialStep(fps, stepFor));
  }

  /** `load_video_uniform` (the later definition): `k` linspace indices over
      the whole video and their timestamps. A negative count is rejected by
      `np.linspace`; any index into a video without frames, and any
      timestamp over a zero frame rate, raises. */
  function LoadVideoUniform(v: Video, k: int, timeOf: int -> real): (r: Result<Sample, SampleError>)
  {
    if k < 0 then Failure(NegativeCount)
    else if k > 0 && v.frameCount == 0 then Failure(EmptyVideo)
    else if k > 0 && v.avgFps == 0.0 then Failure(DivisionByZero)
    else
      var idx := Linspace(if v.frameCount == 0 then 0 else v.frameCount - 1, k);
      Success(Sample(idx, Timestamps(idx, timeOf)))
  }

  /** Exactly `k` indices, non-decreasing, within the video, from 0 to the
      last frame when `k >= 2`, distinct when `k` does not exceed the frame
      count and with a repeat when it does; one timestamp per index. */
  lemma LoadVideoUniformShape(v: Video, k: int, timeOf: int -> real)
    ensures var r := LoadVideoUniform(v, k, timeOf);
      && (r.Failure? <==> k < 0 || (k > 0 && (v.frameCount == 0 || v.avgFps == 0.0)))
      && (r.Success? ==>
            var idx := r.value.indices;
            && |idx| == k
            && |r.value.timestamps| == k
            && (forall i :: 0 <= i < k ==> r.value.timestamps[i] == timeOf(idx[i]))
            && (forall i :: 0 <= i < k ==> 0 <= idx[i] < v.frameCount)
            && (forall i, j :: 0 <= i <= j < k ==> idx[i] <= idx[j])
            && (k >= 1 ==> idx[0] == 0)
            && (k >= 2 ==> idx[k - 1] == v.frameCount - 1)
            && (k <= v.frameCount ==> forall i, j :: 0 <= i < j < k ==> idx[i] < idx[j])
            && (k > v.frameCount ==> exists i :: 0 <= i < k - 1 && idx[i] == idx[i + 1]))
  {
    var r := LoadVideoUniform(v, k, timeOf);
    if r.Success? && k > 0 {
      var last := v.frameCount - 1;
      LinspaceShape(last, k);
      if k <= v.frameCount {
        LinspaceStrict(last, k);
      } else {
        LinspaceRepeats(last, k);
      }
    }
  }
}
