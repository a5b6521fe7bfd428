/**
  The adaptive compression search (`compressImage`) and the name under which
  its result is written. The image library is abstracted as an encoder: a
  function from an encode job (a JPEG quality and an optional resize) to the
  encoded bytes, or to nothing when the library rejects the job.
*/
module Compressor {
  import opened Wrappers

  type Bytes = seq<bv8>

  /** The first encode keeps the source's dimensions; every later one resizes. */
  datatype Geometry = Original | Resize(width: int, height: int)

  /** One request to the image library: JPEG at `quality`, with `geometry`. */
  datatype EncodeJob = EncodeJob(quality: int, geometry: Geometry)

  /** The library: the encoded bytes, or None when decoding or encoding fails. */
  type Encoder = EncodeJob -> Option<Bytes>

  /** One trial of the search: the quality, the resize factor in tenths, the bytes produced. */
  datatype Attempt = Attempt(quality: int, scale: int, buffer: Bytes)

  /** Every attempt made, in order, and the job whose encode failed, if one did. */
  datatype Run = Run(attempts: seq<Attempt>, failure: Option<EncodeJob>)

  /** Either the final buffer is written at `path`, or the run stopped at a failed encode. */
  datatype CompressResult = Written(path: string, final: Attempt) | Failed(job: EncodeJob)

  const InitialQuality: int := 80
  const QualityStep: int := 5
  const QualityFloor: int := 10
  /** `resizeFactor` 1, in tenths. */
  const FullScale: int := 10
  /** The target the upload handler passes for every file, in KB. */
  const UploadTargetKB: int := 20
  const OutputDir: string := "compress/"
  const OutputPrefix: string := "compress-"

  const InitialJob: EncodeJob := EncodeJob(InitialQuality, Original)

  /** `Math.round(scale / 10 * length)`: the nearest integer, halves rounded up. */
  function RoundTenths(scale: int, length: int): int {
    (scale * length + 5) / 10
  }

  /** RoundTenths gives the integer nearest to `scale / 10 * length`, a half rounded up. */
  lemma RoundTenthsNearest(scale: int, length: int)
    ensures var n, exact := RoundTenths(scale, length), scale * length;
      10 * n - 5 <= exact < 10 * n + 5
  {
  }

  /** A factor of 0 or less asks for no pixels at all, whatever the length. */
  lemma RoundTenthsDegenerate(scale: int, length: nat)
    requires scale <= 0
    ensures RoundTenths(scale, length) <= 0
  {
    assert scale * length <= 0;
  }

  /** `size / 1024 > targetKB`, for a whole number of KB. */
  predicate OverTarget(size: int, targetKB: int) {
    size > 1024 * targetKB
  }

  /** `size / 1024 > targetKB * 2`. */
  predicate FarOverTarget(size: int, targetKB: int) {
    size > 2048 * targetKB
  }

  /** The loop guard. */
  predicate Continues(a: Attempt, targetKB: int) {
    OverTarget(|a.buffer|, targetKB) && a.quality > QualityFloor
  }

  /** The resize factor of the next attempt: one tenth smaller when far over the target. */
  function NextScale(a: Attempt, targetKB: int): int {
    if FarOverTarget(|a.buffer|, targetKB) then a.scale - 1 else a.scale
  }

  /** The job one loop iteration sends to the library after attempt `a`. */
  function NextJob(a: Attempt, targetKB: int, width: int, height: int): EncodeJob {
    var scale := NextScale(a, targetKB);
    EncodeJob(a.quality - QualityStep, Resize(RoundTenths(scale, width), RoundTenths(scale, height)))
  }

  /** The search from attempt `a` on. */
  function RunFrom(encode: Encoder, width: int, height: int, targetKB: int, a: Attempt): (r: Run)
    ensures r.attempts != [] && r.attempts[0] == a
    decreases a.quality
  {
    if !Continues(a, targetKB) then Run([a], None)
    else
      var job := NextJob(a, targetKB, width, height);
      match encode(job)
      case None => Run([a], Some(job))
      case Some(buffer) =>
        var rest := RunFrom(encode, width, height, targetKB, Attempt(job.quality, NextScale(a, targetKB), buffer));
        Run([a] + rest.attempts, rest.failure)
  }

  /** The whole search: the initial encode, then the loop. */
  function SearchRun(encode: Encoder, width: int, height: int, targetKB: int): (r: Run)
    ensures r.attempts != [] || r.failure.Some?
    ensures r.attempts == [] ==> r.failure == Some(InitialJob)
  {
    match encode(InitialJob)
    case None => Run([], Some(InitialJob))
    case Some(buffer) => RunFrom(encode, width, height, targetKB, Attempt(InitialQuality, FullScale, buffer))
  }

  /** What a run leaves behind: the last attempt written under `compress/`, or the failure. */
  function Outcome(r: Run, outputPath: string): CompressResult
    requires r.attempts != [] || r.failure.Some?
  {
    if r.failure.Some? then Failed(r.failure.value)
    else Written(OutputDir + outputPath, r.attempts[|r.attempts| - 1])
  }

  /** `compressImage(inputPath, outputPath, targetKB)` on a source of `width` by `height` pixels. */
  function Compress(encode: Encoder, outputPath: string, width: int, height: int, targetKB: int): CompressResult {
    Outcome(SearchRun(encode, width, height, targetKB), outputPath)
  }

  /**
    The search loop as the source runs it: `quality`, `resizeFactor` and
    `outputBuffer` are updated in place until the buffer is within the target
    or the quality reaches the floor; the last buffer is the one written.
  */
  method CompressImage(encode: Encoder, outputPath: string, width: int, height: int, targetKB: int)
    returns (r: CompressResult)
    ensures r == Compress(encode, outputPath, width, height, targetKB)
  {
    var quality := InitialQuality;
    var resizeFactor := FullScale;
    var first := encode(InitialJob);
    if first.None? {
      return Failed(InitialJob);
    }
    var outputBuffer := first.value;
    while |outputBuffer| > 1024 * targetKB && quality > QualityFloor
      invariant Outcome(RunFrom(encode, width, height, targetKB, Attempt(quality, resizeFactor, outputBuffer)), outputPath)
        == Compress(encode, outputPath, width, height, targetKB)
      decreases quality
    {
      if |outputBuffer| > 2048 * targetKB {
        resizeFactor := resizeFactor - 1;
      }
      quality := quality - QualityStep;
      var job := EncodeJob(quality, Resize(RoundTenths(resizeFactor, width), RoundTenths(resizeFactor, height)));
      var next := encode(job);
      if next.None? {
        return Failed(job);
      }
      outputBuffer := next.value;
    }
    r := Written(OutputDir + outputPath, Attempt(quality, resizeFactor, outputBuffer));
  }

  // ---------------------------------------------------------------------------
  // The search as a relation between consecutive attempts

  /** Attempt `b` is what one loop iteration makes of attempt `a`. */
  ghost predicate Step(encode: Encoder, width: int, height: int, targetKB: int, a: Attempt, b: Attempt) {
    && Continues(a, targetKB)
    && b.quality == a.quality - QualityStep
    && b.scale == NextScale(a, targetKB)
    && encode(NextJob(a, targetKB, width, height)) == Some(b.buffer)
  }

  /** How a run ends after its last attempt: the guard fails, or the next encode fails. */
  ghost predicate Ends(encode: Encoder, width: int, height: int, targetKB: int, last: Attempt, failure: Option<EncodeJob>) {
    if Continues(last, targetKB) then
      failure == Some(NextJob(last, targetKB, width, height)) && encode(failure.value).None?
    else
      failure.None?
  }

  /** `r` is a run the source's search makes with this encoder and target. */
  ghost predicate IsSearchTrace(encode: Encoder, width: int, height: int, targetKB: int, r: Run) {
    var n := |r.attempts|;
    && (n == 0 <==> encode(InitialJob).None?)
    && (n == 0 ==> r.failure == Some(InitialJob))
    && (n > 0 ==> r.attempts[0] == Attempt(InitialQuality, FullScale, encode(InitialJob).value))
    && (forall i :: 0 < i < n ==> Step(encode, width, height, targetKB, r.attempts[i - 1], r.attempts[i]))
    && (n > 0 ==> Ends(encode, width, height, targetKB, r.attempts[n - 1], r.failure))
  }

  lemma {:induction false} RunFromSteps(encode: Encoder, width: int, height: int, targetKB: int, a: Attempt)
    ensures var r := RunFrom(encode, width, height, targetKB, a);
      && (forall i :: 0 < i < |r.attempts| ==> Step(encode, width, height, targetKB, r.attempts[i - 1], r.attempts[i]))
      && Ends(encode, width, height, targetKB, r.attempts[|r.attempts| - 1], r.failure)
    decreases a.quality
  {
    if Continues(a, targetKB) {
      var job := NextJob(a, targetKB, width, height);
      if encode(job).Some? {
        var b := Attempt(job.quality, NextScale(a, targetKB), encode(job).value);
        RunFromSteps(encode, width, height, targetKB, b);
        var rest := RunFrom(encode, width, height, targetKB, b);
        var r := RunFrom(encode, width, height, targetKB, a);
        assert r.attempts == [a] + rest.attempts;
        forall i | 0 < i < |r.attempts|
          ensures Step(encode, width, height, targetKB, r.attempts[i - 1], r.attempts[i])
        {
          if i > 1 {
            assert r.attempts[i - 1] == rest.attempts[i - 2] && r.attempts[i] == rest.attempts[i - 1];
          }
        }
      }
    }
  }

  /** The search makes exactly the runs the relation describes. */
  lemma SearchRunIsTrace(encode: Encoder, width: int, height: int, targetKB: int)
    ensures IsSearchTrace(encode, width, height, targetKB, SearchRun(encode, width, height, targetKB))
  {
    if encode(InitialJob).Some? {
      RunFromSteps(encode, width, height, targetKB, Attempt(InitialQuality, FullScale, encode(InitialJob).value));
    }
  }

  lemma {:induction false} TracesAgreeUpTo(encode: Encoder, width: int, height: int, targetKB: int, r1: Run, r2: Run, k: nat)
    requires IsSearchTrace(encode, width, height, targetKB, r1)
    requires IsSearchTrace(encode, width, height, targetKB, r2)
    requires k < |r1.attempts| && k < |r2.attempts|
    ensures r1.attempts[k] == r2.attempts[k]
  {
    if k > 0 {
      TracesAgreeUpTo(encode, width, height, targetKB, r1, r2, k - 1);
      assert Step(encode, width, height, targetKB, r1.attempts[k - 1], r1.attempts[k]);
      assert Step(encode, width, height, targetKB, r2.attempts[k - 1], r2.attempts[k]);
    }
  }

  /** Within a run, every attempt but the last passed the guard and its successor's encode succeeded. */
  lemma TraceContinuesBefore(encode: Encoder, width: int, height: int, targetKB: int, r: Run, k: nat)
    requires IsSearchTrace(encode, width, height, targetKB, r)
    requires 0 < k <= |r.attempts|
    ensures k < |r.attempts| ==>
      Continues(r.attempts[k - 1], targetKB) && encode(NextJob(r.attempts[k - 1], targetKB, width, height)).Some?
  {
    if k < |r.attempts| {
      assert Step(encode, width, height, targetKB, r.attempts[k - 1], r.attempts[k]);
    }
  }

  /** The relation determines the run: there is one run per encoder and target. */
  lemma TraceIsUnique(encode: Encoder, width: int, height: int, targetKB: int, r1: Run, r2: Run)
    requires IsSearchTrace(encode, width, height, targetKB, r1)
    requires IsSearchTrace(encode, width, height, targetKB, r2)
    ensures r1 == r2
  {
    var n1, n2 := |r1.attempts|, |r2.attempts|;
    if n1 > 0 && n2 > 0 {
      var m := if n1 < n2 then n1 else n2;
      TracesAgreeUpTo(encode, width, height, targetKB, r1, r2, m - 1);
      TraceContinuesBefore(encode, width, height, targetKB, r1, m);
      TraceContinuesBefore(encode, width, height, targetKB, r2, m);
      forall k | 0 <= k < m ensures r1.attempts[k] == r2.attempts[k] {
        TracesAgreeUpTo(encode, width, height, targetKB, r1, r2, k);
      }
    }
  }

  // ---------------------------------------------------------------------------
  // Properties of every run

  lemma {:induction false} TraceAttemptShape(encode: Encoder, width: int, height: int, targetKB: int, r: Run, i: nat)
    requires IsSearchTrace(encode, width, height, targetKB, r)
    requires i < |r.attempts|
    ensures r.attempts[i].quality == InitialQuality - QualityStep * i
    ensures FullScale - i <= r.attempts[i].scale <= FullScale
  {
    if i > 0 {
      TraceAttemptShape(encode, width, height, targetKB, r, i - 1);
      assert Step(encode, width, height, targetKB, r.attempts[i - 1], r.attempts[i]);
    }
  }

  lemma {:induction false} TraceScaleNonIncreasing(encode: Encoder, width: int, height: int, targetKB: int, r: Run, i: nat, j: nat)
    requires IsSearchTrace(encode, width, height, targetKB, r)
    requires i <= j < |r.attempts|
    ensures r.attempts[j].scale <= r.attempts[i].scale
    decreases j
  {
    if i < j {
      TraceScaleNonIncreasing(encode, width, height, targetKB, r, i, j - 1);
      assert Step(encode, width, height, targetKB, r.attempts[j - 1], r.attempts[j]);
    }
  }

  /** A run makes at most 15 attempts: the initial encode and 14 iterations. */
  lemma TraceLength(encode: Encoder, width: int, height: int, targetKB: int, r: Run)
    requires IsSearchTrace(encode, width, height, targetKB, r)
    ensures |r.attempts| <= 15
  {
    var n := |r.attempts|;
    if n >= 2 {
      TraceContinuesBefore(encode, width, height, targetKB, r, n - 1);
      TraceAttemptShape(encode, width, height, targetKB, r, n - 2);
    }
  }

  lemma MultipleOfStep(k: int)
    ensures (QualityStep * k) % QualityStep == 0
  {
  }

  /** The bounds of one attempt of a run. */
  lemma TraceAttemptBounds(encode: Encoder, width: int, height: int, targetKB: int, r: Run, i: nat)
    requires IsSearchTrace(encode, width, height, targetKB, r)
    requires i < |r.attempts|
    ensures r.attempts[i].quality == InitialQuality - QualityStep * i
    ensures QualityFloor <= r.attempts[i].quality <= InitialQuality
    ensures r.attempts[i].quality % QualityStep == 0
    ensures FullScale - i <= r.attempts[i].scale <= FullScale
    ensures -4 <= r.attempts[i].scale
  {
    TraceLength(encode, width, height, targetKB, r);
    TraceAttemptShape(encode, width, height, targetKB, r, i);
    assert r.attempts[i].quality == QualityStep * (16 - i);
    MultipleOfStep(16 - i);
  }

  /**
    In every run: at most 14 loop iterations after the initial encode; the
    quality goes 80, 75, 70, ... and never below 10; the resize factor never
    rises, and after k iterations lies between 1 - 0.1k and 1, so never below
    -0.4.
  */
  lemma TraceBounds(encode: Encoder, width: int, height: int, targetKB: int, r: Run)
    requires IsSearchTrace(encode, width, height, targetKB, r)
    ensures |r.attempts| <= 15
    ensures forall i :: 0 <= i < |r.attempts| ==>
      && r.attempts[i].quality == InitialQuality - QualityStep * i
      && QualityFloor <= r.attempts[i].quality <= InitialQuality
      && r.attempts[i].quality % QualityStep == 0
      && FullScale - i <= r.attempts[i].scale <= FullScale
      && -4 <= r.attempts[i].scale
    ensures forall i, j :: 0 <= i <= j < |r.attempts| ==>
      r.attempts[j].quality <= r.attempts[i].quality && r.attempts[j].scale <= r.attempts[i].scale
  {
    TraceLength(encode, width, height, targetKB, r);
    forall i | 0 <= i < |r.attempts|
      ensures r.attempts[i].quality == InitialQuality - QualityStep * i
      ensures QualityFloor <= r.attempts[i].quality <= InitialQuality
      ensures r.attempts[i].quality % QualityStep == 0
      ensures FullScale - i <= r.attempts[i].scale <= FullScale
      ensures -4 <= r.attempts[i].scale
    {
      TraceAttemptBounds(encode, width, height, targetKB, r, i);
    }
    forall i, j | 0 <= i <= j < |r.attempts|
      ensures r.attempts[j].scale <= r.attempts[i].scale
    {
      TraceScaleNonIncreasing(encode, width, height, targetKB, r, i, j);
    }
  }

  /**
    The factor falls by one tenth in an iteration exactly when the size
    before it was more than twice the target; otherwise it stays.
  */
  lemma ScaleDropsOnlyWhenFar(encode: Encoder, width: int, height: int, targetKB: int, r: Run, i: nat)
    requires IsSearchTrace(encode, width, height, targetKB, r)
    requires 0 < i < |r.attempts|
    ensures r.attempts[i].scale == r.attempts[i - 1].scale - 1 <==> FarOverTarget(|r.attempts[i - 1].buffer|, targetKB)
    ensures r.attempts[i].scale == r.attempts[i - 1].scale <==> !FarOverTarget(|r.attempts[i - 1].buffer|, targetKB)
  {
    assert Step(encode, width, height, targetKB, r.attempts[i - 1], r.attempts[i]);
  }

  /** Every buffer of a run is one the encoder produced. */
  lemma TraceBufferEncoded(encode: Encoder, width: int, height: int, targetKB: int, r: Run, i: nat)
    requires IsSearchTrace(encode, width, height, targetKB, r)
    requires i < |r.attempts|
    ensures exists job :: encode(job) == Some(r.attempts[i].buffer)
  {
    if i == 0 {
      assert encode(InitialJob) == Some(r.attempts[0].buffer);
    } else {
      assert Step(encode, width, height, targetKB, r.attempts[i - 1], r.attempts[i]);
    }
  }

  // ---------------------------------------------------------------------------
  // What compressImage leaves behind

  /**
    When the file is written, it goes to `compress/<outputPath>`, and its
    buffer is within the target or was encoded at the quality floor of 10;
    its quality is a multiple of 5 in [10, 80] and its factor in [-0.4, 1].
    When an encode fails, nothing is written, and the failed job is the
    initial one or a resize at a quality in [10, 75].
  */
  lemma CompressOutcome(encode: Encoder, outputPath: string, width: int, height: int, targetKB: int)
    ensures match Compress(encode, outputPath, width, height, targetKB)
      case Written(path, a) =>
        && path == OutputDir + outputPath
        && (!OverTarget(|a.buffer|, targetKB) || a.quality == QualityFloor)
        && QualityFloor <= a.quality <= InitialQuality && a.quality % QualityStep == 0
        && -4 <= a.scale <= FullScale
      case Failed(job) =>
        job == InitialJob || (job.geometry.Resize? && QualityFloor <= job.quality < InitialQuality && job.quality % QualityStep == 0)
  {
    var r := SearchRun(encode, width, height, targetKB);
    SearchRunIsTrace(encode, width, height, targetKB);
    if r.attempts != [] {
      var n := |r.attempts|;
      TraceAttemptBounds(encode, width, height, targetKB, r, n - 1);
      MultipleOfStep(15 - n);
    }
  }

  /** When the first encode is already within the target, the loop never runs and that buffer is written. */
  lemma AlreadyWithinTarget(encode: Encoder, outputPath: string, width: int, height: int, targetKB: int, buffer: Bytes)
    requires encode(InitialJob) == Some(buffer) && !OverTarget(|buffer|, targetKB)
    ensures Compress(encode, outputPath, width, height, targetKB) == Written(OutputDir + outputPath, Attempt(InitialQuality, FullScale, buffer))
    ensures SearchRun(encode, width, height, targetKB).attempts == [Attempt(InitialQuality, FullScale, buffer)]
  {
  }

  /** An image the library always encodes, and always to more than twice the target. */
  ghost predicate Stubborn(encode: Encoder, targetKB: int) {
    forall job :: encode(job).Some? && FarOverTarget(|encode(job).value|, targetKB)
  }

  /** For a stubborn image the search runs all 14 iterations and ends without failure. */
  lemma StubbornRunIsFull(encode: Encoder, width: int, height: int, targetKB: int)
    requires Stubborn(encode, targetKB)
    ensures |SearchRun(encode, width, height, targetKB).attempts| == 15
    ensures SearchRun(encode, width, height, targetKB).failure.None?
  {
    var r := SearchRun(encode, width, height, targetKB);
    SearchRunIsTrace(encode, width, height, targetKB);
    var n := |r.attempts|;
    var last := r.attempts[n - 1];
    TraceAttemptBounds(encode, width, height, targetKB, r, n - 1);
    assert encode(NextJob(last, targetKB, width, height)).Some?;
    TraceBufferEncoded(encode, width, height, targetKB, r, n - 1);
    assert OverTarget(|last.buffer|, targetKB);
  }

  lemma {:induction false} StubbornScale(encode: Encoder, width: int, height: int, targetKB: int, r: Run, k: nat)
    requires Stubborn(encode, targetKB)
    requires IsSearchTrace(encode, width, height, targetKB, r)
    requires k < |r.attempts|
    ensures r.attempts[k].scale == FullScale - k
  {
    if k > 0 {
      StubbornScale(encode, width, height, targetKB, r, k - 1);
      TraceBufferEncoded(encode, width, height, targetKB, r, k - 1);
      ScaleDropsOnlyWhenFar(encode, width, height, targetKB, r, k);
    }
  }

  /**
    The factor has no floor: for a stubborn image all 14 iterations shrink,
    the eleventh attempt asks the library for a 0 by 0 image at quality 30,
    and the file written has quality 10 and factor -0.4.
  */
  lemma ScaleHasNoFloor(encode: Encoder, outputPath: string, width: int, height: int, targetKB: int)
    requires Stubborn(encode, targetKB)
    ensures |SearchRun(encode, width, height, targetKB).attempts| == 15
    ensures SearchRun(encode, width, height, targetKB).attempts[10].scale == 0
    ensures NextJob(SearchRun(encode, width, height, targetKB).attempts[9], targetKB, width, height) == EncodeJob(30, Resize(0, 0))
    ensures Compress(encode, outputPath, width, height, targetKB).Written?
    ensures Compress(encode, outputPath, width, height, targetKB).final.quality == QualityFloor
    ensures Compress(encode, outputPath, width, height, targetKB).final.scale == -4
  {
    var r := SearchRun(encode, width, height, targetKB);
    StubbornRunIsFull(encode, width, height, targetKB);
    SearchRunIsTrace(encode, width, height, targetKB);
    StubbornScale(encode, width, height, targetKB, r, 9);
    StubbornScale(encode, width, height, targetKB, r, 10);
    StubbornScale(encode, width, height, targetKB, r, 14);
    TraceAttemptShape(encode, width, height, targetKB, r, 9);
    TraceAttemptShape(encode, width, height, targetKB, r, 14);
    assert NextJob(r.attempts[9], targetKB, width, height) == EncodeJob(30, Resize(0, 0)) by {
      TraceBufferEncoded(encode, width, height, targetKB, r, 9);
      assert FarOverTarget(|r.attempts[9].buffer|, targetKB);
    }
  }

  // ---------------------------------------------------------------------------
  // The name of the compressed copy

  /** The name the upload handler gives a file's compressed copy. */
  function CompressedName(originalname: string): string {
    OutputPrefix + originalname
  }

  /** The original name a compressed copy's name was made from, if it was made by CompressedName. */
  function OriginalName(name: string): Option<string> {
    if |name| >= |OutputPrefix| && name[..|OutputPrefix|] == OutputPrefix then Some(name[|OutputPrefix|..]) else None
  }

  lemma CompressedNameRoundTrip(originalname: string)
    ensures OriginalName(CompressedName(originalname)) == Some(originalname)
  {
    var name := CompressedName(originalname);
    assert name[..|OutputPrefix|] == OutputPrefix;
    assert name[|OutputPrefix|..] == originalname;
  }

  lemma OriginalNameRoundTrip(name: string)
    ensures OriginalName(name).Some? ==> CompressedName(OriginalName(name).value) == name
  {
    if OriginalName(name).Some? {
      assert name == name[..|OutputPrefix|] + name[|OutputPrefix|..];
    }
  }

  /** Distinct original names give distinct output files. */
  lemma CompressedNamesDistinct(a: string, b: string)
    requires a != b
    ensures CompressedName(a) != CompressedName(b)
  {
    CompressedNameRoundTrip(a);
    CompressedNameRoundTrip(b);
  }

  /** An uploaded file's compressed copy is written as `compress/compress-<originalname>`. */
  lemma UploadOutputLocation(encode: Encoder, originalname: string, width: int, height: int)
    ensures Compress(encode, CompressedName(originalname), width, height, UploadTargetKB).Written? ==>
      Compress(encode, CompressedName(originalname), width, height, UploadTargetKB).path == "compress/compress-" + originalname
  {
    assert OutputDir + (OutputPrefix + originalname) == "compress/compress-" + originalname;
  }
}
