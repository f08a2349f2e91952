/** Pair builder and probes: positional pairing of the OLD and NEW lists,
    a preview line per pair, and the per-pair prediction of whether the
    replace step will re-encode. The image probe (Pillow's metadata read)
    is an input: a function from a path to the image's description or
    the text of the exception it raised. */
module Mapping {
  import opened Common

  /** What the probe reports about one image; `fmt` is the detected
      format, upper-cased, or "" when Pillow names none. */
  datatype ImageInfo = ImageInfo(path: Path, width: int, height: int, mode: string, fmt: string, sizeBytes: nat)

  /** One replacement: content comes from `old`, the name stays `new`'s. */
  datatype Pair = Pair(oldPath: Path, newPath: Path)

  type Probe = Path -> Result<ImageInfo, string>

  datatype PairError = CountMismatch(oldCount: nat, newCount: nat)

  datatype PairWarning =
    | PairsUsed(n: int, oldCount: nat, newCount: nat)
    | LimitedTo(n: int, oldCount: nat, newCount: nat)

  /** Pairs the i-th elements of two lists, as far as the shorter goes. */
  function Zip(olds: seq<Path>, news: seq<Path>): (pairs: seq<Pair>)
    ensures |pairs| == Min(|olds|, |news|)
    ensures forall i :: 0 <= i < |pairs| ==> pairs[i] == Pair(olds[i], news[i])
  {
    seq(Min(|olds|, |news|), i requires 0 <= i < Min(|olds|, |news|) => Pair(olds[i], news[i]))
  }

  /** build_pairs: the limit defaults to the shorter count; strict mode
      rejects unequal counts; a warning when the counts differ and another
      when either list is shorter than the limit; pairing by position. */
  function BuildPairs(olds: seq<Path>, news: seq<Path>, n: Option<int>, strictEqual: bool)
    : (r: Result<(seq<Pair>, seq<PairWarning>), PairError>)
    ensures r.Failure? <==> strictEqual && |olds| != |news|
    ensures r.Failure? ==> r.error == CountMismatch(|olds|, |news|)
    ensures r.Success? ==>
              var k := if n.None? then Min(|olds|, |news|) else n.value;
              var (pairs, w) := r.value;
              && |pairs| <= Min(|olds|, |news|)
              && (forall i :: 0 <= i < |pairs| ==> pairs[i] == Pair(olds[i], news[i]))
              && (n.None? ==> |pairs| == Min(|olds|, |news|))
              && (0 <= k ==> |pairs| == Min(k, Min(|olds|, |news|)))
              && (PairsUsed(k, |olds|, |news|) in w <==> |olds| != |news|)
              && (LimitedTo(k, |olds|, |news|) in w <==> |olds| < k || |news| < k)
              && (n.None? ==> LimitedTo(k, |olds|, |news|) !in w)
              && |w| == (if |olds| != |news| then 1 else 0) + (if |olds| < k || |news| < k then 1 else 0)
  {
    var k := if n.None? then Min(|olds|, |news|) else n.value;
    if strictEqual && |olds| != |news| then
      Failure(CountMismatch(|olds|, |news|))
    else
      var w := (if |olds| != |news| then [PairsUsed(k, |olds|, |news|)] else [])
               + (if |olds| < k || |news| < k then [LimitedTo(k, |olds|, |news|)] else []);
      Success((Zip(Take(olds, k), Take(news, k)), w))
  }

  /** One preview line: both images described, or the first probe failure. */
  datatype PreviewLine =
    | Described(pair: Pair, oldInfo: ImageInfo, newInfo: ImageInfo)
    | ReadFailed(pair: Pair, error: string)

  /** The line for one pair: the OLD image is probed first, then NEW; a
      failure of either becomes a warning line instead of an exception. */
  function DescribePair(pr: Pair, probe: Probe): (line: PreviewLine)
    ensures line.pair == pr
    ensures line.Described? <==> probe(pr.oldPath).Success? && probe(pr.newPath).Success?
    ensures line.Described? ==> line.oldInfo == probe(pr.oldPath).value && line.newInfo == probe(pr.newPath).value
    ensures line.ReadFailed? && probe(pr.oldPath).Failure? ==> line.error == probe(pr.oldPath).error
    ensures line.ReadFailed? && probe(pr.oldPath).Success? ==> line.error == probe(pr.newPath).error
  {
    match probe(pr.oldPath)
    case Failure(e) => ReadFailed(pr, e)
    case Success(oldInfo) =>
      match probe(pr.newPath)
      case Failure(e) => ReadFailed(pr, e)
      case Success(newInfo) => Described(pr, oldInfo, newInfo)
  }

  /** How many lines the preview holds: every pair without a limit;
      otherwise the limit, but at least one line for a non-empty input,
      because the limit is checked after a line is added. */
  function PreviewLength(total: nat, limit: Option<int>): (k: nat)
    ensures k <= total
    ensures limit.None? ==> k == total
    ensures total > 0 ==> k >= 1
    ensures limit.Some? && 1 <= limit.value ==> k == Min(total, limit.value)
    ensures limit.Some? && limit.value <= 1 ==> k == Min(total, 1)
  {
    if limit.None? then total
    else Min(total, Max(limit.value, 1))
  }

  /** preview_pairs: one line per visited pair, in order, stopping once
      `limit` lines are out; a probe failure never escapes. */
  method PreviewPairs(pairs: seq<Pair>, limit: Option<int>, probe: Probe) returns (lines: seq<PreviewLine>)
    ensures |lines| == PreviewLength(|pairs|, limit)
    ensures forall i :: 0 <= i < |lines| ==> lines[i] == DescribePair(pairs[i], probe)
  {
    lines := [];
    var count := 0;
    while count < |pairs|
      invariant 0 <= count <= |pairs|
      invariant |lines| == count
      invariant forall i :: 0 <= i < count ==> lines[i] == DescribePair(pairs[i], probe)
      invariant limit.Some? ==> count == 0 || count < limit.value
    {
      lines := lines + [DescribePair(pairs[count], probe)];
      count := count + 1;
      if limit.Some? && count >= limit.value {
        break;
      }
    }
  }

  datatype ConversionWarning =
    | ForcedTo(dst: Path, target: string, found: string)
    | WillBe(dst: Path, target: string, found: string)
    | ProbeFailed(dst: Path, error: string)

  /** `(force_format or "").lower()`. */
  function ForcedToken(forceFormat: Option<string>): string {
    if forceFormat.None? then "" else Lower(forceFormat.value)
  }

  /** The warnings probe_conversion_warnings adds for one pair: a forced
      JPEG or PNG target checked against the OLD format, otherwise the
      target implied by NEW's extension; a failed OLD probe is reported. */
  function PairConversionWarnings(pr: Pair, ff: string, probe: Probe): (w: seq<ConversionWarning>)
    ensures |w| <= 1
    ensures forall x :: x in w ==> x.dst == pr.newPath
  {
    match probe(pr.oldPath)
    case Failure(e) => [ProbeFailed(pr.newPath, e)]
    case Success(info) =>
      var ext := Lower(Suffix(pr.newPath.name));
      if ff in {"jpg", "jpeg"} then
        (if info.fmt != "JPEG" then [ForcedTo(pr.newPath, "JPEG", info.fmt)] else [])
      else if ff == "png" then
        (if info.fmt != "PNG" then [ForcedTo(pr.newPath, "PNG", info.fmt)] else [])
      else
        (if ext in {".jpg", ".jpeg"} && info.fmt != "JPEG" then [WillBe(pr.newPath, "JPEG", info.fmt)] else [])
        + (if ext == ".png" && info.fmt != "PNG" then [WillBe(pr.newPath, "PNG", info.fmt)] else [])
  }

  /** The format a pair is predicted to end up in: the forced one, else
      the one NEW's extension implies; None for an unknown extension. */
  function PredictedTarget(pr: Pair, ff: string): Option<string> {
    if ff in {"jpg", "jpeg"} then Some("JPEG")
    else if ff == "png" then Some("PNG")
    else
      var ext := Lower(Suffix(pr.newPath.name));
      if ext in {".jpg", ".jpeg"} then Some("JPEG")
      else if ext == ".png" then Some("PNG")
      else None
  }

  /** The decision table: a readable pair warns exactly when a target is
      predicted and OLD is not already in it; an unreadable one gives
      exactly one read-failure warning. */
  lemma ConversionDecisionTable(pr: Pair, ff: string, probe: Probe)
    ensures probe(pr.oldPath).Failure? ==>
              PairConversionWarnings(pr, ff, probe) == [ProbeFailed(pr.newPath, probe(pr.oldPath).error)]
    ensures probe(pr.oldPath).Success? ==>
              var t := PredictedTarget(pr, ff);
              (PairConversionWarnings(pr, ff, probe) != [] <==> t.Some? && probe(pr.oldPath).value.fmt != t.value)
    ensures probe(pr.oldPath).Success? && PairConversionWarnings(pr, ff, probe) != [] ==>
              var x := PairConversionWarnings(pr, ff, probe)[0];
              && x.target == PredictedTarget(pr, ff).value
              && x.found == probe(pr.oldPath).value.fmt
              && (x.ForcedTo? <==> ff in {"jpg", "jpeg", "png"})
  {
    if probe(pr.oldPath).Success? {
      var ext := Lower(Suffix(pr.newPath.name));
      assert !(ext in {".jpg", ".jpeg"} && ext == ".png");
    }
  }

  /** `f` applied to each element, the results joined in order. */
  function FlatMap<A, B>(xs: seq<A>, f: A -> seq<B>): seq<B>
  {
    if xs == [] then [] else FlatMap(xs[..|xs| - 1], f) + f(xs[|xs| - 1])
  }

  lemma {:induction false} FlatMapConcat<A, B>(xs: seq<A>, ys: seq<A>, f: A -> seq<B>)
    ensures FlatMap(xs + ys, f) == FlatMap(xs, f) + FlatMap(ys, f)
  {
    if ys == [] {
      assert xs + ys == xs;
    } else {
      FlatMapConcat(xs, ys[..|ys| - 1], f);
      assert (xs + ys)[..|xs + ys| - 1] == xs + ys[..|ys| - 1];
    }
  }

  /** The per-pair warnings as a function of the pair alone. */
  function PairRule(ff: string, probe: Probe): Pair -> seq<ConversionWarning>
  {
    pr => PairConversionWarnings(pr, ff, probe)
  }

  /** All warnings for a run of pairs, in pair order. */
  function ConversionWarnings(pairs: seq<Pair>, ff: string, probe: Probe): seq<ConversionWarning>
  {
    FlatMap(pairs, PairRule(ff, probe))
  }

  /** probe_conversion_warnings: every pair is probed, whatever happened
      to the ones before it. */
  method ProbeConversionWarnings(pairs: seq<Pair>, forceFormat: Option<string>, probe: Probe)
    returns (warns: seq<ConversionWarning>)
    ensures warns == ConversionWarnings(pairs, ForcedToken(forceFormat), probe)
  {
    var ff := ForcedToken(forceFormat);
    warns := [];
    var i := 0;
    while i < |pairs|
      invariant 0 <= i <= |pairs|
      invariant warns == ConversionWarnings(pairs[..i], ff, probe)
    {
      assert pairs[..i + 1][..i] == pairs[..i];
      warns := warns + PairConversionWarnings(pairs[i], ff, probe);
      i := i + 1;
    }
    assert pairs[..i] == pairs;
  }

  /** The warnings of a run split at any point: a failing pair does not
      stop the pairs after it from being checked. */
  lemma ConversionWarningsConcat(a: seq<Pair>, b: seq<Pair>, ff: string, probe: Probe)
    ensures ConversionWarnings(a + b, ff, probe) == ConversionWarnings(a, ff, probe) + ConversionWarnings(b, ff, probe)
  {
    FlatMapConcat(a, b, PairRule(ff, probe));
  }

  /** At most one warning per pair, and each names a pair's NEW file. */
  lemma {:induction false} ConversionWarningsBound(pairs: seq<Pair>, ff: string, probe: Probe)
    ensures |ConversionWarnings(pairs, ff, probe)| <= |pairs|
    ensures forall x :: x in ConversionWarnings(pairs, ff, probe) ==> exists pr :: pr in pairs && x.dst == pr.newPath
  {
    if pairs != [] {
      var init, last := pairs[..|pairs| - 1], pairs[|pairs| - 1];
      ConversionWarningsBound(init, ff, probe);
      assert ConversionWarnings(pairs, ff, probe)
          == ConversionWarnings(init, ff, probe) + PairConversionWarnings(last, ff, probe);
      forall x | x in ConversionWarnings(pairs, ff, probe)
        ensures exists pr :: pr in pairs && x.dst == pr.newPath
      {
        if x in ConversionWarnings(init, ff, probe) {
          var pr :| pr in init && x.dst == pr.newPath;
          assert pr in pairs;
        } else {
          assert pairs[|pairs| - 1] in pairs;
        }
      }
    }
  }

  /** A pair whose OLD probe fails contributes exactly its read-failure
      warning, between the warnings of the pairs around it. */
  lemma ProbeFailureIsolated(before: seq<Pair>, pr: Pair, after: seq<Pair>, ff: string, probe: Probe)
    requires probe(pr.oldPath).Failure?
    ensures ConversionWarnings(before + [pr] + after, ff, probe)
            == ConversionWarnings(before, ff, probe) + [ProbeFailed(pr.newPath, probe(pr.oldPath).error)]
               + ConversionWarnings(after, ff, probe)
  {
    ConversionWarningsConcat(before + [pr], after, ff, probe);
    ConversionWarningsConcat(before, [pr], ff, probe);
    assert [pr][..0] == [];
    assert ConversionWarnings([pr], ff, probe) == PairConversionWarnings(pr, ff, probe);
  }
}
