/**
 * The proof-of-concept acceptance evaluator (src/metrics/acceptance.ts): five
 * consecutive batch runs, three ratios per run, and a failure for every ratio
 * on the wrong side of its threshold. Counts are naturals and ratios exact reals.
 */
module Acceptance {
  import opened Seqs

  /** The number of consecutive batch runs an evaluation needs. */
  const AcceptanceBatchRunCount: nat := 5
  /** The number of recent SH announcements a run targets. */
  const ShRecentTargetCount: nat := 50

  const CollectionSuccessThreshold: real := 0.95
  const RequiredFieldExtractionThreshold: real := 0.98
  const ReviewNeededBranchThreshold: real := 0.15

  datatype AcceptanceBatchSample = AcceptanceBatchSample(
    runId: string,
    shRecentTargetCount: nat,
    collectedSuccessCount: nat,
    requiredFieldsCompleteCount: nat,
    reviewNeededCount: nat)

  datatype AcceptanceMetricSnapshot = AcceptanceMetricSnapshot(
    collectionSuccessRate: real,
    requiredFieldExtractionRate: real,
    reviewNeededBranchRate: real)

  /** The three metrics, in the order a run's failures are reported. */
  datatype Metric = CollectionSuccessRate | RequiredFieldExtractionRate | ReviewNeededBranchRate

  /** A failure: the wrong number of runs, or one run's metric with its value (the message text is not modelled). */
  datatype AcceptanceFailure =
    | BatchCountMismatch(runCount: nat)
    | MetricFailure(runId: string, metric: Metric, value: real)

  datatype AcceptanceEvaluationResult = AcceptanceEvaluationResult(
    pass: bool,
    failures: seq<AcceptanceFailure>,
    snapshots: seq<AcceptanceMetricSnapshot>)

  /** `numerator / denominator`, and 0 when the denominator is not positive. */
  function ToRate(numerator: int, denominator: int): (r: real)
    ensures denominator <= 0 ==> r == 0.0
    ensures denominator > 0 ==> r * denominator as real == numerator as real
    ensures 0 <= numerator <= denominator ==> 0.0 <= r <= 1.0
  {
    if denominator <= 0 then 0.0 else numerator as real / denominator as real
  }

  /** The snapshot of one run: collected / target, complete / collected, review / collected. */
  function SnapshotOf(sample: AcceptanceBatchSample): AcceptanceMetricSnapshot {
    AcceptanceMetricSnapshot(
      ToRate(sample.collectedSuccessCount, sample.shRecentTargetCount),
      ToRate(sample.requiredFieldsCompleteCount, sample.collectedSuccessCount),
      ToRate(sample.reviewNeededCount, sample.collectedSuccessCount))
  }

  predicate CollectionFails(snapshot: AcceptanceMetricSnapshot) {
    snapshot.collectionSuccessRate < CollectionSuccessThreshold
  }

  predicate ExtractionFails(snapshot: AcceptanceMetricSnapshot) {
    snapshot.requiredFieldExtractionRate < RequiredFieldExtractionThreshold
  }

  predicate ReviewFails(snapshot: AcceptanceMetricSnapshot) {
    snapshot.reviewNeededBranchRate > ReviewNeededBranchThreshold
  }

  /** A run meets every threshold; each one is inclusive. */
  predicate MeetsThresholds(snapshot: AcceptanceMetricSnapshot) {
    && snapshot.collectionSuccessRate >= CollectionSuccessThreshold
    && snapshot.requiredFieldExtractionRate >= RequiredFieldExtractionThreshold
    && snapshot.reviewNeededBranchRate <= ReviewNeededBranchThreshold
  }

  /** The failures of one run, in the order collection, extraction, review. */
  function SampleFailures(sample: AcceptanceBatchSample): seq<AcceptanceFailure> {
    var snapshot := SnapshotOf(sample);
    (if CollectionFails(snapshot) then [MetricFailure(sample.runId, CollectionSuccessRate, snapshot.collectionSuccessRate)] else [])
    + (if ExtractionFails(snapshot) then [MetricFailure(sample.runId, RequiredFieldExtractionRate, snapshot.requiredFieldExtractionRate)] else [])
    + (if ReviewFails(snapshot) then [MetricFailure(sample.runId, ReviewNeededBranchRate, snapshot.reviewNeededBranchRate)] else [])
  }

  /** The failures of the runs, run by run. */
  function Failures(samples: seq<AcceptanceBatchSample>): seq<AcceptanceFailure> {
    if samples == [] then []
    else Failures(samples[..|samples| - 1]) + SampleFailures(samples[|samples| - 1])
  }

  /** The evaluation: pass exactly when there is no failure. */
  method EvaluateAcceptanceBatches(samples: seq<AcceptanceBatchSample>) returns (result: AcceptanceEvaluationResult)
    ensures |samples| != AcceptanceBatchRunCount ==>
      result == AcceptanceEvaluationResult(false, [BatchCountMismatch(|samples|)], [])
    ensures |samples| == AcceptanceBatchRunCount ==>
      && |result.snapshots| == |samples|
      && (forall i :: 0 <= i < |samples| ==> result.snapshots[i] == SnapshotOf(samples[i]))
      && result.failures == Failures(samples)
    ensures result.pass <==> result.failures == []
  {
    if |samples| != AcceptanceBatchRunCount {
      return AcceptanceEvaluationResult(false, [BatchCountMismatch(|samples|)], []);
    }
    var failures: seq<AcceptanceFailure> := [];
    var snapshots: seq<AcceptanceMetricSnapshot> := [];
    var i := 0;
    while i < |samples|
      invariant 0 <= i <= |samples|
      invariant |snapshots| == i
      invariant forall k :: 0 <= k < i ==> snapshots[k] == SnapshotOf(samples[k])
      invariant failures == Failures(samples[..i])
    {
      var sample := samples[i];
      var collectionSuccessRate := ToRate(sample.collectedSuccessCount, sample.shRecentTargetCount);
      var requiredFieldExtractionRate := ToRate(sample.requiredFieldsCompleteCount, sample.collectedSuccessCount);
      var reviewNeededBranchRate := ToRate(sample.reviewNeededCount, sample.collectedSuccessCount);
      assert samples[..i + 1][..i] == samples[..i];
      ghost var snapshot := SnapshotOf(sample);
      ghost var collection := if CollectionFails(snapshot) then [MetricFailure(sample.runId, CollectionSuccessRate, collectionSuccessRate)] else [];
      ghost var extraction := if ExtractionFails(snapshot) then [MetricFailure(sample.runId, RequiredFieldExtractionRate, requiredFieldExtractionRate)] else [];
      ghost var review := if ReviewFails(snapshot) then [MetricFailure(sample.runId, ReviewNeededBranchRate, reviewNeededBranchRate)] else [];
      ghost var before := failures;
      if collectionSuccessRate < CollectionSuccessThreshold {
        failures := failures + [MetricFailure(sample.runId, CollectionSuccessRate, collectionSuccessRate)];
      }
      assert failures == before + collection;
      if requiredFieldExtractionRate < RequiredFieldExtractionThreshold {
        failures := failures + [MetricFailure(sample.runId, RequiredFieldExtractionRate, requiredFieldExtractionRate)];
      }
      assert failures == (before + collection) + extraction;
      if reviewNeededBranchRate > ReviewNeededBranchThreshold {
        failures := failures + [MetricFailure(sample.runId, ReviewNeededBranchRate, reviewNeededBranchRate)];
      }
      assert failures == ((before + collection) + extraction) + review;
      ConcatAssoc(before, collection, extraction);
      ConcatAssoc(before, collection + extraction, review);
      assert SampleFailures(sample) == (collection + extraction) + review;
      snapshots := snapshots + [AcceptanceMetricSnapshot(collectionSuccessRate, requiredFieldExtractionRate, reviewNeededBranchRate)];
      i := i + 1;
    }
    assert samples[..i] == samples;
    return AcceptanceEvaluationResult(failures == [], failures, snapshots);
  }

  /** The position of a metric in a run's failure list. */
  function MetricRank(m: Metric): nat {
    match m
    case CollectionSuccessRate => 0
    case RequiredFieldExtractionRate => 1
    case ReviewNeededBranchRate => 2
  }

  /** A run adds at most three failures, each naming the run, one per failing metric, in metric order. */
  lemma SampleFailuresShape(sample: AcceptanceBatchSample)
    ensures |SampleFailures(sample)| <= 3
    ensures forall f :: f in SampleFailures(sample) ==> f.MetricFailure? && f.runId == sample.runId
    ensures forall i, j :: 0 <= i < j < |SampleFailures(sample)| ==>
      MetricRank(SampleFailures(sample)[i].metric) < MetricRank(SampleFailures(sample)[j].metric)
    ensures SampleFailures(sample) == [] <==> MeetsThresholds(SnapshotOf(sample))
  {
  }

  /** The evaluation passes exactly when every run meets every threshold. */
  lemma {:induction false} NoFailuresIffAllMeetThresholds(samples: seq<AcceptanceBatchSample>)
    ensures Failures(samples) == [] <==> forall i :: 0 <= i < |samples| ==> MeetsThresholds(SnapshotOf(samples[i]))
  {
    if samples != [] {
      var n := |samples| - 1;
      NoFailuresIffAllMeetThresholds(samples[..n]);
      SampleFailuresShape(samples[n]);
      assert forall i :: 0 <= i < n ==> samples[..n][i] == samples[i];
    }
  }

  /** Every failure is a metric failure of one of the runs, taken from that run's own failures. */
  lemma {:induction false} FailuresNameTheirRun(samples: seq<AcceptanceBatchSample>)
    ensures |Failures(samples)| <= 3 * |samples|
    ensures forall f :: f in Failures(samples) ==>
      f.MetricFailure? && exists i :: 0 <= i < |samples| && f.runId == samples[i].runId && f in SampleFailures(samples[i])
  {
    if samples != [] {
      var n := |samples| - 1;
      FailuresNameTheirRun(samples[..n]);
      SampleFailuresShape(samples[n]);
      forall f | f in Failures(samples)
        ensures f.MetricFailure? && exists i :: 0 <= i < |samples| && f.runId == samples[i].runId && f in SampleFailures(samples[i])
      {
        if f in Failures(samples[..n]) {
          var i :| 0 <= i < n && f.runId == samples[..n][i].runId && f in SampleFailures(samples[..n][i]);
          assert samples[..n][i] == samples[i];
        } else {
          assert f in SampleFailures(samples[n]);
        }
      }
    }
  }

  /** A rate falls below `t` exactly when its numerator is below `t` times its positive denominator. */
  lemma RateBelow(numerator: nat, denominator: nat, t: real)
    requires denominator > 0
    ensures ToRate(numerator, denominator) < t <==> numerator as real < t * denominator as real
  {
    var r := ToRate(numerator, denominator);
    var d := denominator as real;
    assert r * d == numerator as real;
    assert (t - r) * d == t * d - r * d;
    if r < t {
      assert (t - r) * d > 0.0;
    } else {
      assert (r - t) * d >= 0.0;
    }
  }

  /** A rate exceeds `t` exactly when its numerator exceeds `t` times its positive denominator. */
  lemma RateAbove(numerator: nat, denominator: nat, t: real)
    requires denominator > 0
    ensures ToRate(numerator, denominator) > t <==> numerator as real > t * denominator as real
  {
    var r := ToRate(numerator, denominator);
    var d := denominator as real;
    assert r * d == numerator as real;
    assert (r - t) * d == r * d - t * d;
    if r > t {
      assert (r - t) * d > 0.0;
    } else {
      assert (t - r) * d >= 0.0;
    }
  }

  /** Each threshold test as exact integer arithmetic on the counts; equality on a boundary passes. */
  lemma ThresholdsOnCounts(sample: AcceptanceBatchSample)
    ensures CollectionFails(SnapshotOf(sample)) <==>
      sample.shRecentTargetCount == 0 || 100 * sample.collectedSuccessCount < 95 * sample.shRecentTargetCount
    ensures ExtractionFails(SnapshotOf(sample)) <==>
      sample.collectedSuccessCount == 0 || 100 * sample.requiredFieldsCompleteCount < 98 * sample.collectedSuccessCount
    ensures ReviewFails(SnapshotOf(sample)) <==>
      sample.collectedSuccessCount > 0 && 100 * sample.reviewNeededCount > 15 * sample.collectedSuccessCount
  {
    if sample.shRecentTargetCount > 0 {
      RateBelow(sample.collectedSuccessCount, sample.shRecentTargetCount, CollectionSuccessThreshold);
    }
    if sample.collectedSuccessCount > 0 {
      RateBelow(sample.requiredFieldsCompleteCount, sample.collectedSuccessCount, RequiredFieldExtractionThreshold);
      RateAbove(sample.reviewNeededCount, sample.collectedSuccessCount, ReviewNeededBranchThreshold);
    }
  }

  /** Runs exactly on the boundaries pass: 95 of 100 collected, 98 of 100 complete, 15 of 100 for review. */
  lemma BoundaryRunsPass()
    ensures MeetsThresholds(SnapshotOf(AcceptanceBatchSample("run-1", 100, 95, 95, 0)))
    ensures MeetsThresholds(SnapshotOf(AcceptanceBatchSample("run-2", 100, 100, 98, 15)))
  {
    ThresholdsOnCounts(AcceptanceBatchSample("run-1", 100, 95, 95, 0));
    ThresholdsOnCounts(AcceptanceBatchSample("run-2", 100, 100, 98, 15));
  }

  /** One count past each boundary fails that metric. */
  lemma PastBoundaryRunsFail()
    ensures CollectionFails(SnapshotOf(AcceptanceBatchSample("run-1", 100, 94, 94, 0)))
    ensures ExtractionFails(SnapshotOf(AcceptanceBatchSample("run-2", 100, 100, 97, 15)))
    ensures ReviewFails(SnapshotOf(AcceptanceBatchSample("run-3", 100, 100, 98, 16)))
  {
    ThresholdsOnCounts(AcceptanceBatchSample("run-1", 100, 94, 94, 0));
    ThresholdsOnCounts(AcceptanceBatchSample("run-2", 100, 100, 97, 15));
    ThresholdsOnCounts(AcceptanceBatchSample("run-3", 100, 100, 98, 16));
  }

  /** A run with 47 of 50 collected, 45 complete and 8 for review fails all three metrics, in order. */
  lemma WeakRunFailsEveryMetric()
    ensures var sample := AcceptanceBatchSample("run-3", ShRecentTargetCount, 47, 45, 8);
      && |SampleFailures(sample)| == 3
      && SampleFailures(sample)[0].metric == CollectionSuccessRate
      && SampleFailures(sample)[1].metric == RequiredFieldExtractionRate
      && SampleFailures(sample)[2].metric == ReviewNeededBranchRate
      && forall f :: f in SampleFailures(sample) ==> f.runId == "run-3"
  {
    ThresholdsOnCounts(AcceptanceBatchSample("run-3", ShRecentTargetCount, 47, 45, 8));
  }
}
