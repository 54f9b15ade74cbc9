/** The records of the preventive-intervention experiment and the bounds their
    validators enforce. Timestamps are microseconds; probabilities are exact. */
module RiskContracts {

  datatype Direction = Increase | Decrease | RiskUp | RiskDown

  datatype Factor = Factor(feature: string, signedContribution: real, direction: Direction)

  datatype Point = Point(
    predictionId: string,
    assetId: string,
    assetType: string,
    observedAt: int,
    probability: real,
    modelVersion: string,
    topFactors: seq<Factor>)

  datatype Policy = Policy(
    policyVersion: string,
    eligibleAssetTypes: seq<string>,
    minimumStep: real,
    minimumTotal: real,
    maximumGapHours: real)

  datatype Termination = NonIncrease | Gap | EndOfTimeline

  datatype RiseEvent = RiseEvent(
    eventId: string,
    assetId: string,
    assetType: string,
    startedAt: int,
    peakAt: int,
    endedAt: int,
    baselineProbability: real,
    peakProbability: real,
    probabilityDelta: real,
    timeToPeakHours: real,
    durationHours: real,
    terminatedBy: Termination,
    policyVersion: string,
    modelVersion: string,
    sourcePredictionIds: seq<string>)

  function HoursBetween(startedAt: int, endedAt: int): real {
    (endedAt - startedAt) as real / 3600000000.0
  }

  predicate ValidPoint(p: Point) {
    && p.predictionId != "" && p.assetId != "" && p.assetType != "" && p.modelVersion != ""
    && 0.0 <= p.probability <= 1.0
  }

  predicate ValidPolicy(p: Policy) {
    && p.policyVersion != "" && p.eligibleAssetTypes != []
    && 0.0 < p.minimumStep <= 1.0 && 0.0 < p.minimumTotal <= 1.0 && 0.0 < p.maximumGapHours
  }

  /** The field bounds and the timing validator of a detected event. */
  predicate ValidEvent(e: RiseEvent) {
    && e.eventId != "" && e.assetId != "" && e.assetType != "" && e.policyVersion != "" && e.modelVersion != ""
    && 0.0 <= e.baselineProbability <= 1.0 && 0.0 <= e.peakProbability <= 1.0
    && 0.0 < e.probabilityDelta <= 1.0
    && 0.0 <= e.timeToPeakHours && 0.0 <= e.durationHours
    && |e.sourcePredictionIds| >= 2
    && e.startedAt <= e.peakAt <= e.endedAt
    && e.probabilityDelta == e.peakProbability - e.baselineProbability
    && e.timeToPeakHours == HoursBetween(e.startedAt, e.peakAt)
    && e.durationHours == HoursBetween(e.startedAt, e.endedAt)
  }
}
