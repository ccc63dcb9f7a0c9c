/**
  The frame ranker: an object holding the quality of every frame, the
  frame indices sorted by quality, their inverse (the rank of each frame)
  and the best frame, both for the full frame list ("original" tables) and
  for the current, possibly reduced, list of frames.

  The quality kernels themselves are not modelled: frame_score receives
  the per-frame qualities they would have computed.
*/
module RankFrames {
  import opened Ranking

  /** The exceptions the ranker raises. */
  datatype RankError =
    | NotSupportedError   // unknown ranking method name
    | IndexError          // asking for the best frame of an empty frame list
    | ZeroMaximum         // normalising by a best quality of 0 (numpy would give NaN qualities)
    | ArgumentError       // find_best_frames with inconsistent sizes
    | ZeroDivisionError   // quality loss relative to a zero global quality sum

  datatype Outcome = Pass | Fail(error: RankError)

  datatype Result<T> = Ok(value: T) | Err(error: RankError)

  /** What find_best_frames returns: the chosen frame indices, the loss in
      summed quality against the unrestricted choice (percent) and the mean
      position of the chosen frames on the time line (percent). */
  datatype BestFrames = BestFrames(indices: seq<nat>, qualityLossPercent: real, timeLinePosition: real)

  /** The ranking methods the configuration can name. */
  predicate SupportedMethod(name: string)
  {
    name == "xy gradient" || name == "Laplace" || name == "Sobel"
  }

  /** [ranks[index] for index in translation] */
  function Select(ranks: seq<real>, translation: seq<nat>): seq<real>
    requires InRange(translation, |ranks|)
  {
    seq(|translation|, k requires 0 <= k < |translation| => ranks[translation[k]])
  }

  /** One set of the ranker's tables: the (normalised) quality of every
      frame, the frame indices sorted by quality, the rank of every frame,
      and the index and raw quality of the best frame. The ranker keeps one
      set for the full frame list and one for the current frame list. */
  datatype RankTables = RankTables(
    frameRanks: seq<real>,
    qualitySortedIndices: seq<nat>,
    rankIndices: seq<nat>,
    maxIndex: nat,
    maxValue: real)

  /** Tables that agree with their normalised qualities: the sorted index
      list is the stable descending order, the rank list is its inverse,
      the best frame comes first and has quality 1, every quality lies in
      [0, 1], and the normalising maximum was positive. */
  ghost predicate ConsistentTables(t: RankTables)
  {
    |t.frameRanks| > 0 &&
    SortedByRank(t.frameRanks, t.qualitySortedIndices) &&
    Arranges(t.qualitySortedIndices, 0, |t.frameRanks|) &&
    t.rankIndices == RankIndices(t.qualitySortedIndices) &&
    t.maxIndex == t.qualitySortedIndices[0] && t.frameRanks[t.maxIndex] == 1.0 && t.maxValue > 0.0 &&
    (forall i :: 0 <= i < |t.frameRanks| ==> 0.0 <= t.frameRanks[i] <= 1.0)
  }

  class RankFrames {
    const numberOriginal: nat
    var original: RankTables
    var number: nat
    var current: RankTables

    /** The tables for the full frame list are consistent. */
    ghost predicate OriginalValid()
      reads this
    {
      |original.frameRanks| == numberOriginal && ConsistentTables(original)
    }

    /** Both the full and the current tables are consistent. */
    ghost predicate Valid()
      reads this
    {
      OriginalValid() && number == |current.frameRanks| && ConsistentTables(current)
    }

    /** A ranker for frameCount frames, before any quality is computed. */
    constructor (frameCount: nat)
      ensures numberOriginal == frameCount && original.frameRanks == []
      ensures number == 0 && current == RankTables([], [], [], 0, 0.0)
    {
      numberOriginal := frameCount;
      original := RankTables([], [], [], 0, 0.0);
      number := 0;
      current := RankTables([], [], [], 0, 0.0);
    }

    /** Records the quality of every frame, ranks the frames, picks the best
        one, normalises the qualities so that the best is 1 and makes the
        full frame list the current one. `scores[i]` is the value the
        selected quality kernel yields for frame i. */
    method FrameScore(rankMethod: string, scores: seq<real>) returns (outcome: Outcome)
      requires |scores| == numberOriginal && original.frameRanks == []
      requires forall i :: 0 <= i < |scores| ==> scores[i] >= 0.0
      modifies this
      ensures !SupportedMethod(rankMethod) ==> outcome == Fail(NotSupportedError) && unchanged(this)
      ensures SupportedMethod(rankMethod) ==>
        original.qualitySortedIndices == RankOrder(scores, 0, |scores|) &&
        original.rankIndices == RankIndices(original.qualitySortedIndices)
      ensures SupportedMethod(rankMethod) && numberOriginal == 0 ==> outcome == Fail(IndexError)
      ensures outcome == Fail(IndexError) ==>
        original.frameRanks == [] && original.maxIndex == old(original.maxIndex) &&
        original.maxValue == old(original.maxValue) && current == old(current) && number == old(number)
      ensures outcome == Pass <==> SupportedMethod(rankMethod) && exists i :: 0 <= i < |scores| && scores[i] > 0.0
      ensures SupportedMethod(rankMethod) && numberOriginal > 0 && (forall i :: 0 <= i < |scores| ==> scores[i] == 0.0) ==>
        outcome == Fail(ZeroMaximum)
      ensures outcome == Fail(ZeroMaximum) ==>
        original.frameRanks == scores && original.maxValue == 0.0 &&
        original.maxIndex == original.qualitySortedIndices[0]
      ensures outcome == Pass ==>
        Valid() && current == original && number == numberOriginal &&
        original.maxValue == scores[original.maxIndex] &&
        (forall i :: 0 <= i < |scores| ==> scores[i] <= original.maxValue) &&
        original.frameRanks == Normalised(scores, original.maxValue)
    {
      if !SupportedMethod(rankMethod) {
        return Fail(NotSupportedError);
      }

      var frameIndex := 0;
      while frameIndex < numberOriginal
        invariant 0 <= frameIndex <= numberOriginal
        invariant original.frameRanks == scores[..frameIndex]
        invariant original.maxIndex == old(original.maxIndex) && original.maxValue == old(original.maxValue)
        invariant current == old(current) && number == old(number)
      {
        original := original.(frameRanks := original.frameRanks + [scores[frameIndex]]);
        frameIndex := frameIndex + 1;
      }
      assert original.frameRanks == scores;

      var sorted := RankOrder(scores, 0, numberOriginal);
      original := original.(qualitySortedIndices := sorted, rankIndices := RankIndices(sorted));
      if numberOriginal == 0 {
        return Fail(IndexError);
      }

      var best := sorted[0];
      var maxValue := scores[best];
      original := original.(maxIndex := best, maxValue := maxValue);
      if maxValue == 0.0 {
        NoPositiveScore(scores, sorted);
        return Fail(ZeroMaximum);
      }
      NormalisedTables(scores, sorted);
      original := original.(frameRanks := Normalised(scores, maxValue));

      number := numberOriginal;
      current := original;
      outcome := Pass;
    }

    /** Restricts the current tables to the frames kept by `translation`
        (entry k is the original index of the k-th kept frame): their
        qualities, re-sorted, inverted and re-normalised by the best kept
        frame. The tables of the full frame list are left alone. */
    method SetIndexTranslation(translation: seq<nat>) returns (outcome: Outcome)
      requires OriginalValid()
      requires InRange(translation, numberOriginal)
      modifies this
      ensures original == old(original)
      ensures number == |translation|
      ensures current.qualitySortedIndices == RankOrder(Select(original.frameRanks, translation), 0, number)
      ensures current.rankIndices == RankIndices(current.qualitySortedIndices)
      ensures outcome == Pass <==> exists k :: 0 <= k < |translation| && original.frameRanks[translation[k]] > 0.0
      ensures translation == [] ==>
        outcome == Fail(IndexError) && current.frameRanks == [] &&
        current.maxIndex == old(current.maxIndex) && current.maxValue == old(current.maxValue)
      ensures translation != [] && (forall k :: 0 <= k < |translation| ==> original.frameRanks[translation[k]] == 0.0) ==>
        outcome == Fail(ZeroMaximum)
      ensures outcome == Fail(ZeroMaximum) ==>
        current.frameRanks == Select(original.frameRanks, translation) && current.maxValue == 0.0 &&
        current.maxIndex == current.qualitySortedIndices[0]
      ensures outcome == Pass ==>
        Valid() &&
        current.maxValue == original.frameRanks[translation[current.maxIndex]] &&
        (forall k :: 0 <= k < number ==> original.frameRanks[translation[k]] <= current.maxValue) &&
        current.frameRanks == Normalised(Select(original.frameRanks, translation), current.maxValue)
    {
      number := |translation|;
      var selected := Select(original.frameRanks, translation);
      assert forall k :: 0 <= k < number ==> selected[k] == original.frameRanks[translation[k]];
      var sorted := RankOrder(selected, 0, number);
      current := current.(frameRanks := selected, qualitySortedIndices := sorted, rankIndices := RankIndices(sorted));
      if number == 0 {
        return Fail(IndexError);
      }

      var best := sorted[0];
      var maxValue := selected[best];
      current := current.(maxIndex := best, maxValue := maxValue);
      if maxValue == 0.0 {
        NoPositiveScore(selected, sorted);
        return Fail(ZeroMaximum);
      }
      NormalisedTables(selected, sorted);
      current := current.(frameRanks := Normalised(selected, maxValue));
      outcome := Pass;
    }

    /** Makes the tables of the full frame list the current ones again. */
    method ResetIndexTranslation()
      requires OriginalValid()
      modifies this
      ensures Valid()
      ensures number == numberOriginal && current == original && original == old(original)
    {
      number := numberOriginal;
      current := original;
    }

    /** The best `numberFrames` frames whose indices all lie in one window of
        `regionSize` consecutive frames: the window whose best frames have
        the largest summed quality (the earliest on a tie), with the loss
        against the best frames overall and the window's mean position. */
    method FindBestFrames(numberFrames: nat, regionSize: nat) returns (result: Result<BestFrames>)
      requires Valid()
      ensures numberFrames > regionSize ==> result == Err(ArgumentError)
      ensures numberFrames <= regionSize && regionSize > number ==> result == Err(ArgumentError)
      ensures numberFrames == 0 && regionSize <= number ==> result == Err(ZeroDivisionError)
      ensures result.Ok? <==> 0 < numberFrames <= regionSize <= number
      ensures result.Ok? ==>
        RankSum(current.frameRanks, current.qualitySortedIndices[..numberFrames]) > 0.0 &&
        exists start: nat ::
          EarliestBestWindow(current.frameRanks, regionSize, numberFrames, start) &&
          result.value.indices == WindowBest(current.frameRanks, start, regionSize, numberFrames) &&
          result.value.qualityLossPercent == LossPercent(
            RankSum(current.frameRanks, current.qualitySortedIndices[..numberFrames]),
            WindowSum(current.frameRanks, start, regionSize, numberFrames))
      ensures result.Ok? ==>
        0.0 <= result.value.qualityLossPercent < 100.0 &&
        result.value.timeLinePosition == TimeLinePosition(result.value.indices, number) &&
        0.0 <= result.value.timeLinePosition < 100.0
    {
      if numberFrames > regionSize {
        return Err(ArgumentError);
      } else if regionSize > number {
        return Err(ArgumentError);
      }
      var ranks := current.frameRanks;
      var sorted := current.qualitySortedIndices;

      var bestIndices, rankSumOpt;
      ghost var bestStart: int;
      bestIndices, rankSumOpt, bestStart := SearchWindows(ranks, regionSize, numberFrames);

      var rankSumGlobal := RankSum(ranks, sorted[..numberFrames]);
      GlobalSum(ranks, sorted, numberFrames);
      if rankSumGlobal == 0.0 {
        return Err(ZeroDivisionError);
      }
      BestWindowPositive(ranks, sorted, regionSize, numberFrames);
      assert bestStart >= 0;
      LossWithinBounds(ranks, sorted, regionSize, numberFrames, bestStart);
      PositionWithinBounds(ranks, regionSize, numberFrames, bestStart);

      var qualityLossPercent := LossPercent(rankSumGlobal, rankSumOpt);
      var timeLinePosition := TimeLinePosition(bestIndices, number);
      result := Ok(BestFrames(bestIndices, qualityLossPercent, timeLinePosition));
    }
  }

  /** The loss of summed quality, in percent, of a choice against the best
      choice overall. */
  function LossPercent(global: real, chosen: real): real
    requires global != 0.0
  {
    100.0 * (global - chosen) / global
  }

  /** The mean frame index of a choice, in percent of the frame count. */
  function TimeLinePosition(indices: seq<nat>, number: nat): real
    requires indices != [] && number > 0
  {
    100.0 * (IndexSum(indices) as real / |indices| as real) / number as real
  }

  /** The sliding-window loop of find_best_frames: every window of
      regionSize consecutive frames is visited in order, and a window
      replaces the best one so far only when its best frames have a
      strictly larger quality sum. */
  method SearchWindows(ranks: seq<real>, regionSize: nat, count: nat)
    returns (bestIndices: seq<nat>, rankSumOpt: real, ghost bestStart: int)
    requires count <= regionSize <= |ranks|
    ensures bestStart < 0 ==>
      bestIndices == [] && rankSumOpt == 0.0 &&
      NoPositiveWindowBefore(ranks, regionSize, count, |ranks| - regionSize + 1)
    ensures bestStart >= 0 ==>
      EarliestBestWindow(ranks, regionSize, count, bestStart) &&
      bestIndices == WindowBest(ranks, bestStart, regionSize, count) &&
      rankSumOpt == WindowSum(ranks, bestStart, regionSize, count)
  {
    bestIndices := [];
    rankSumOpt := 0.0;
    bestStart := -1;

    var startIndex := 0;
    while startIndex < |ranks| - regionSize + 1
      invariant 0 <= startIndex <= |ranks| - regionSize + 1
      invariant bestStart < 0 ==>
        bestIndices == [] && rankSumOpt == 0.0 &&
        NoPositiveWindowBefore(ranks, regionSize, count, startIndex)
      invariant bestStart >= 0 ==>
        BestWindowBefore(ranks, regionSize, count, bestStart, startIndex) &&
        bestIndices == WindowBest(ranks, bestStart, regionSize, count) &&
        rankSumOpt == WindowSum(ranks, bestStart, regionSize, count)
    {
      var bestIndicesInRange := WindowBest(ranks, startIndex, regionSize, count);
      var rankSum := RankSum(ranks, bestIndicesInRange);
      if rankSum > rankSumOpt {
        rankSumOpt := rankSum;
        bestIndices := bestIndicesInRange;
        bestStart := startIndex;
      }
      startIndex := startIndex + 1;
    }
  }

  /** No window starting before upTo has a positive quality sum. */
  ghost predicate NoPositiveWindowBefore(ranks: seq<real>, regionSize: nat, count: nat, upTo: nat)
    requires count <= regionSize <= |ranks| && upTo <= |ranks| - regionSize + 1
  {
    forall s: nat :: s < upTo ==> WindowSum(ranks, s, regionSize, count) <= 0.0
  }

  /** Among the windows starting before upTo, start is the earliest one with
      the largest quality sum, and that sum is positive. */
  ghost predicate BestWindowBefore(ranks: seq<real>, regionSize: nat, count: nat, start: nat, upTo: nat)
    requires count <= regionSize <= |ranks| && upTo <= |ranks| - regionSize + 1
  {
    start < upTo && WindowSum(ranks, start, regionSize, count) > 0.0 &&
    (forall s: nat :: s < upTo ==> WindowSum(ranks, s, regionSize, count) <= WindowSum(ranks, start, regionSize, count)) &&
    (forall s: nat :: s < start ==> WindowSum(ranks, s, regionSize, count) < WindowSum(ranks, start, regionSize, count))
  }

  /** When the best quality is 0, no quality is positive. */
  lemma NoPositiveScore(scores: seq<real>, sorted: seq<nat>)
    requires |scores| > 0 && SortedByRank(scores, sorted) && Arranges(sorted, 0, |scores|)
    requires scores[sorted[0]] == 0.0
    ensures !exists i :: 0 <= i < |scores| && scores[i] > 0.0
  {
    FirstIsBest(scores, sorted, 0, |scores|);
  }

  /** The quality sum of the best count frames overall is 0 exactly when no
      frame is asked for, and at least the best quality (1) otherwise. */
  lemma GlobalSum(ranks: seq<real>, sorted: seq<nat>, count: nat)
    requires SortedByRank(ranks, sorted) && Arranges(sorted, 0, |ranks|) && |ranks| > 0
    requires ranks[sorted[0]] == 1.0 && forall i :: 0 <= i < |ranks| ==> ranks[i] >= 0.0
    requires count <= |ranks|
    ensures count == 0 ==> RankSum(ranks, sorted[..count]) == 0.0
    ensures count > 0 ==> RankSum(ranks, sorted[..count]) >= 1.0
  {
    if count > 0 {
      RankSumNonNegative(ranks, sorted[..count]);
    }
  }

  /** For any window's best frames: their quality sum does not exceed that
      of the best frames overall, so a window with a positive sum loses
      between 0 and 100 percent. */
  lemma LossWithinBounds(ranks: seq<real>, sorted: seq<nat>, regionSize: nat, count: nat, start: nat)
    requires SortedByRank(ranks, sorted) && Arranges(sorted, 0, |ranks|)
    requires count <= regionSize && start + regionSize <= |ranks|
    requires WindowSum(ranks, start, regionSize, count) > 0.0
    ensures RankSum(ranks, sorted[..count]) > 0.0
    ensures 0.0 <= LossPercent(RankSum(ranks, sorted[..count]), WindowSum(ranks, start, regionSize, count)) < 100.0
  {
    var w := WindowBest(ranks, start, regionSize, count);
    TopSumDominates(ranks, sorted, w);
    LossBounds(RankSum(ranks, sorted[..count]), WindowSum(ranks, start, regionSize, count));
  }

  /** The mean index of a window's best frames lies inside the frame list,
      so its position lies in [0, 100). */
  lemma PositionWithinBounds(ranks: seq<real>, regionSize: nat, count: nat, start: nat)
    requires 0 < count <= regionSize && start + regionSize <= |ranks|
    ensures 0.0 <= TimeLinePosition(WindowBest(ranks, start, regionSize, count), |ranks|) < 100.0
  {
    var w := WindowBest(ranks, start, regionSize, count);
    IndexSumBounds(w, start, start + regionSize);
    PositionBounds(IndexSum(w), |w|, start + regionSize, |ranks|);
  }

  /** Dividing non-negative qualities by the best one yields consistent
      ranking tables: the order, and so the sorted list and its inverse,
      survive the division. */
  lemma NormalisedTables(scores: seq<real>, sorted: seq<nat>)
    requires |scores| > 0 && SortedByRank(scores, sorted) && Arranges(sorted, 0, |scores|)
    requires forall i :: 0 <= i < |scores| ==> scores[i] >= 0.0
    requires scores[sorted[0]] != 0.0
    ensures ConsistentTables(RankTables(Normalised(scores, scores[sorted[0]]), sorted, RankIndices(sorted), sorted[0], scores[sorted[0]]))
    ensures forall i :: 0 <= i < |scores| ==> scores[i] <= scores[sorted[0]]
  {
    var m := scores[sorted[0]];
    FirstIsBest(scores, sorted, 0, |scores|);
    NormalisedRange(scores, sorted[0]);
    NormalisedKeepsOrder(scores, m);
    SortedUnderSameOrder(Normalised(scores, m), scores, sorted);
  }

  /** With normalised qualities, the window holding the best frame has a
      positive quality sum as soon as at least one frame is asked for. */
  lemma BestWindowPositive(ranks: seq<real>, sorted: seq<nat>, regionSize: nat, count: nat)
    requires SortedByRank(ranks, sorted) && Arranges(sorted, 0, |ranks|) && |ranks| > 0
    requires ranks[sorted[0]] == 1.0 && forall i :: 0 <= i < |ranks| ==> ranks[i] >= 0.0
    requires 0 < count <= regionSize <= |ranks|
    ensures exists s: nat :: s <= |ranks| - regionSize && WindowSum(ranks, s, regionSize, count) > 0.0
  {
    var m := sorted[0];
    var s: nat := if m <= |ranks| - regionSize then m else |ranks| - regionSize;
    WindowWithPositive(ranks, s, regionSize, count, m);
  }

  /** A window holding a frame of positive quality has a positive sum of
      its best frames' qualities. */
  lemma WindowWithPositive(ranks: seq<real>, start: nat, regionSize: nat, count: nat, m: nat)
    requires start + regionSize <= |ranks| && 0 < count <= regionSize
    requires start <= m < start + regionSize && ranks[m] > 0.0
    requires forall i :: 0 <= i < |ranks| ==> ranks[i] >= 0.0
    ensures WindowSum(ranks, start, regionSize, count) > 0.0
  {
    var p := RankOrder(ranks, start, start + regionSize);
    FirstIsBest(ranks, p, start, start + regionSize);
    var w := WindowBest(ranks, start, regionSize, count);
    assert w[0] == p[0];
    RankSumNonNegative(ranks, w);
  }

  lemma LossBounds(global: real, chosen: real)
    requires global > 0.0 && 0.0 < chosen <= global
    ensures 0.0 <= LossPercent(global, chosen) < 100.0
  {
    var f := (global - chosen) / global;
    assert f * global == global - chosen;
    assert 100.0 * (global - chosen) / global == 100.0 * f;
  }

  lemma PositionBounds(total: nat, count: nat, hi: nat, number: nat)
    requires 0 < count && 0 < hi <= number && total <= (hi - 1) * count
    ensures 0.0 <= 100.0 * (total as real / count as real) / number as real < 100.0
  {
    MeanAtMost(total, count, hi - 1);
    PercentBelow(total as real / count as real, number as real);
  }

  lemma MeanAtMost(total: nat, count: nat, bound: nat)
    requires 0 < count && total <= bound * count
    ensures 0.0 <= total as real / count as real <= bound as real
  {
    assert (bound * count) as real == bound as real * count as real;
    QuotientAtMost(total as real, bound as real, count as real);
    var q := total as real / count as real;
    assert q * count as real == total as real;
  }

  lemma PercentBelow(mean: real, number: real)
    requires 0.0 <= mean <= number - 1.0
    ensures 0.0 <= 100.0 * mean / number < 100.0
  {
    var f := mean / number;
    assert f * number == mean;
    assert 100.0 * mean / number == 100.0 * f;
  }

  lemma QuotientAtMost(a: real, b: real, c: real)
    requires c > 0.0 && a <= b * c
    ensures a / c <= b
  {
    var q := a / c;
    assert q * c == a;
    assert (q - b) * c <= 0.0;
  }
}
