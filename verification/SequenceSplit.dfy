/** The chronological split of a sequence of heatmaps into training, validation and test
    sets, with normalisation by the training period. */
module SequenceSplit {
  import opened Common
  import opened Heatmaps

  type Frame = seq<seq<real>>  // a normalised heatmap

  // ----- Python and numpy

  /** `int(x)`. */
  function Truncate(x: real): int {
    if x >= 0.0 then x.Floor else -((-x).Floor)
  }

  /** `np.arange(lo, hi)`. */
  function Arange(lo: int, hi: int): (r: seq<int>)
    ensures |r| == Max(0, hi - lo) && forall i :: 0 <= i < |r| ==> r[i] == lo + i
  {
    seq(Max(0, hi - lo), i => lo + i)
  }

  /** Where a slice bound falls: negative ones count from the end, all are clamped. */
  function Bound(n: nat, i: int): (k: nat)
    ensures k <= n
  {
    if i < 0 then Max(0, n + i) else Min(i, n)
  }

  /** `s[i:j]`. */
  function Slice<T>(s: seq<T>, i: int, j: int): seq<T> {
    var a, b := Bound(|s|, i), Bound(|s|, j);
    if a <= b then s[a..b] else []
  }

  /** `s[i]`; `None` is an index error. */
  function Index<T>(s: seq<T>, i: int): Option<T> {
    if 0 <= i < |s| then Some(s[i]) else if -|s| <= i < 0 then Some(s[|s| + i]) else None
  }

  // ----- the data sets

  /** Sequence-to-next-heatmap samples: one per target index. */
  datatype Dataset = Dataset(frames: seq<Frame>, lookback: int, targets: seq<int>) {

    function Length(): nat {
      |targets|
    }

    /** Input window and expected frame of a sample. */
    function Item(k: nat): Option<(seq<Frame>, Frame)>
      requires k < Length()
    {
      var y := targets[k];
      match Index(frames, y)
      case None => None
      case Some(frame) => Some((Slice(frames, y - lookback, y), frame))
    }
  }

  // ----- normalisation

  function RowMax(row: seq<nat>): Option<nat> {
    if row == [] then None
    else
      var m, x := RowMax(row[..|row| - 1]), row[|row| - 1];
      if m.Some? && m.value >= x then m else Some(x)
  }

  /** The largest of several maxima, leaving out those that are missing. */
  function Larger(a: Option<nat>, b: Option<nat>): Option<nat> {
    if a.None? then b else if b.None? || a.value >= b.value then a else b
  }

  function MapMax(h: Heatmap): Option<nat> {
    if h == [] then None else Larger(MapMax(h[..|h| - 1]), RowMax(h[|h| - 1]))
  }

  /** `np.max`; `None` is the error for an array without cells. */
  function MaxCount(hs: seq<Heatmap>): Option<nat> {
    if hs == [] then None else Larger(MaxCount(hs[..|hs| - 1]), MapMax(hs[|hs| - 1]))
  }

  function Scaled(row: seq<nat>, scale: real): (r: seq<real>)
    requires scale > 0.0
    ensures |r| == |row| && forall i :: 0 <= i < |row| ==> r[i] == row[i] as real / scale
  {
    seq(|row|, i requires 0 <= i < |row| => row[i] as real / scale)
  }

  function Normalised(h: Heatmap, scale: real): (f: Frame)
    requires scale > 0.0
    ensures |f| == |h| && forall i :: 0 <= i < |h| ==> f[i] == Scaled(h[i], scale)
  {
    seq(|h|, i requires 0 <= i < |h| => Scaled(h[i], scale))
  }

  function AllNormalised(hs: seq<Heatmap>, scale: real): (fs: seq<Frame>)
    requires scale > 0.0
    ensures |fs| == |hs| && forall i :: 0 <= i < |hs| ==> fs[i] == Normalised(hs[i], scale)
  {
    seq(|hs|, i requires 0 <= i < |hs| => Normalised(hs[i], scale))
  }

  // ----- the split

  /** How many heatmaps the ratios give to training, and to training and validation. */
  datatype Shares = Shares(train: int, both: int)

  function SharesOf(n: nat, trainRatio: real, valRatio: real): Shares {
    Shares(Truncate(n as real * trainRatio), Truncate(n as real * (trainRatio + valRatio)))
  }

  /** The ends of the training and validation periods. */
  datatype Split = Split(trainEnd: int, valEnd: int)

  function SplitPoints(n: nat, lookback: int, shares: Shares): Split {
    var trainEnd := Min(Max(lookback + 1, shares.train), n - 2);
    var valEnd := Min(Max(trainEnd + 1, shares.both), n - 1);
    Split(trainEnd, valEnd)
  }

  predicate ValidRatios(trainRatio: real, valRatio: real) {
    trainRatio > 0.0 && valRatio >= 0.0 && trainRatio + valRatio < 1.0
  }

  function Scale(hs: seq<Heatmap>, trainEnd: int): (r: Option<real>)
    ensures r.Some? ==> r.value > 0.0
  {
    match MaxCount(Slice(hs, 0, trainEnd))
    case None => None
    case Some(m) => Some(if m > 0 then m as real else 1.0)
  }

  datatype Prepared = Prepared(scale: real, train: Dataset, validation: Dataset, test: Dataset)

  datatype SplitError = InvalidRatios | NoTrainingCells | TooFewSteps

  /** The part of the program from the split points to the guard on empty sets, for any
      shares. */
  function PrepareAt(hs: seq<Heatmap>, lookback: int, shares: Shares): Result<Prepared, SplitError> {
    var n, s := |hs|, SplitPoints(|hs|, lookback, shares);
    match Scale(hs, s.trainEnd)
    case None => Failure(NoTrainingCells)
    case Some(scale) =>
      var frames := AllNormalised(hs, scale);
      var train := Dataset(frames, lookback, Arange(lookback, s.trainEnd));
      var validation := Dataset(frames, lookback, Arange(s.trainEnd, s.valEnd));
      var test := Dataset(frames, lookback, Arange(s.valEnd, n));
      if train.Length() == 0 || validation.Length() == 0 || test.Length() == 0 then Failure(TooFewSteps)
      else Success(Prepared(scale, train, validation, test))
  }

  /** The whole part, with the check of the ratios in front. */
  function Prepare(hs: seq<Heatmap>, lookback: int, trainRatio: real, valRatio: real): Result<Prepared, SplitError> {
    if !ValidRatios(trainRatio, valRatio) then Failure(InvalidRatios)
    else PrepareAt(hs, lookback, SharesOf(|hs|, trainRatio, valRatio))
  }

  // ----- when the data can be used

  ghost predicate HasCells(h: Heatmap) {
    exists i :: 0 <= i < |h| && h[i] != []
  }

  lemma {:induction false} MapMaxExists(h: Heatmap)
    ensures MapMax(h).Some? <==> HasCells(h)
  {
    if h != [] {
      var n := |h| - 1;
      MapMaxExists(h[..n]);
      if i :| 0 <= i < |h| && h[i] != [] {
        assert i < n ==> h[..n][i] != [];
      }
    }
  }

  lemma {:induction false} MaxCountExists(hs: seq<Heatmap>)
    ensures MaxCount(hs).Some? <==> exists k :: 0 <= k < |hs| && HasCells(hs[k])
  {
    if hs != [] {
      var n := |hs| - 1;
      MaxCountExists(hs[..n]);
      MapMaxExists(hs[n]);
      if k :| 0 <= k < |hs| && HasCells(hs[k]) {
        assert k < n ==> HasCells(hs[..n][k]);
      }
    }
  }

  lemma AcceptedAtIff(hs: seq<Heatmap>, lookback: nat, shares: Shares)
    requires forall k :: 0 <= k < |hs| ==> HasCells(hs[k])
    ensures PrepareAt(hs, lookback, shares).Success? <==> |hs| >= lookback + 3
  {
    var n, s := |hs|, SplitPoints(|hs|, lookback, shares);
    var raw := Slice(hs, 0, s.trainEnd);
    MaxCountExists(raw);
    if n >= lookback + 3 {
      assert HasCells(raw[0]);
    }
  }

  /** When every heatmap has cells: the data are accepted if and only if the ratios are
      valid and there are three more heatmaps than the lookback, whatever the ratios. */
  lemma AcceptedIff(hs: seq<Heatmap>, lookback: nat, trainRatio: real, valRatio: real)
    requires forall k :: 0 <= k < |hs| ==> HasCells(hs[k])
    ensures Prepare(hs, lookback, trainRatio, valRatio).Success? <==>
            ValidRatios(trainRatio, valRatio) && |hs| >= lookback + 3
  {
    AcceptedAtIff(hs, lookback, SharesOf(|hs|, trainRatio, valRatio));
  }

  function Gap(a: int, b: int): nat {
    if a >= b then a - b else b - a
  }

  /** Raising to `lo` and then lowering to `hi` gives the closest position between them. */
  lemma ClosestInRange(lo: int, hi: int, share: int, x: int)
    requires lo <= x <= hi
    ensures Gap(Min(Max(lo, share), hi), share) <= Gap(x, share)
  {
  }

  /** The split follows the shares: each end is, among the positions that leave no range
      empty, the one closest to its share of the heatmaps. */
  lemma SplitFollowsShares(n: nat, lookback: int, shares: Shares, x: int)
    ensures var s := SplitPoints(n, lookback, shares);
            && (lookback + 1 <= x <= n - 2 ==> Gap(s.trainEnd, shares.train) <= Gap(x, shares.train))
            && (s.trainEnd + 1 <= x <= n - 1 ==> Gap(s.valEnd, shares.both) <= Gap(x, shares.both))
  {
    var s := SplitPoints(n, lookback, shares);
    if lookback + 1 <= x <= n - 2 {
      ClosestInRange(lookback + 1, n - 2, shares.train, x);
    }
    if s.trainEnd + 1 <= x <= n - 1 {
      ClosestInRange(s.trainEnd + 1, n - 1, shares.both, x);
    }
  }

  // ----- what an accepted split contains

  /** The three sets, in terms of the split points. */
  ghost predicate Laid(hs: seq<Heatmap>, lookback: int, s: Split, p: Prepared) {
    && p.scale > 0.0 && lookback < s.trainEnd < s.valEnd < |hs|
    && Scale(hs, s.trainEnd) == Some(p.scale)
    && p.train == Dataset(AllNormalised(hs, p.scale), lookback, Arange(lookback, s.trainEnd))
    && p.validation == Dataset(AllNormalised(hs, p.scale), lookback, Arange(s.trainEnd, s.valEnd))
    && p.test == Dataset(AllNormalised(hs, p.scale), lookback, Arange(s.valEnd, |hs|))
  }

  lemma PreparedIsLaid(hs: seq<Heatmap>, lookback: int, shares: Shares)
    requires PrepareAt(hs, lookback, shares).Success?
    ensures Laid(hs, lookback, SplitPoints(|hs|, lookback, shares),
                 PrepareAt(hs, lookback, shares).value)
  {
  }

  /** `k` is the whole part of the real number `x`, moved into the range from `lo` to `hi`. */
  ghost predicate WholePartWithin(x: real, lo: int, hi: int, k: int) {
    || (lo <= k <= hi && k as real <= x < k as real + 1.0)
    || (k == lo && x < lo as real)
    || (k == hi && x >= hi as real + 1.0)
  }

  lemma TruncateIs(x: real)
    requires x >= 0.0
    ensures Truncate(x) as real <= x < Truncate(x) as real + 1.0
  {
  }

  lemma ClampedIs(x: real, lo: int, hi: int)
    requires x >= 0.0 && lo <= hi
    ensures WholePartWithin(x, lo, hi, Min(Max(lo, Truncate(x)), hi))
  {
    TruncateIs(x);
  }

  lemma NotNegative(n: nat, x: real)
    requires x >= 0.0
    ensures n as real * x >= 0.0
  {
  }

  lemma SizesAreThose(hs: seq<Heatmap>, lookback: nat, shares: Shares)
    requires PrepareAt(hs, lookback, shares).Success?
    ensures var p, s := PrepareAt(hs, lookback, shares).value, SplitPoints(|hs|, lookback, shares);
            && lookback < s.trainEnd < s.valEnd < |hs|
            && s.trainEnd == lookback + |p.train.targets| && s.valEnd == s.trainEnd + |p.validation.targets|
            && |hs| == s.valEnd + |p.test.targets|
  {
    PreparedIsLaid(hs, lookback, shares);
  }

  lemma PointsFollowRatios(n: nat, lookback: int, x: real, y: real)
    ensures var s := SplitPoints(n, lookback, Shares(Truncate(x), Truncate(y)));
            x >= 0.0 && y >= 0.0 && lookback < s.trainEnd < s.valEnd < n ==>
              && WholePartWithin(x, lookback + 1, n - 2, s.trainEnd)
              && WholePartWithin(y, s.trainEnd + 1, n - 1, s.valEnd)
  {
    var s := SplitPoints(n, lookback, Shares(Truncate(x), Truncate(y)));
    if x >= 0.0 && y >= 0.0 && lookback < s.trainEnd < s.valEnd < n {
      ClampedIs(x, lookback + 1, n - 2);
      ClampedIs(y, s.trainEnd + 1, n - 1);
    }
  }

  /** Training ends after the whole number in `x`, validation after the whole number in `y`, as
      far as at least one target remains in each set. */
  ghost predicate SizedBy(n: nat, lookback: nat, x: real, y: real, p: Prepared) {
    var trainEnd := lookback + |p.train.targets|;
    var valEnd := trainEnd + |p.validation.targets|;
    && WholePartWithin(x, lookback + 1, n - 2, trainEnd) && WholePartWithin(y, trainEnd + 1, n - 1, valEnd)
    && valEnd + |p.test.targets| == n
  }

  lemma SharesGiveSizes(hs: seq<Heatmap>, lookback: nat, x: real, y: real)
    requires x >= 0.0 && y >= 0.0 && PrepareAt(hs, lookback, Shares(Truncate(x), Truncate(y))).Success?
    ensures SizedBy(|hs|, lookback, x, y, PrepareAt(hs, lookback, Shares(Truncate(x), Truncate(y))).value)
  {
    SizesAreThose(hs, lookback, Shares(Truncate(x), Truncate(y)));
    PointsFollowRatios(|hs|, lookback, x, y);
  }

  /** The sizes of the sets, from the ratios: training ends after the whole number of heatmaps
      that its ratio gives, validation after the whole number that both ratios give. */
  lemma SplitFollowsRatios(hs: seq<Heatmap>, lookback: nat, trainRatio: real, valRatio: real)
    requires Prepare(hs, lookback, trainRatio, valRatio).Success?
    ensures trainRatio > 0.0 && valRatio >= 0.0 && trainRatio + valRatio < 1.0
    ensures SizedBy(|hs|, lookback, |hs| as real * trainRatio, |hs| as real * (trainRatio + valRatio),
                    Prepare(hs, lookback, trainRatio, valRatio).value)
  {
    NotNegative(|hs|, trainRatio);
    NotNegative(|hs|, trainRatio + valRatio);
    SharesGiveSizes(hs, lookback, |hs| as real * trainRatio, |hs| as real * (trainRatio + valRatio));
  }

  /** All targets in order, each once: the three sets laid end to end. */
  lemma TargetsPartition(hs: seq<Heatmap>, lookback: int, shares: Shares)
    requires PrepareAt(hs, lookback, shares).Success?
    ensures var p := PrepareAt(hs, lookback, shares).value;
            p.train.targets + p.validation.targets + p.test.targets == Arange(lookback, |hs|)
  {
    var s := SplitPoints(|hs|, lookback, shares);
    PreparedIsLaid(hs, lookback, shares);
    ArangeInThree(lookback, s.trainEnd, s.valEnd, |hs|);
  }

  lemma ArangeInThree(a: int, b: int, c: int, d: int)
    requires a <= b <= c <= d
    ensures Arange(a, b) + Arange(b, c) + Arange(c, d) == Arange(a, d)
  {
  }

  datatype Which = Train | Validation | Test

  function Pick(p: Prepared, which: Which): Dataset {
    match which
    case Train => p.train
    case Validation => p.validation
    case Test => p.test
  }

  /** A sample made of exactly the `lookback` normalised heatmaps before target `y`, and
      the target itself. */
  ghost predicate IsWindow(hs: seq<Heatmap>, lookback: nat, scale: real, y: int, item: Option<(seq<Frame>, Frame)>) {
    && scale > 0.0 && lookback <= y < |hs|
    && item.Some? && item.value.1 == Normalised(hs[y], scale)
    && |item.value.0| == lookback
    && forall i :: 0 <= i < lookback ==> item.value.0[i] == Normalised(hs[y - lookback + i], scale)
  }

  lemma ItemOf(hs: seq<Heatmap>, lookback: nat, scale: real, d: Dataset, k: nat)
    requires scale > 0.0 && d.frames == AllNormalised(hs, scale) && d.lookback == lookback && k < d.Length()
    requires lookback <= d.targets[k] < |hs|
    ensures IsWindow(hs, lookback, scale, d.targets[k], d.Item(k))
  {
    var y := d.targets[k];
    assert Slice(d.frames, y - lookback, y) == d.frames[y - lookback..y];
  }

  lemma TargetInRange(hs: seq<Heatmap>, lookback: nat, s: Split, p: Prepared, which: Which, k: nat)
    requires Laid(hs, lookback, s, p) && k < Pick(p, which).Length()
    ensures lookback <= Pick(p, which).targets[k] < |hs|
    ensures which == Train <==> Pick(p, which).targets[k] < s.trainEnd
  {
  }

  lemma LaidItem(hs: seq<Heatmap>, lookback: nat, s: Split, p: Prepared, which: Which, k: nat)
    requires Laid(hs, lookback, s, p) && k < Pick(p, which).Length()
    ensures IsWindow(hs, lookback, p.scale, Pick(p, which).targets[k], Pick(p, which).Item(k))
    ensures which == Train <==> Pick(p, which).targets[k] < s.trainEnd
  {
    TargetInRange(hs, lookback, s, p, which, k);
    ItemOf(hs, lookback, p.scale, Pick(p, which), k);
  }

  /** Every sample of every set has a full window. */
  lemma ItemIsWindow(hs: seq<Heatmap>, lookback: nat, shares: Shares, which: Which, k: nat)
    requires PrepareAt(hs, lookback, shares).Success?
    requires k < Pick(PrepareAt(hs, lookback, shares).value, which).Length()
    ensures var p := PrepareAt(hs, lookback, shares).value;
            IsWindow(hs, lookback, p.scale, Pick(p, which).targets[k], Pick(p, which).Item(k))
  {
    PreparedIsLaid(hs, lookback, shares);
    LaidItem(hs, lookback, SplitPoints(|hs|, lookback, shares),
             PrepareAt(hs, lookback, shares).value, which, k);
  }

  // ----- no leakage

  ghost predicate Agree(a: seq<Heatmap>, b: seq<Heatmap>, n: int) {
    |a| == |b| && forall i :: 0 <= i < n && i < |a| ==> a[i] == b[i]
  }

  lemma SameScale(a: seq<Heatmap>, b: seq<Heatmap>, lookback: nat, s: Split, p: Prepared, q: Prepared)
    requires Laid(a, lookback, s, p) && Laid(b, lookback, s, q) && Agree(a, b, s.trainEnd)
    ensures p.scale == q.scale
  {
    assert Slice(a, 0, s.trainEnd) == Slice(b, 0, s.trainEnd);
  }

  lemma SameWindow(a: seq<Heatmap>, b: seq<Heatmap>, lookback: nat, scale: real, y: int,
                   x: Option<(seq<Frame>, Frame)>, z: Option<(seq<Frame>, Frame)>)
    requires IsWindow(a, lookback, scale, y, x) && IsWindow(b, lookback, scale, y, z) && Agree(a, b, y)
    ensures x.value.0 == z.value.0
  {
    forall i | 0 <= i < lookback ensures x.value.0[i] == z.value.0[i] {
      assert a[y - lookback + i] == b[y - lookback + i];
    }
  }

  /** No leakage into training: recordings of one length that agree on the training period
      give the same scale and the same training samples, whatever comes later. */
  lemma TrainingIgnoresFuture(a: seq<Heatmap>, b: seq<Heatmap>, lookback: nat, shares: Shares, k: nat)
    requires PrepareAt(a, lookback, shares).Success? && PrepareAt(b, lookback, shares).Success?
    requires Agree(a, b, SplitPoints(|a|, lookback, shares).trainEnd)
    requires k < PrepareAt(a, lookback, shares).value.train.Length()
    ensures var p, q := PrepareAt(a, lookback, shares).value, PrepareAt(b, lookback, shares).value;
            p.scale == q.scale && k < q.train.Length() && p.train.Item(k) == q.train.Item(k)
  {
    PreparedIsLaid(a, lookback, shares);
    PreparedIsLaid(b, lookback, shares);
    LaidTrainingSame(a, b, lookback, SplitPoints(|a|, lookback, shares),
                     PrepareAt(a, lookback, shares).value, PrepareAt(b, lookback, shares).value, k);
  }

  lemma LaidTrainingSame(a: seq<Heatmap>, b: seq<Heatmap>, lookback: nat, s: Split, p: Prepared, q: Prepared, k: nat)
    requires Laid(a, lookback, s, p) && Laid(b, lookback, s, q) && Agree(a, b, s.trainEnd) && k < p.train.Length()
    ensures p.scale == q.scale && k < q.train.Length() && p.train.Item(k) == q.train.Item(k)
  {
    SameScale(a, b, lookback, s, p, q);
    LaidItem(a, lookback, s, p, Train, k);
    LaidItem(b, lookback, s, q, Train, k);
    SameWindow(a, b, lookback, p.scale, p.train.targets[k], p.train.Item(k), q.train.Item(k));
  }

  /** No lookahead in evaluation: the input of a validation or test sample depends only on
      the heatmaps before its target. */
  lemma EvaluationIgnoresFuture(a: seq<Heatmap>, b: seq<Heatmap>, lookback: nat, shares: Shares,
                                which: Which, k: nat)
    requires PrepareAt(a, lookback, shares).Success? && PrepareAt(b, lookback, shares).Success?
    requires which != Train && k < Pick(PrepareAt(a, lookback, shares).value, which).Length()
    requires Agree(a, b, Pick(PrepareAt(a, lookback, shares).value, which).targets[k])
    ensures var p, q := PrepareAt(a, lookback, shares).value, PrepareAt(b, lookback, shares).value;
            SameInput(Pick(p, which), Pick(q, which), k)
  {
    PreparedIsLaid(a, lookback, shares);
    PreparedIsLaid(b, lookback, shares);
    LaidInputSame(a, b, lookback, SplitPoints(|a|, lookback, shares),
                  PrepareAt(a, lookback, shares).value, PrepareAt(b, lookback, shares).value, which, k);
  }

  /** Sample `k` of the two sets has the same target index and the same input. */
  ghost predicate SameInput(d: Dataset, e: Dataset, k: nat) {
    && k < d.Length() && k < e.Length() && d.targets[k] == e.targets[k]
    && d.Item(k).Some? && e.Item(k).Some? && d.Item(k).value.0 == e.Item(k).value.0
  }

  lemma LaidInputSame(a: seq<Heatmap>, b: seq<Heatmap>, lookback: nat, s: Split, p: Prepared, q: Prepared,
                      which: Which, k: nat)
    requires Laid(a, lookback, s, p) && Laid(b, lookback, s, q) && which != Train && k < Pick(p, which).Length()
    requires Agree(a, b, Pick(p, which).targets[k])
    ensures SameInput(Pick(p, which), Pick(q, which), k)
  {
    LaidItem(a, lookback, s, p, which, k);
    LaidItem(b, lookback, s, q, which, k);
    SameScale(a, b, lookback, s, p, q);
    SameWindow(a, b, lookback, p.scale, Pick(p, which).targets[k], Pick(p, which).Item(k), Pick(q, which).Item(k));
  }

  // ----- the scale

  lemma {:induction false} RowMaxBounds(row: seq<nat>, j: nat)
    requires j < |row|
    ensures RowMax(row).Some? && row[j] <= RowMax(row).value
  {
    if j < |row| - 1 {
      RowMaxBounds(row[..|row| - 1], j);
    }
  }

  lemma {:induction false} MapMaxBounds(h: Heatmap, i: nat, j: nat)
    requires i < |h| && j < |h[i]|
    ensures MapMax(h).Some? && h[i][j] <= MapMax(h).value
  {
    if i < |h| - 1 {
      MapMaxBounds(h[..|h| - 1], i, j);
    } else {
      RowMaxBounds(h[i], j);
    }
  }

  lemma {:induction false} MaxCountBounds(hs: seq<Heatmap>, k: nat, i: nat, j: nat)
    requires k < |hs| && i < |hs[k]| && j < |hs[k][i]|
    ensures MaxCount(hs).Some? && hs[k][i][j] <= MaxCount(hs).value
  {
    if k < |hs| - 1 {
      MaxCountBounds(hs[..|hs| - 1], k, i, j);
    } else {
      MapMaxBounds(hs[k], i, j);
    }
  }

  lemma Fraction(x: real, scale: real)
    requires 0.0 <= x <= scale && scale > 0.0
    ensures 0.0 <= x / scale <= 1.0
  {
  }

  /** Every cell of a normalised training heatmap lies between 0 and 1. */
  lemma TrainingInUnitRange(hs: seq<Heatmap>, lookback: nat, shares: Shares, k: nat, i: nat, j: nat)
    requires PrepareAt(hs, lookback, shares).Success?
    requires k < SplitPoints(|hs|, lookback, shares).trainEnd && k < |hs| && i < |hs[k]| && j < |hs[k][i]|
    ensures 0.0 <= Normalised(hs[k], PrepareAt(hs, lookback, shares).value.scale)[i][j] <= 1.0
  {
    var t := SplitPoints(|hs|, lookback, shares).trainEnd;
    var raw := Slice(hs, 0, t);
    assert raw[k] == hs[k];
    MaxCountBounds(raw, k, i, j);
    Fraction(hs[k][i][j] as real, PrepareAt(hs, lookback, shares).value.scale);
  }

  lemma {:induction false} RowMaxAttained(row: seq<nat>) returns (j: nat)
    requires RowMax(row).Some?
    ensures j < |row| && row[j] == RowMax(row).value
  {
    var n := |row| - 1;
    if RowMax(row) == Some(row[n]) {
      j := n;
    } else {
      j := RowMaxAttained(row[..n]);
    }
  }

  lemma {:induction false} MapMaxAttained(h: Heatmap) returns (i: nat, j: nat)
    requires MapMax(h).Some?
    ensures i < |h| && j < |h[i]| && h[i][j] == MapMax(h).value
  {
    var n := |h| - 1;
    if MapMax(h) == RowMax(h[n]) {
      i := n;
      j := RowMaxAttained(h[n]);
    } else {
      i, j := MapMaxAttained(h[..n]);
    }
  }

  lemma {:induction false} MaxCountAttained(hs: seq<Heatmap>) returns (k: nat, i: nat, j: nat)
    requires MaxCount(hs).Some?
    ensures k < |hs| && i < |hs[k]| && j < |hs[k][i]| && hs[k][i][j] == MaxCount(hs).value
  {
    var n := |hs| - 1;
    if MaxCount(hs) == MapMax(hs[n]) {
      k := n;
      i, j := MapMaxAttained(hs[n]);
    } else {
      k, i, j := MaxCountAttained(hs[..n]);
    }
  }

  /** The range is used up: if any training cell is positive, some training cell becomes 1. */
  lemma TrainingReachesOne(hs: seq<Heatmap>, lookback: nat, shares: Shares, a: nat, b: nat, c: nat)
    returns (k: nat, i: nat, j: nat)
    requires PrepareAt(hs, lookback, shares).Success?
    requires a < SplitPoints(|hs|, lookback, shares).trainEnd && a < |hs| && b < |hs[a]| && c < |hs[a][b]|
    requires hs[a][b][c] > 0
    ensures k < SplitPoints(|hs|, lookback, shares).trainEnd && k < |hs| && i < |hs[k]| && j < |hs[k][i]|
    ensures Normalised(hs[k], PrepareAt(hs, lookback, shares).value.scale)[i][j] == 1.0
  {
    var t := SplitPoints(|hs|, lookback, shares).trainEnd;
    var raw := Slice(hs, 0, t);
    assert raw[a] == hs[a];
    MaxCountBounds(raw, a, b, c);
    k, i, j := MaxCountAttained(raw);
    assert raw[k] == hs[k];
    PreparedIsLaid(hs, lookback, shares);
    Whole(hs[k][i][j] as real);
  }

  lemma Whole(x: real)
    requires x > 0.0
    ensures x / x == 1.0
  {
  }
}
