/**
 * Best-frame selection over a drained burst: the scan keeps the first entry
 * and replaces it only when a later metric compares strictly greater under
 * `Double.compareTo`, so the first occurrence of the maximum wins.
 */
module Selection {
  import opened Metrics

  /**
   * `k` is the first index of a maximum of `ms`: nothing in `ms` is greater
   * than `ms[k]`, and everything before `k` is smaller.
   */
  predicate IsFirstMax(ms: seq<Metric>, k: nat) {
    && k < |ms|
    && (forall j :: 0 <= j < |ms| ==> !Greater(ms[j], ms[k]))
    && (forall j :: 0 <= j < k ==> Greater(ms[k], ms[j]))
  }

  /** At most one index is the first maximum. */
  lemma FirstMaxUnique(ms: seq<Metric>, k1: nat, k2: nat)
    requires IsFirstMax(ms, k1) && IsFirstMax(ms, k2)
    ensures k1 == k2
  {
    assert !Greater(ms[k2], ms[k1]);
    assert !Greater(ms[k1], ms[k2]);
  }

  /**
   * The scan from position `i` on, with `best` the index of the best entry
   * among the first `i`: an entry replaces the best only when strictly greater.
   */
  function ScanMax(ms: seq<Metric>, i: nat, best: nat): (k: nat)
    requires best < i <= |ms|
    ensures best <= k < |ms|
    ensures k == best || i <= k
    decreases |ms| - i
  {
    if i == |ms| then best
    else if Greater(ms[i], ms[best]) then ScanMax(ms, i + 1, i)
    else ScanMax(ms, i + 1, best)
  }

  /** The index the drain selects: scan from the first entry. It is the first maximum. */
  function SelectIndex(ms: seq<Metric>): (k: nat)
    requires |ms| > 0
    ensures k < |ms| && IsFirstMax(ms, k)
  {
    assert IsFirstMax(ms[..1], 0);
    ScanMaxIsFirstMax(ms, 1, 0);
    ScanMax(ms, 1, 0)
  }

  /** One step of the scan keeps `best` the first maximum of the polled prefix. */
  lemma ScanStep(ms: seq<Metric>, i: nat, best: nat)
    requires best < i < |ms| && IsFirstMax(ms[..i], best)
    ensures IsFirstMax(ms[..i + 1], if Greater(ms[i], ms[best]) then i else best)
  {
    var p := ms[..i + 1];
    assert forall j :: 0 <= j < i ==> p[j] == ms[..i][j];
    if Greater(ms[i], ms[best]) {
      forall j | 0 <= j < i
        ensures Greater(ms[i], p[j])
      {
        assert !Greater(ms[..i][j], ms[..i][best]);
        GreaterTotal(ms[j], ms[best]);
        if ms[j] != ms[best] {
          GreaterTransitive(ms[i], ms[best], ms[j]);
        }
      }
      forall j | 0 <= j < i + 1
        ensures !Greater(p[j], p[i])
      {
        GreaterTotal(p[j], p[i]);
      }
    } else {
      GreaterTotal(ms[i], ms[best]);
    }
  }

  /** The scan finds the first maximum of the whole sequence. */
  lemma {:induction false} ScanMaxIsFirstMax(ms: seq<Metric>, i: nat, best: nat)
    requires best < i <= |ms| && IsFirstMax(ms[..i], best)
    ensures IsFirstMax(ms, ScanMax(ms, i, best))
    decreases |ms| - i
  {
    if i == |ms| {
      assert ms[..i] == ms;
    } else {
      ScanStep(ms, i, best);
      if Greater(ms[i], ms[best]) {
        ScanMaxIsFirstMax(ms, i + 1, i);
      } else {
        ScanMaxIsFirstMax(ms, i + 1, best);
      }
    }
  }

  /** The selected index is the first maximum, and no other index is. */
  lemma SelectIndexIsFirstMax(ms: seq<Metric>, k: nat)
    requires |ms| > 0
    ensures SelectIndex(ms) == k <==> IsFirstMax(ms, k)
  {
    if IsFirstMax(ms, k) {
      FirstMaxUnique(ms, k, SelectIndex(ms));
    }
  }

  /**
   * With metrics 3, 5, 5, 2 followed by 2s up to a full burst, the first 5
   * is selected, not the second.
   */
  lemma TieKeepsFirst()
    ensures var ms := seq(15, i => if i == 0 then Finite(3.0) else if i <= 2 then Finite(5.0) else Finite(2.0));
      SelectIndex(ms) == 1
  {
    var ms := seq(15, i => if i == 0 then Finite(3.0) else if i <= 2 then Finite(5.0) else Finite(2.0));
    assert IsFirstMax(ms, 1);
    SelectIndexIsFirstMax(ms, 1);
  }

  /**
   * `Double.compareTo` ranks NaN above every number, so the first NaN in a
   * burst is always the one selected.
   */
  lemma FirstNaNWins(ms: seq<Metric>, j: nat)
    requires j < |ms| && ms[j] == NaN
    requires forall i :: 0 <= i < j ==> ms[i] != NaN
    ensures SelectIndex(ms) == j
  {
    assert IsFirstMax(ms, j);
    SelectIndexIsFirstMax(ms, j);
  }

  /**
   * The drain loop as written: poll the first pair as the current best, then
   * poll pair after pair until the metric queue is empty, replacing the best
   * only on a strictly greater metric. Both queues end empty, and the pair
   * returned is the one at the first maximum.
   */
  method PollMax<F>(metrics: seq<Metric>, frames: seq<F>)
    returns (maxMetric: Metric, maxFrame: F, metricQueue: seq<Metric>, frameQueue: seq<F>)
    requires |metrics| == |frames| > 0
    ensures metricQueue == [] && frameQueue == []
    ensures maxMetric == metrics[SelectIndex(metrics)]
    ensures maxFrame == frames[SelectIndex(metrics)]
  {
    metricQueue, frameQueue := metrics, frames;
    maxMetric, metricQueue := metricQueue[0], metricQueue[1..];
    maxFrame, frameQueue := frameQueue[0], frameQueue[1..];
    ghost var best: nat := 0;
    assert IsFirstMax(metrics[..1], 0);
    while metricQueue != []
      invariant |metricQueue| == |frameQueue| < |metrics|
      invariant metricQueue == metrics[|metrics| - |metricQueue|..]
      invariant frameQueue == frames[|frames| - |frameQueue|..]
      invariant best < |metrics| - |metricQueue|
      invariant IsFirstMax(metrics[..|metrics| - |metricQueue|], best)
      invariant maxMetric == metrics[best] && maxFrame == frames[best]
      decreases |metricQueue|
    {
      ghost var i := |metrics| - |metricQueue|;
      var m := metricQueue[0];
      var f := frameQueue[0];
      assert m == metrics[i] && f == frames[i];
      metricQueue, frameQueue := metricQueue[1..], frameQueue[1..];
      assert metricQueue == metrics[i + 1..] && frameQueue == frames[i + 1..];
      ScanStep(metrics, i, best);
      if CompareTo(m, maxMetric) > 0 {
        maxMetric, maxFrame := m, f;
        best := i;
      }
    }
    assert metrics[..|metrics|] == metrics;
    SelectIndexIsFirstMax(metrics, best);
  }
}
