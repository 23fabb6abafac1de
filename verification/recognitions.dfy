/**
 * The detection half of `DetectorActivity.processImage`: what the model's
 * recognitions look like, which of them survive the filter, how survivors are
 * remapped for the tracker, and the per-frame burst metric.
 *
 * The model itself (`recognizeImage`) is not part of this model: its output is
 * given as an input sequence. The crop-to-frame matrix (`mapRect`) is an
 * abstract parameter `remap`.
 */
module Recognitions {
  import opened Wrappers
  import opened Metrics

  /** Survivors need at least this confidence (`MINIMUM_CONFIDENCE_TF_OD_API`). */
  const MinimumConfidence: real := 0.5

  /** Survivors must carry this class id (the first label of the label file). */
  const TargetClass: int := 0

  /** An axis-aligned rectangle, as Android's `RectF`. */
  datatype Rect = Rect(left: real, top: real, right: real, bottom: real)

  /** `RectF.centerY()`: the vertical centre of the box. */
  function CenterY(r: Rect): real {
    (r.top + r.bottom) / 2.0
  }

  /** `Classifier.Recognition`; a missing location is a `null` `RectF`. */
  datatype Recognition = Recognition(
    id: string,
    title: string,
    confidence: real,
    location: Option<Rect>,
    detectedClass: int)

  /** The test a recognition must pass to be forwarded. */
  predicate Kept(r: Recognition) {
    && r.location.Some?
    && r.confidence >= MinimumConfidence
    && r.detectedClass == TargetClass
  }

  /** The filter as a specification: the kept recognitions, in input order. */
  function Survivors(rs: seq<Recognition>): (s: seq<Recognition>)
    ensures |s| <= |rs|
    ensures forall x :: x in s ==> Kept(x) && x in rs
    decreases |rs|
  {
    if rs == [] then []
    else (if Kept(rs[0]) then [rs[0]] else []) + Survivors(rs[1..])
  }

  /** Filtering commutes with concatenation: survivors keep their relative order. */
  lemma {:induction false} SurvivorsAppend(a: seq<Recognition>, b: seq<Recognition>)
    ensures Survivors(a + b) == Survivors(a) + Survivors(b)
    decreases |a|
  {
    if a == [] {
      assert a + b == b;
    } else {
      assert (a + b)[0] == a[0];
      assert (a + b)[1..] == a[1..] + b;
      SurvivorsAppend(a[1..], b);
    }
  }

  /**
   * Every kept recognition is forwarded as often as it occurs, and nothing
   * else is: the survivors are exactly the kept part of the input.
   */
  lemma {:induction false} SurvivorsCount(rs: seq<Recognition>, x: Recognition)
    ensures multiset(Survivors(rs))[x] == if Kept(x) then multiset(rs)[x] else 0
    decreases |rs|
  {
    if rs != [] {
      SurvivorsCount(rs[1..], x);
      assert rs == [rs[0]] + rs[1..];
      assert multiset(rs) == multiset{rs[0]} + multiset(rs[1..]);
    }
  }

  /** Every kept element of the input is among the survivors. */
  lemma SurvivorsComplete(rs: seq<Recognition>, i: nat)
    requires i < |rs| && Kept(rs[i])
    ensures rs[i] in Survivors(rs)
  {
    SurvivorsCount(rs, rs[i]);
    assert rs[i] in multiset(rs);
  }

  /** A survivor with its location mapped back to frame coordinates. */
  function Remapped(r: Recognition, remap: Rect -> Rect): Recognition {
    match r.location
    case Some(l) => r.(location := Some(remap(l)))
    case None => r
  }

  /** The survivors, each remapped: what the tracker receives. */
  function RemapAll(s: seq<Recognition>, remap: Rect -> Rect): seq<Recognition> {
    seq(|s|, i requires 0 <= i < |s| => Remapped(s[i], remap))
  }

  /** Centre of the last survivor's (unmapped) box, or `otherwise` when none. */
  function LastCenterOr(s: seq<Recognition>, otherwise: real): real
    requires forall x :: x in s ==> x.location.Some?
  {
    if s == [] then otherwise else CenterY(s[|s| - 1].location.value)
  }

  /** The two accumulators of the recognition loop. */
  datatype LoopState = LoopState(avg: real, mapped: seq<Recognition>)

  /**
   * The recognition loop, one recognition at a time: a kept recognition
   * overwrites `avg` with the centre of its box (read before the box is
   * remapped) and is appended, remapped, to `mapped`.
   */
  function FilterLoop(rs: seq<Recognition>, remap: Rect -> Rect, acc: LoopState): (r: LoopState)
    ensures |acc.mapped| <= |r.mapped| <= |acc.mapped| + |rs|
    ensures r.mapped[..|acc.mapped|] == acc.mapped
    decreases |rs|
  {
    if rs == [] then acc
    else
      var x := rs[0];
      if Kept(x) then
        FilterLoop(rs[1..], remap, LoopState(CenterY(x.location.value), acc.mapped + [Remapped(x, remap)]))
      else
        FilterLoop(rs[1..], remap, acc)
  }

  /**
   * The loop computes the specification: it forwards exactly the remapped
   * survivors, and leaves in `avg` the centre of the last survivor.
   */
  lemma {:induction false} FilterLoopMeetsSpec(rs: seq<Recognition>, remap: Rect -> Rect, acc: LoopState)
    ensures FilterLoop(rs, remap, acc)
         == LoopState(LastCenterOr(Survivors(rs), acc.avg), acc.mapped + RemapAll(Survivors(rs), remap))
    decreases |rs|
  {
    if rs == [] {
      assert acc.mapped + RemapAll([], remap) == acc.mapped;
    } else {
      var x := rs[0];
      var tail := Survivors(rs[1..]);
      if Kept(x) {
        var acc' := LoopState(CenterY(x.location.value), acc.mapped + [Remapped(x, remap)]);
        FilterLoopMeetsSpec(rs[1..], remap, acc');
        assert Survivors(rs) == [x] + tail;
        SurvivorAppended(x, tail, acc, remap);
      } else {
        FilterLoopMeetsSpec(rs[1..], remap, acc);
        assert Survivors(rs) == tail;
      }
    }
  }

  /** Taking one more survivor first moves it into the loop's accumulators. */
  lemma SurvivorAppended(x: Recognition, tail: seq<Recognition>, acc: LoopState, remap: Rect -> Rect)
    requires Kept(x) && forall y :: y in tail ==> y.location.Some?
    ensures LastCenterOr([x] + tail, acc.avg) == LastCenterOr(tail, CenterY(x.location.value))
    ensures acc.mapped + RemapAll([x] + tail, remap) == (acc.mapped + [Remapped(x, remap)]) + RemapAll(tail, remap)
  {
    assert RemapAll([x] + tail, remap) == [Remapped(x, remap)] + RemapAll(tail, remap);
    if tail != [] {
      assert ([x] + tail)[|tail|] == tail[|tail| - 1];
    }
  }

  /** What one completed detection yields: the tracker's input and the metric. */
  datatype Report = Report(forwarded: seq<Recognition>, metric: Metric)

  /** The background loop from its initial state, in terms of the filter. */
  lemma InitialLoopMeetsSpec(rs: seq<Recognition>, remap: Rect -> Rect)
    ensures FilterLoop(rs, remap, LoopState(0.0, []))
         == LoopState(LastCenterOr(Survivors(rs), 0.0), RemapAll(Survivors(rs), remap))
  {
    FilterLoopMeetsSpec(rs, remap, LoopState(0.0, []));
    assert [] + RemapAll(Survivors(rs), remap) == RemapAll(Survivors(rs), remap);
  }

  /**
   * The background step from the model's output to the report: run the loop
   * from `avg = 0.0` and an empty list, then divide `avg` by the number of
   * RAW results. The tracker receives exactly the remapped survivors, and the
   * metric is the last survivor's unmapped centre (0.0 if none) over the raw
   * count, which is 0.0 / 0, NaN, when there are no results at all.
   */
  function Detect(rs: seq<Recognition>, remap: Rect -> Rect): (r: Report)
    ensures r.forwarded == RemapAll(Survivors(rs), remap)
    ensures r.metric == Divide(LastCenterOr(Survivors(rs), 0.0), |rs|)
  {
    InitialLoopMeetsSpec(rs, remap);
    var loop := FilterLoop(rs, remap, LoopState(0.0, []));
    Report(loop.mapped, Divide(loop.avg, |rs|))
  }

  /** Results of which none survives the filter give the metric 0. */
  lemma DetectNoSurvivors(rs: seq<Recognition>, remap: Rect -> Rect)
    requires |rs| > 0 && Survivors(rs) == []
    ensures Detect(rs, remap).metric == Finite(0.0)
  {
    assert LastCenterOr(Survivors(rs), 0.0) == 0.0;
    assert 0.0 / (|rs| as real) == 0.0;
    assert Divide(0.0, |rs|) == Finite(0.0);
  }

  /**
   * Only target-class, confident, located recognitions reach the tracker, and
   * each keeps the identity, label, confidence and class it came with.
   */
  lemma ForwardedAreTargets(rs: seq<Recognition>, remap: Rect -> Rect, i: nat)
    requires i < |Detect(rs, remap).forwarded|
    ensures var f := Detect(rs, remap).forwarded[i];
      && f.location.Some?
      && f.confidence >= MinimumConfidence
      && f.detectedClass == TargetClass
      && exists j :: 0 <= j < |rs| && rs[j] == f.(location := rs[j].location) && Kept(rs[j])
  {
    var s := Survivors(rs);
    assert s[i] in s;
    var j :| 0 <= j < |rs| && rs[j] == s[i];
  }
}
