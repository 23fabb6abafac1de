/**
 * The burst buffer: two parallel queues, one of metrics (`avgQueue`) and one
 * of frame snapshots (`bitMapQueue`), filled while the shutter is held and
 * drained once they reach the burst size.
 */
module Burst {
  import opened Wrappers
  import opened Metrics
  import opened Selection

  /** A burst is drained once it holds this many frames. */
  const BurstSize: nat := 15

  /** The two queues; `F` is an opaque frame snapshot (a copied bitmap). */
  datatype Buffer<F> = Buffer(metrics: seq<Metric>, frames: seq<F>) {

    /** The queues are index-aligned: the i-th metric belongs to the i-th frame. */
    predicate Aligned() {
      |metrics| == |frames|
    }

    /** `avgQueue.size()`, the size the threshold test reads. */
    function Size(): nat {
      |metrics|
    }
  }

  function Empty<F>(): Buffer<F> {
    Buffer([], [])
  }

  /**
   * The end of a detection: while capturing, the frame's metric and snapshot
   * join the tail of the queues; otherwise both queues are cleared.
   */
  function Offer<F>(b: Buffer<F>, metric: Metric, frame: F, isCapture: bool): (r: Buffer<F>)
    ensures isCapture ==> |r.metrics| == |b.metrics| + 1 && |r.frames| == |b.frames| + 1
    ensures isCapture ==> r.metrics[..|b.metrics|] == b.metrics && r.frames[..|b.frames|] == b.frames
    ensures isCapture ==> r.metrics[|b.metrics|] == metric && r.frames[|b.frames|] == frame
    ensures !isCapture ==> |r.metrics| == 0 && |r.frames| == 0
    ensures b.Aligned() ==> r.Aligned()
  {
    if isCapture then Buffer(b.metrics + [metric], b.frames + [frame]) else Empty()
  }

  /** The queues after the threshold test, and the frame chosen for export, if any. */
  datatype Drained<F> = Drained(buffer: Buffer<F>, saved: Option<F>)

  /**
   * The threshold test: below the burst size nothing happens; at or above it
   * every pair is polled out and the frame of the first maximal metric is
   * chosen for export. Export itself (rotation, file write) is not modelled,
   * and the queues are empty whether or not it would succeed.
   */
  function Drain<F>(b: Buffer<F>): (r: Drained<F>)
    requires b.Aligned()
    ensures b.Size() < BurstSize ==> r.buffer == b && r.saved == None
    ensures b.Size() >= BurstSize ==> |r.buffer.metrics| == 0 && |r.buffer.frames| == 0
    ensures b.Size() >= BurstSize
         ==> exists k: nat :: IsFirstMax(b.metrics, k) && r.saved == Some(b.frames[k])
  {
    if b.Size() < BurstSize then Drained(b, None)
    else
      var k := SelectIndex(b.metrics);
      SelectIndexIsFirstMax(b.metrics, k);
      Drained(Empty(), Some(b.frames[k]))
  }
}
