/** The curation renderer of src/TrackMate_filter.py: for every flagged
    track, a bounding box from the extreme positions of its records, a guard
    against boxes too close to the image origin, and for every frame of the
    track the crop window and the crop-local positions of its spot markers. */
module Curation {
  import opened Common
  import opened Detector

  /** Pixels kept around the bounding box on every side. */
  const Margin: int := 10

  /** df[df['TRACK_ID'] == t]: the track's records, in table order. */
  function RecordsOf(spots: seq<Spot>, t: string): (r: seq<Spot>)
    ensures forall s :: s in r <==> s in spots && s.track == t
    ensures |r| > 0 <==> t in TrackIds(spots)
  {
    if |spots| == 0 then []
    else
      var n := |spots| - 1;
      assert spots == spots[..n] + [spots[n]];
      RecordsOf(spots[..n], t) + if spots[n].track == t then [spots[n]] else []
  }

  /** The records of `recs` on frame `f`, in table order. */
  function RecordsAt(recs: seq<Spot>, f: nat): (r: seq<Spot>)
    ensures forall s :: s in r <==> s in recs && s.frame == f
  {
    if |recs| == 0 then []
    else
      var n := |recs| - 1;
      assert recs == recs[..n] + [recs[n]];
      RecordsAt(recs[..n], f) + if recs[n].frame == f then [recs[n]] else []
  }

  /** Each record of the track is selected as often as the table holds it,
      and no other record is selected. */
  lemma {:induction false} RecordsOfCounts(spots: seq<Spot>, t: string, s: Spot)
    ensures multiset(RecordsOf(spots, t))[s] == if s.track == t then multiset(spots)[s] else 0
  {
    if |spots| > 0 {
      var n := |spots| - 1;
      RecordsOfCounts(spots[..n], t, s);
      MultisetSnoc(spots);
    }
  }

  /** Each record on frame `f` is selected as often as `recs` holds it, and
      no other record is selected. */
  lemma {:induction false} RecordsAtCounts(recs: seq<Spot>, f: nat, s: Spot)
    ensures multiset(RecordsAt(recs, f))[s] == if s.frame == f then multiset(recs)[s] else 0
  {
    if |recs| > 0 {
      var n := |recs| - 1;
      RecordsAtCounts(recs[..n], f, s);
      MultisetSnoc(recs);
    }
  }

  function MinReal(xs: seq<real>): (m: real)
    requires |xs| > 0
    ensures m in xs && forall x :: x in xs ==> m <= x
  {
    if |xs| == 1 then xs[0]
    else
      var r := MinReal(xs[1..]);
      assert forall x :: x in xs ==> x == xs[0] || x in xs[1..];
      if xs[0] <= r then xs[0] else r
  }

  function MaxReal(xs: seq<real>): (m: real)
    requires |xs| > 0
    ensures m in xs && forall x :: x in xs ==> x <= m
  {
    if |xs| == 1 then xs[0]
    else
      var r := MaxReal(xs[1..]);
      assert forall x :: x in xs ==> x == xs[0] || x in xs[1..];
      if xs[0] >= r then xs[0] else r
  }

  function XsOf(recs: seq<Spot>): (xs: seq<real>)
    ensures |xs| == |recs| && forall i :: 0 <= i < |recs| ==> xs[i] == recs[i].x
  {
    seq(|recs|, i requires 0 <= i < |recs| => recs[i].x)
  }

  function YsOf(recs: seq<Spot>): (ys: seq<real>)
    ensures |ys| == |recs| && forall i :: 0 <= i < |recs| ==> ys[i] == recs[i].y
  {
    seq(|recs|, i requires 0 <= i < |recs| => recs[i].y)
  }

  /** Integer extremes of a track's positions, as the renderer truncates them. */
  datatype Box = Box(xMin: int, xMax: int, yMin: int, yMax: int)

  /** np.int(np.min(...)) and np.int(np.max(...)) of POSITION_X and POSITION_Y
      over the track's records. */
  function BoundingBox(recs: seq<Spot>): Box
    requires |recs| > 0
  {
    Box(Trunc(MinReal(XsOf(recs))), Trunc(MaxReal(XsOf(recs))),
        Trunc(MinReal(YsOf(recs))), Trunc(MaxReal(YsOf(recs))))
  }

  /** Every record of the track, truncated to whole pixels, lies inside the box. */
  lemma RecordsInsideBox(recs: seq<Spot>, s: Spot)
    requires s in recs
    ensures BoundingBox(recs).xMin <= Trunc(s.x) <= BoundingBox(recs).xMax
    ensures BoundingBox(recs).yMin <= Trunc(s.y) <= BoundingBox(recs).yMax
  {
    var i :| 0 <= i < |recs| && recs[i] == s;
    assert XsOf(recs)[i] == s.x && YsOf(recs)[i] == s.y;
    assert XsOf(recs)[i] in XsOf(recs) && YsOf(recs)[i] in YsOf(recs);
    TruncMonotone(MinReal(XsOf(recs)), s.x);
    TruncMonotone(s.x, MaxReal(XsOf(recs)));
    TruncMonotone(MinReal(YsOf(recs)), s.y);
    TruncMonotone(s.y, MaxReal(YsOf(recs)));
  }

  /** The truncated extremes are ordered: x_min <= x_max and y_min <= y_max. */
  lemma BoxOrdered(recs: seq<Spot>)
    requires |recs| > 0
    ensures BoundingBox(recs).xMin <= BoundingBox(recs).xMax
    ensures BoundingBox(recs).yMin <= BoundingBox(recs).yMax
  {
    var xs, ys := XsOf(recs), YsOf(recs);
    assert MinReal(xs) <= MaxReal(xs) by {
      assert MaxReal(xs) in xs;
    }
    assert MinReal(ys) <= MaxReal(ys) by {
      assert MaxReal(ys) in ys;
    }
    TruncMonotone(MinReal(xs), MaxReal(xs));
    TruncMonotone(MinReal(ys), MaxReal(ys));
  }

  /** np.min([x_min, x_max, y_min, y_max]) > 10: the only tracks rendered. */
  predicate Renderable(b: Box)
  {
    b.xMin > Margin && b.xMax > Margin && b.yMin > Margin && b.yMax > Margin
  }

  /** The slice [y_min - 10 : y_max + 10, x_min - 10 : x_max + 10] of a frame. */
  datatype Window = Window(rowStart: int, rowStop: int, colStart: int, colStop: int)

  function CropWindow(b: Box): (w: Window)
  {
    Window(b.yMin - Margin, b.yMax + Margin, b.xMin - Margin, b.xMax + Margin)
  }

  /** The markers drawn on one frame: plt.scatter(x - x_min + 10, y - y_min + 10). */
  datatype FramePlot = FramePlot(frame: nat, markerX: seq<int>, markerY: seq<int>)

  datatype TrackPlan = TrackPlan(window: Window, plots: seq<FramePlot>)

  /** Crop-local marker positions of the records on one frame. */
  function Markers(recs: seq<Spot>, b: Box, f: nat): (p: FramePlot)
    ensures p.frame == f && |p.markerX| == |p.markerY| == |RecordsAt(recs, f)|
  {
    var at := RecordsAt(recs, f);
    FramePlot(f,
      seq(|at|, i requires 0 <= i < |at| => Trunc(at[i].x) - b.xMin + Margin),
      seq(|at|, i requires 0 <= i < |at| => Trunc(at[i].y) - b.yMin + Margin))
  }

  /** The requested crop window starts at positive indices, and every marker
      lies at least the margin inside that window: [10, width - 10] across,
      [10, height - 10] down. (numpy may clip the slice at the image's right
      and bottom edges; the image size is not part of this model.) */
  ghost predicate InsideWindow(w: Window, p: FramePlot)
  {
    0 < w.colStart && 0 < w.rowStart &&
    (forall k :: 0 <= k < |p.markerX| ==> Margin <= p.markerX[k] <= (w.colStop - w.colStart) - Margin) &&
    (forall k :: 0 <= k < |p.markerY| ==> Margin <= p.markerY[k] <= (w.rowStop - w.rowStart) - Margin)
  }

  /** Markers drawn from records inside a renderable box fall inside its crop
      window. */
  lemma MarkersInsideWindow(recs: seq<Spot>, b: Box, f: nat)
    requires Renderable(b)
    requires forall s :: s in recs ==> b.xMin <= Trunc(s.x) <= b.xMax && b.yMin <= Trunc(s.y) <= b.yMax
    ensures InsideWindow(CropWindow(b), Markers(recs, b, f))
  {
    var at := RecordsAt(recs, f);
    forall k | 0 <= k < |at|
      ensures at[k] in recs
    {
      assert at[k] in at;
    }
  }

  /** What one pass of the rendering loop produces for track `t`: nothing when
      the guard fails, otherwise the crop window and one plot per distinct
      frame of the track, ascending, each inside the window. */
  ghost predicate PlanFor(spots: seq<Spot>, t: string, plan: Option<TrackPlan>)
    requires t in TrackIds(spots)
  {
    var b := BoundingBox(RecordsOf(spots, t));
    var frames := HistogramOf(FramesOf(spots, t)).frames;
    (plan.Some? <==> Renderable(b)) &&
    (plan.Some? ==>
      plan.value.window == CropWindow(b) &&
      |plan.value.plots| == |frames| &&
      forall k :: 0 <= k < |frames| ==>
        plan.value.plots[k] == Markers(RecordsOf(spots, t), b, frames[k]) &&
        InsideWindow(plan.value.window, plan.value.plots[k]))
  }

  /** One plot per frame of `frames`, in the same order. */
  function PlotsOf(recs: seq<Spot>, b: Box, frames: seq<nat>): (ps: seq<FramePlot>)
    ensures |ps| == |frames|
    ensures forall k :: 0 <= k < |frames| ==> ps[k] == Markers(recs, b, frames[k])
  {
    if |frames| == 0 then []
    else PlotsOf(recs, b, frames[..|frames| - 1]) + [Markers(recs, b, frames[|frames| - 1])]
  }

  /** The entry the rendering loop produces for track `t` (an identifier
      absent from the table, which the loop never meets, yields no entry). */
  function Plan(spots: seq<Spot>, t: string): Option<TrackPlan>
  {
    var recs := RecordsOf(spots, t);
    if |recs| == 0 then None
    else
      var b := BoundingBox(recs);
      if !Renderable(b) then None
      else Some(TrackPlan(CropWindow(b), PlotsOf(recs, b, HistogramOf(FramesOf(spots, t)).frames)))
  }

  /** The rendered entry passes the guard exactly when the box is renderable,
      holds one plot per distinct frame, ascending, and every marker lies
      inside the crop window. */
  lemma PlanMeetsGuard(spots: seq<Spot>, t: string)
    requires t in TrackIds(spots)
    ensures PlanFor(spots, t, Plan(spots, t))
  {
    var recs := RecordsOf(spots, t);
    var b := BoundingBox(recs);
    if Renderable(b) {
      forall s | s in recs
        ensures b.xMin <= Trunc(s.x) <= b.xMax && b.yMin <= Trunc(s.y) <= b.yMax
      {
        RecordsInsideBox(recs, s);
      }
      var frames := HistogramOf(FramesOf(spots, t)).frames;
      forall k | 0 <= k < |frames|
        ensures InsideWindow(CropWindow(b), Markers(recs, b, frames[k]))
      {
        MarkersInsideWindow(recs, b, frames[k]);
      }
    }
  }

  /** The body of the rendering loop for one flagged track. */
  method RenderTrack(spots: seq<Spot>, t: string) returns (plan: Option<TrackPlan>)
    requires t in TrackIds(spots)
    ensures plan == Plan(spots, t)
  {
    var recs := RecordsOf(spots, t);
    var box := BoundingBox(recs);
    if !Renderable(box) {
      return None;
    }
    var window := CropWindow(box);
    var frames := HistogramOf(FramesOf(spots, t)).frames;
    var plots: seq<FramePlot> := [];
    var k := 0;
    while k < |frames|
      invariant 0 <= k <= |frames|
      invariant plots == PlotsOf(recs, box, frames[..k])
    {
      assert frames[..k + 1][..k] == frames[..k];
      assert PlotsOf(recs, box, frames[..k + 1]) == plots + [Markers(recs, box, frames[k])];
      plots := plots + [Markers(recs, box, frames[k])];
      k := k + 1;
    }
    assert frames[..k] == frames;
    plan := Some(TrackPlan(window, plots));
  }

  /** `f` applied to the first `n` elements of `s`, one entry appended at a
      time. */
  function MapPrefix<A, B>(f: A -> B, s: seq<A>, n: nat): (r: seq<B>)
    requires n <= |s|
    ensures |r| == n
  {
    if n == 0 then [] else MapPrefix(f, s, n - 1) + [f(s[n - 1])]
  }

  /** Entry `k` of the prefix is `f` of element `k`. */
  lemma {:induction false} MapPrefixAt<A, B>(f: A -> B, s: seq<A>, n: nat, k: nat)
    requires k < n <= |s|
    ensures MapPrefix(f, s, n)[k] == f(s[k])
  {
    var b: nat := n - 1;
    if k < b {
      MapPrefixAt(f, s, b, k);
    }
  }

  /** The entries of the rendering loop for the first `n` tracks of `split`,
      in order. */
  function PlansOf(spots: seq<Spot>, split: seq<string>, n: nat): (plans: seq<Option<TrackPlan>>)
    requires n <= |split|
    ensures |plans| == n
  {
    MapPrefix(t => Plan(spots, t), split, n)
  }

  /** Entry `k` of the loop's output is the entry for track `split[k]`. */
  lemma PlansOfAt(spots: seq<Spot>, split: seq<string>, n: nat, k: nat)
    requires k < n <= |split|
    ensures PlansOf(spots, split, n)[k] == Plan(spots, split[k])
  {
    MapPrefixAt(t => Plan(spots, t), split, n, k);
  }

  /** One more track appends its entry. */
  lemma PlansOfSnoc(spots: seq<Spot>, split: seq<string>, b: nat)
    requires b < |split|
    ensures PlansOf(spots, split, b + 1) == PlansOf(spots, split, b) + [Plan(spots, split[b])]
  {
  }

  /** The loop over split_track: one entry per flagged track, in order. */
  method RenderCuration(spots: seq<Spot>, split: seq<string>) returns (plans: seq<Option<TrackPlan>>)
    requires forall k :: 0 <= k < |split| ==> split[k] in TrackIds(spots)
    ensures plans == PlansOf(spots, split, |split|)
  {
    plans := [];
    var k := 0;
    while k < |split|
      invariant 0 <= k <= |split|
      invariant plans == PlansOf(spots, split, k)
    {
      var plan := RenderTrack(spots, split[k]);
      PlansOfSnoc(spots, split, k);
      plans := plans + [plan];
      k := k + 1;
    }
  }
}
