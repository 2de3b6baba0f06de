/** Pack metrics the tracking study records each tick: the share of wolves
    alive and detected, the true and the estimated pack centroid, the
    tracking error between them, the number of working collars, and the
    candidate cell nearest to a target. */
module Metrics {
  import opened PyCommon
  import opened Space

  /** What the metrics read of a wolf: its life, whether a detector sees it,
      its collar type and its cell. */
  datatype TrackedWolf = TrackedWolf(alive: bool, detected: bool, collarType: int, pos: Cell)

  /** A real-valued position, as `np.average` returns it. */
  datatype Point = Point(x: real, y: real)

  /** The squared Euclidean distance; it orders candidates as the distance
      itself does. */
  function DistSq(a: Cell, b: Cell): (d: int)
    ensures d >= 0
    ensures d == 0 <==> a == b
  {
    (a.x - b.x) * (a.x - b.x) + (a.y - b.y) * (a.y - b.y)
  }

  /** `np.argmin` over `cands[i..]`, as an absolute index: the first of the
      nearest candidates. */
  function ArgMinFrom(cands: seq<Cell>, target: Cell, i: nat): (k: nat)
    requires i < |cands|
    ensures i <= k < |cands|
    ensures forall j :: i <= j < |cands| ==> DistSq(cands[k], target) <= DistSq(cands[j], target)
    ensures forall j :: i <= j < k ==> DistSq(cands[j], target) > DistSq(cands[k], target)
    decreases |cands| - i
  {
    if i == |cands| - 1 then i
    else
      var k := ArgMinFrom(cands, target, i + 1);
      if DistSq(cands[i], target) <= DistSq(cands[k], target) then i else k
  }

  /** `find_toward`: the candidate nearest to `target`, the lowest index among
      equals; `np.argmin` of an empty list raises ValueError. */
  function FindToward(cands: seq<Cell>, target: Cell): (r: Result<Cell>)
    ensures r.Err? <==> cands == []
    ensures r.Ok? ==>
      exists k ::
        && 0 <= k < |cands| && r.value == cands[k]
        && (forall j :: 0 <= j < |cands| ==> DistSq(cands[k], target) <= DistSq(cands[j], target))
        && (forall j :: 0 <= j < k ==> DistSq(cands[j], target) > DistSq(cands[k], target))
  {
    if cands == [] then Err(ValueError) else Ok(cands[ArgMinFrom(cands, target, 0)])
  }

  /** A candidate on the target itself is always the one chosen when it is
      the first such candidate. */
  lemma FindTowardExact(cands: seq<Cell>, target: Cell, k: nat)
    requires k < |cands| && cands[k] == target
    requires forall j :: 0 <= j < k ==> cands[j] != target
    ensures FindToward(cands, target) == Ok(target)
  {
    var r := FindToward(cands, target);
    var k' :| 0 <= k' < |cands| && r.value == cands[k']
      && (forall j :: 0 <= j < |cands| ==> DistSq(cands[k'], target) <= DistSq(cands[j], target))
      && (forall j :: 0 <= j < k' ==> DistSq(cands[j], target) > DistSq(cands[k'], target));
    assert DistSq(cands[k'], target) <= DistSq(cands[k], target);
  }

  /** Wolves alive and detected. */
  function CountAliveDetected(ws: seq<TrackedWolf>): (c: nat)
    ensures c <= |ws|
  {
    if ws == [] then 0
    else CountAliveDetected(ws[..|ws| - 1]) + (if ws[|ws| - 1].alive && ws[|ws| - 1].detected then 1 else 0)
  }

  /** `compute_pack_health` of the tracking study: the number of wolves alive
      and detected over the model's `num_agents`. */
  method PackHealth(ws: seq<TrackedWolf>, numAgents: nat) returns (r: Result<real>)
    ensures numAgents == 0 <==> r.Err?
    ensures r.Err? ==> r.error == ZeroDivisionError
    ensures r.Ok? ==> r.value == CountAliveDetected(ws) as real / numAgents as real
    ensures r.Ok? && numAgents >= |ws| ==> 0.0 <= r.value <= 1.0
  {
    var aliveCnt := 0;
    for i := 0 to |ws|
      invariant aliveCnt == CountAliveDetected(ws[..i])
    {
      assert ws[..i + 1][..i] == ws[..i];
      if ws[i].alive && ws[i].detected {
        aliveCnt := aliveCnt + 1;
      }
    }
    assert ws[..|ws|] == ws;
    if numAgents == 0 {
      return Err(ZeroDivisionError);
    }
    if numAgents >= |ws| {
      QuotientBounds(aliveCnt as real, numAgents as real, 1.0);
    }
    r := Ok(aliveCnt as real / numAgents as real);
  }

  /** How many wolves pass `keep`. */
  function Count(ws: seq<TrackedWolf>, keep: TrackedWolf -> bool): nat {
    if ws == [] then 0 else Count(ws[..|ws| - 1], keep) + (if keep(ws[|ws| - 1]) then 1 else 0)
  }

  /** The x-coordinates of the wolves that pass `keep`, summed. */
  function KeptSumX(ws: seq<TrackedWolf>, keep: TrackedWolf -> bool): int {
    if ws == [] then 0 else KeptSumX(ws[..|ws| - 1], keep) + (if keep(ws[|ws| - 1]) then ws[|ws| - 1].pos.x else 0)
  }

  /** The y-coordinates of the wolves that pass `keep`, summed. */
  function KeptSumY(ws: seq<TrackedWolf>, keep: TrackedWolf -> bool): int {
    if ws == [] then 0 else KeptSumY(ws[..|ws| - 1], keep) + (if keep(ws[|ws| - 1]) then ws[|ws| - 1].pos.y else 0)
  }

  /** The cells of the wolves that pass `keep`, in pack order: one cell per
      kept wolf, each of them a kept wolf's cell (`PositionsInOrder` says
      which). */
  function Positions(ws: seq<TrackedWolf>, keep: TrackedWolf -> bool): (r: seq<Cell>)
    ensures |r| == Count(ws, keep) <= |ws|
    ensures forall c :: c in r ==> exists i :: 0 <= i < |ws| && keep(ws[i]) && ws[i].pos == c
  {
    if ws == [] then []
    else
      var last := ws[|ws| - 1];
      var pre := ws[..|ws| - 1];
      var front := Positions(pre, keep);
      assert forall c :: c in front ==> exists i :: 0 <= i < |ws| && keep(ws[i]) && ws[i].pos == c by {
        forall c | c in front ensures exists i :: 0 <= i < |ws| && keep(ws[i]) && ws[i].pos == c {
          var i :| 0 <= i < |ws| - 1 && keep(pre[i]) && pre[i].pos == c;
          assert ws[i] == pre[i];
        }
      }
      front + (if keep(last) then [last.pos] else [])
  }

  /** The kept wolf `i` is listed at the position that counts the kept
      wolves before it: the cells follow pack order. */
  lemma {:induction false} PositionsInOrder(ws: seq<TrackedWolf>, keep: TrackedWolf -> bool, i: nat)
    requires i < |ws| && keep(ws[i])
    ensures Count(ws[..i], keep) < |Positions(ws, keep)|
    ensures Positions(ws, keep)[Count(ws[..i], keep)] == ws[i].pos
  {
    var pre := ws[..|ws| - 1];
    if i < |ws| - 1 {
      assert pre[..i] == ws[..i];
      assert pre[i] == ws[i];
      PositionsInOrder(pre, keep, i);
    } else {
      assert ws[..i] == pre;
    }
  }

  /** The listed cells sum to the kept wolves' coordinates. */
  lemma {:induction false} PositionsSums(ws: seq<TrackedWolf>, keep: TrackedWolf -> bool)
    ensures SumX(Positions(ws, keep)) == KeptSumX(ws, keep)
    ensures SumY(Positions(ws, keep)) == KeptSumY(ws, keep)
  {
    if ws != [] {
      var pre := ws[..|ws| - 1];
      var front := Positions(pre, keep);
      PositionsSums(pre, keep);
      if keep(ws[|ws| - 1]) {
        var r := front + [ws[|ws| - 1].pos];
        assert r[..|r| - 1] == front;
      } else {
        assert Positions(ws, keep) == front + [];
        assert front + [] == front;
      }
    }
  }

  predicate IsAlive(w: TrackedWolf) { w.alive }

  predicate IsSeen(w: TrackedWolf) { w.alive && w.detected }

  predicate HasCollar(w: TrackedWolf) { w.alive && (w.collarType == 1 || w.collarType == 2) }

  function SumX(cs: seq<Cell>): int {
    if cs == [] then 0 else SumX(cs[..|cs| - 1]) + cs[|cs| - 1].x
  }

  function SumY(cs: seq<Cell>): int {
    if cs == [] then 0 else SumY(cs[..|cs| - 1]) + cs[|cs| - 1].y
  }

  /** `np.average(cells, axis=0)`; the average of nothing is NaN, here
      `None`. */
  function Mean(cs: seq<Cell>): (r: Option<Point>)
    ensures r.None? <==> cs == []
    ensures r.Some? ==> r.value.x * |cs| as real == SumX(cs) as real && r.value.y * |cs| as real == SumY(cs) as real
  {
    if cs == [] then None else Some(Point(SumX(cs) as real / |cs| as real, SumY(cs) as real / |cs| as real))
  }

  /** The kept wolves' coordinate sums over their number. */
  function Centroid(ws: seq<TrackedWolf>, keep: TrackedWolf -> bool): Point
    requires Count(ws, keep) > 0
  {
    var n := Count(ws, keep) as real;
    Point(KeptSumX(ws, keep) as real / n, KeptSumY(ws, keep) as real / n)
  }

  /** `np.average` of the kept wolves' cells: the coordinate sums of the
      kept wolves over their number. */
  function KeptCentroid(ws: seq<TrackedWolf>, keep: TrackedWolf -> bool): (r: Option<Point>)
    ensures r.None? <==> Count(ws, keep) == 0
    ensures r.Some? ==> r.value == Centroid(ws, keep)
  {
    var cs := Positions(ws, keep);
    PositionsSums(ws, keep);
    Mean(cs)
  }

  /** `compute_pack_position`: the centroid of the living wolves, `None` when
      none is alive. */
  function PackPosition(ws: seq<TrackedWolf>): (r: Option<Point>)
    ensures r.None? <==> forall i :: 0 <= i < |ws| ==> !ws[i].alive
    ensures r.None? <==> Count(ws, IsAlive) == 0
    ensures r.Some? ==> r.value == Centroid(ws, IsAlive)
  {
    NoneKept(ws, IsAlive);
    if Count(ws, IsAlive) > 0 then KeptCentroid(ws, IsAlive) else None
  }

  /** `compute_est_pack_position`: the centroid of the wolves alive and
      detected, or the model's last tracked position when there are none. */
  function EstPackPosition(ws: seq<TrackedWolf>, tracked: Point): (r: Point)
    ensures (forall i :: 0 <= i < |ws| ==> !IsSeen(ws[i])) ==> r == tracked
    ensures Count(ws, IsSeen) > 0 ==> r == Centroid(ws, IsSeen)
  {
    NoneKept(ws, IsSeen);
    if Count(ws, IsSeen) < 1 then tracked else KeptCentroid(ws, IsSeen).value
  }

  /** Nothing kept exactly when no wolf passes `keep`. */
  lemma {:induction false} NoneKept(ws: seq<TrackedWolf>, keep: TrackedWolf -> bool)
    ensures Count(ws, keep) == 0 <==> forall i :: 0 <= i < |ws| ==> !keep(ws[i])
  {
    if ws != [] {
      NoneKept(ws[..|ws| - 1], keep);
      assert forall i :: 0 <= i < |ws| - 1 ==> ws[..|ws| - 1][i] == ws[i];
    }
  }

  /** Two filters that agree on every wolf keep the same cells. */
  lemma {:induction false} PositionsAgree(ws: seq<TrackedWolf>, k1: TrackedWolf -> bool, k2: TrackedWolf -> bool)
    requires forall i :: 0 <= i < |ws| ==> k1(ws[i]) == k2(ws[i])
    ensures Positions(ws, k1) == Positions(ws, k2)
  {
    if ws != [] {
      assert forall i :: 0 <= i < |ws| - 1 ==> ws[..|ws| - 1][i] == ws[i];
      PositionsAgree(ws[..|ws| - 1], k1, k2);
    }
  }

  /** The squared Euclidean distance between two points. */
  function PointDistSq(a: Point, b: Point): (d: real)
    ensures d >= 0.0
    ensures a == b ==> d == 0.0
  {
    var dx := a.x - b.x;
    var dy := a.y - b.y;
    dx * dx + dy * dy
  }

  /** `compute_track_error` as a squared distance (`None` where the true
      centroid is NaN): how far the estimated centroid lies from the true
      one. */
  function TrackErrorSq(ws: seq<TrackedWolf>, tracked: Point): (r: Option<real>)
    ensures r.None? <==> forall i :: 0 <= i < |ws| ==> !ws[i].alive
    ensures r.Some? ==> r.value >= 0.0
    ensures r.Some? ==> r.value == PointDistSq(PackPosition(ws).value, EstPackPosition(ws, tracked))
  {
    var t := PackPosition(ws);
    if t.None? then None
    else Some(PointDistSq(t.value, EstPackPosition(ws, tracked)))
  }

  /** With one wolf alive and every living wolf detected, the estimate is the
      true centroid: the tracking error is zero. */
  lemma TrackErrorZeroWhenAllSeen(ws: seq<TrackedWolf>, tracked: Point)
    requires exists i :: 0 <= i < |ws| && ws[i].alive
    requires forall i :: 0 <= i < |ws| && ws[i].alive ==> ws[i].detected
    ensures TrackErrorSq(ws, tracked) == Some(0.0)
  {
    assert forall i :: 0 <= i < |ws| ==> IsAlive(ws[i]) == IsSeen(ws[i]);
    PositionsAgree(ws, IsAlive, IsSeen);
    NoneKept(ws, IsAlive);
    assert Count(ws, IsAlive) == Count(ws, IsSeen);
    assert KeptCentroid(ws, IsAlive) == KeptCentroid(ws, IsSeen);
  }

  /** `compute_number_of_collars`: the living wolves with a collar of type 1
      or 2. */
  function NumberOfCollars(ws: seq<TrackedWolf>): (n: nat)
    ensures n == Count(ws, HasCollar)
    ensures n <= Count(ws, IsAlive)
  {
    CollaredAmongAlive(ws);
    |Positions(ws, HasCollar)|
  }

  /** Every collared wolf counted is alive, so the count never exceeds the
      living. */
  lemma {:induction false} CollaredAmongAlive(ws: seq<TrackedWolf>)
    ensures Count(ws, HasCollar) <= Count(ws, IsAlive)
  {
    if ws != [] {
      CollaredAmongAlive(ws[..|ws| - 1]);
    }
  }
}
