/** The pack's choice of feeding site. The pack counts the consecutive ticks
    it spends near its site (`feeding`); at the fifth it draws a new site.
    In the pathing variant the pack follows a list of waypoints toward the
    site and pops each one it reaches. A route to a new site comes from a
    shortest-path planner. */
module Targeting {
  import opened PyCommon
  import opened Space
  import Metrics

  /** How many consecutive close ticks make the pack leave for a new site. */
  const FeedingTicks: int := 5

  /** The feeding counter after one tick: one more when the pack is close,
      back to zero otherwise. */
  function NextFeeding(feeding: int, close: bool): (f: int)
    ensures close ==> f == feeding + 1
    ensures !close ==> f == 0
  {
    if close then feeding + 1 else 0
  }

  /** The counter after a run of ticks, oldest first. */
  function FeedingAfter(feeding: int, closes: seq<bool>): int {
    if closes == [] then feeding else NextFeeding(FeedingAfter(feeding, closes[..|closes| - 1]), closes[|closes| - 1])
  }

  /** The number of close ticks at the end of the run. */
  function TrailingClose(closes: seq<bool>): (n: nat)
    ensures n <= |closes|
    ensures forall i :: |closes| - n <= i < |closes| ==> closes[i]
    ensures n < |closes| ==> !closes[|closes| - 1 - n]
  {
    if closes == [] || !closes[|closes| - 1] then 0 else TrailingClose(closes[..|closes| - 1]) + 1
  }

  /** The counter is exactly the number of consecutive close ticks that end
      the run, added to the start value when no far tick intervened. */
  lemma {:induction false} FeedingCountsCloseTicks(feeding: int, closes: seq<bool>)
    ensures FeedingAfter(feeding, closes) ==
      if TrailingClose(closes) == |closes| then feeding + |closes| else TrailingClose(closes)
  {
    if closes != [] {
      var front := closes[..|closes| - 1];
      FeedingCountsCloseTicks(feeding, front);
      if closes[|closes| - 1] {
        assert forall i :: 0 <= i < |front| ==> front[i] == closes[i];
      }
    }
  }

  /** From a fresh counter, a new site is drawn exactly when the last five or
      more ticks were all close. */
  lemma NewSiteAfterFiveCloseTicks(closes: seq<bool>)
    ensures FeedingAfter(0, closes) >= FeedingTicks <==> TrailingClose(closes) >= FeedingTicks
  {
    FeedingCountsCloseTicks(0, closes);
  }

  /** `randint(0, len(sites) - 1)`: ValueError unless at least two sites
      exist; otherwise the drawn index, which never names the last site. */
  function DrawSite(sites: seq<Cell>, draw: int): (r: Result<nat>)
    requires |sites| >= 2 ==> 0 <= draw < |sites| - 1
    ensures r.Err? <==> |sites| < 2
    ensures r.Err? ==> r.error == ValueError
    ensures r.Ok? ==> r.value < |sites| - 1
  {
    if |sites| < 2 then Err(ValueError) else Ok(draw)
  }

  /** `np.average(cells, axis=0).astype(int)`: the centroid truncated toward
      zero. On a grid of nonnegative coordinates it is the cell at or just
      below the exact centroid on each axis. */
  function TruncatedCentroid(cells: seq<Cell>): (c: Cell)
    requires cells != []
    ensures Metrics.SumX(cells) >= 0 ==> c.x * |cells| <= Metrics.SumX(cells) < (c.x + 1) * |cells|
    ensures Metrics.SumY(cells) >= 0 ==> c.y * |cells| <= Metrics.SumY(cells) < (c.y + 1) * |cells|
  {
    var m := Metrics.Mean(cells).value;
    TruncBracket(Metrics.SumX(cells), |cells|, m.x);
    TruncBracket(Metrics.SumY(cells), |cells|, m.y);
    Cell(Trunc(m.x), Trunc(m.y))
  }

  /** The truncated quotient of a nonnegative sum by a positive count
      brackets the sum between two multiples of the count. */
  lemma TruncBracket(sum: int, n: nat, q: real)
    requires n > 0 && q * n as real == sum as real
    ensures sum >= 0 ==> Trunc(q) * n <= sum < (Trunc(q) + 1) * n
  {
    if sum >= 0 {
      var nr := n as real;
      if q < 0.0 {
        ScaleBracket(sum as real, q, nr, q - 1.0, 0.0);
        assert false;
      }
      var t := Trunc(q);
      ScaleBracket(sum as real, q, nr, t as real, (t + 1) as real);
      CastProduct(t, n);
      CastProduct(t + 1, n);
    }
  }

  /** Scaling a bracket `lo <= q < hi` by a positive factor. */
  lemma ScaleBracket(s: real, q: real, c: real, lo: real, hi: real)
    requires s == q * c && c > 0.0 && lo <= q < hi
    ensures lo * c <= s < hi * c
  {
  }

  /** A planner that returns, for every pair it can connect, a route that
      starts at the source and ends at the goal. */
  ghost predicate PlansRoutes(planner: (Cell, Cell) -> Option<seq<Cell>>) {
    forall s, g :: planner(s, g).Some? ==>
      var p := planner(s, g).value;
      |p| >= 1 && p[0] == s && p[|p| - 1] == g
  }

  /** The model state the targeting rules read and write: the candidate
      feeding sites, the current site's index, the waypoints still to visit
      and the feeding counter. */
  class PackTarget {
    const sites: seq<Cell>
    var target: nat
    var path: seq<Cell>
    var feeding: int

    constructor (sites: seq<Cell>, target: nat, path: seq<Cell>)
      ensures this.sites == sites && this.target == target && this.path == path && feeding == 0
    {
      this.sites := sites;
      this.target := target;
      this.path := path;
      feeding := 0;
    }

    /** `compute_updated_target`: `distance` is the pack's average distance
        to the current site. It returns the site for the next tick, which it
        does not store. The current site's index is checked before anything
        else; then an empty pack raises ValueError, since numpy cannot
        subtract a site from an array of no positions. */
    method UpdatedTarget(distance: real, draw: int, packSize: nat) returns (r: Result<nat>)
      requires |sites| >= 2 ==> 0 <= draw < |sites| - 1
      modifies this`feeding
      ensures old(target) >= |sites| ==> r == Err(IndexError) && feeding == old(feeding)
      ensures old(target) < |sites| && packSize == 0 ==> r == Err(ValueError) && feeding == old(feeding)
      ensures old(target) < |sites| && packSize > 0 ==> feeding == NextFeeding(old(feeding), distance <= 10.0)
      ensures old(target) < |sites| && packSize > 0 ==>
        r == if feeding >= FeedingTicks then DrawSite(sites, draw) else Ok(target)
    {
      if target >= |sites| {
        return Err(IndexError);
      }
      if packSize == 0 {
        return Err(ValueError);
      }
      var currentTarget := target;
      var newTarget: nat;
      if distance <= 10.0 {
        feeding := feeding + 1;
        if feeding >= FeedingTicks {
          if |sites| - 1 <= 0 {
            return Err(ValueError);
          }
          newTarget := draw;
        } else {
          newTarget := currentTarget;
        }
      } else {
        feeding := 0;
        newTarget := currentTarget;
      }
      r := Ok(newTarget);
    }

    /** `compute_updated_target_pathing`: `distance` is the pack's average
        distance to the first waypoint. Far from it, the counter resets. Near
        an intermediate waypoint, the pack pops that waypoint. Near the last
        one, the pack feeds, and at the fifth close tick it draws a new site
        and plans a route there from its truncated centroid. The function
        returns the site and the route; only the pop and the counter change
        the model. The first waypoint is read before anything else; then an
        empty pack raises ValueError, as above. */
    method UpdatedTargetPathing(distance: real, draw: int, pack: seq<Cell>,
                                planner: (Cell, Cell) -> Option<seq<Cell>>)
      returns (r: Result<(nat, seq<Cell>)>)
      requires |sites| >= 2 ==> 0 <= draw < |sites| - 1
      modifies this`feeding, this`path
      ensures old(path) == [] ==> r == Err(IndexError) && feeding == old(feeding) && path == old(path)
      ensures old(path) != [] && pack == [] ==>
        r == Err(ValueError) && feeding == old(feeding) && path == old(path)
      ensures old(path) != [] && pack != [] ==> feeding == if distance <= 7.5 && |old(path)| > 1 then old(feeding)
        else NextFeeding(old(feeding), distance <= 7.5)
      ensures old(path) != [] && pack != [] && distance <= 7.5 && |old(path)| > 1 ==>
        path == old(path)[1..] && r == Ok((target, path))
      ensures old(path) != [] && pack != [] && !(distance <= 7.5 && |old(path)| > 1) ==> path == old(path)
      ensures old(path) != [] && pack != [] && (distance > 7.5 || (|old(path)| == 1 && feeding < FeedingTicks)) ==>
        r == Ok((target, path))
      ensures old(path) != [] && pack != [] && distance <= 7.5 && |old(path)| == 1 && feeding >= FeedingTicks ==>
        var site := DrawSite(sites, draw);
        if site.Err? then r == Err(site.error)
        else
          var route := planner(TruncatedCentroid(pack), sites[site.value]);
          r == if route.None? then Err(NoPathError) else Ok((site.value, route.value))
      ensures old(path) != [] ==> path != []
      ensures r.Ok? && PlansRoutes(planner) ==> r.value.1 != []
      ensures r.Ok? && r.value.0 != target && PlansRoutes(planner) ==>
        r.value.0 < |sites| - 1 && r.value.1[|r.value.1| - 1] == sites[r.value.0]
    {
      if path == [] {
        return Err(IndexError);
      }
      if pack == [] {
        return Err(ValueError);
      }
      var feedingSite := target;
      var newTarget: nat;
      var newPath: seq<Cell>;
      if distance <= 7.5 {
        if |path| == 1 {
          feeding := feeding + 1;
          if feeding >= FeedingTicks {
            if |sites| - 1 <= 0 {
              return Err(ValueError);
            }
            newTarget := draw;
            var source := TruncatedCentroid(pack);
            var goal := sites[newTarget];
            var route := planner(source, goal);
            if route.None? {
              return Err(NoPathError);
            }
            newPath := route.value;
          } else {
            newTarget := feedingSite;
            newPath := path;
          }
        } else {
          path := path[1..];
          newPath := path;
          newTarget := feedingSite;
        }
      } else {
        feeding := 0;
        newTarget := feedingSite;
        newPath := path;
      }
      r := Ok((newTarget, newPath));
    }
  }
}
