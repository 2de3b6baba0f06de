/** The weighted choice of the next cell: every land type found around the
    wolf gets a fixed weight, the weights are zero-padded to eight, and a
    uniform draw picks the neighbour whose cumulative interval, taken in the
    direction order north, south, west, east, north-west, north-east,
    south-west, south-east, holds it. */
module NeighborChoice {
  import opened PyCommon
  import opened Space
  import opened LandUse

  /** The weight of a land type; `Clouds` takes its own uniform draw, and a
      name outside the table has no weight. */
  function TableWeight(t: LandType, cloud: real): (w: Option<real>)
    ensures w.None? <==> t.Other?
    ensures w.Some? && 0.0 <= cloud <= 1.0 ==> 0.0 <= w.value <= 1.0
  {
    match t
    case ElevationOutOfBound => Some(0.0)
    case Bamboo => Some(0.8)
    case Coniferous => Some(1.0)
    case Broadleaf => Some(1.0)
    case Mixed => Some(1.0)
    case Lichen => Some(0.8)
    case Deciduous => Some(1.0)
    case Shrublands => Some(0.8)
    case Clouds => Some(cloud)
    case Farmland => Some(0.0)
    case OutsideFNNR => Some(0.0)
    case Household => Some(0.0)
    case Farm => Some(0.05)
    case PES => Some(0.2)
    case Forest => Some(0.3)
    case Other(_) => None
  }

  /** The weight list built from `veg`. A name outside the table leaves the
      local `weight` as the previous iteration set it, so it repeats the
      previous weight; first in the list, it reads an unbound local. Entry
      `k` uses the draw `cloud(k)` when it is `Clouds`. */
  function Weights(veg: seq<LandType>, cloud: nat -> real): (r: Result<seq<real>>)
    ensures r.Err? <==> veg != [] && veg[0].Other?
    ensures r.Err? ==> r.error == UnboundLocalError
    ensures r.Ok? ==> |r.value| == |veg|
    ensures r.Ok? ==> forall k :: 0 <= k < |veg| && !veg[k].Other? ==>
      r.value[k] == TableWeight(veg[k], cloud(k)).value
    ensures r.Ok? ==> forall k :: 0 < k < |veg| && veg[k].Other? ==> r.value[k] == r.value[k - 1]
  {
    if veg == [] then Ok([])
    else
      var n := |veg| - 1;
      var front := Weights(veg[..n], cloud);
      if front.Err? then
        assert veg[..n][0] == veg[0];
        front
      else if !veg[n].Other? then Ok(front.value + [TableWeight(veg[n], cloud(n)).value])
      else if n == 0 then Err(UnboundLocalError)
      else Ok(front.value + [front.value[n - 1]])
  }

  /** With every cloud draw in `0..1`, every weight lies in `0..1`. */
  lemma {:induction false} WeightsBounded(veg: seq<LandType>, cloud: nat -> real)
    requires forall k :: 0.0 <= cloud(k) <= 1.0
    ensures Weights(veg, cloud).Ok? ==>
      forall k :: 0 <= k < |veg| ==> 0.0 <= Weights(veg, cloud).value[k] <= 1.0
  {
    if veg != [] {
      var n := |veg| - 1;
      WeightsBounded(veg[..n], cloud);
      if n > 0 {
        assert veg[..n][0] == veg[0];
      }
    }
  }

  /** The loop of `neighbor_choice` that turns land types into weights. */
  method ChoiceWeights(veg: seq<LandType>, cloud: nat -> real) returns (r: Result<seq<real>>)
    ensures r == Weights(veg, cloud)
  {
    var choices: seq<real> := [];
    var weight: Option<real> := None;  // the local `weight`, unbound at first
    for k := 0 to |veg|
      invariant Weights(veg[..k], cloud).Ok?
      invariant choices == Weights(veg[..k], cloud).value
      invariant weight.None? <==> k == 0
      invariant k > 0 ==> weight == Some(choices[k - 1])
    {
      assert veg[..k + 1][..k] == veg[..k];
      var w := TableWeight(veg[k], cloud(k));
      if w.Some? {
        weight := w;
      }
      if weight.None? {
        assert veg[..k + 1][0] == veg[0];
        return Err(UnboundLocalError);
      }
      choices := choices + [weight.value];
    }
    assert veg[..|veg|] == veg;
    r := Ok(choices);
  }

  /** The order in which the eight directions get their intervals. */
  const DirectionOrder: seq<nat> := [1, 6, 3, 4, 0, 2, 5, 7]

  /** The eight directions name the eight neighbour positions. */
  lemma DirectionsInRange()
    ensures |DirectionOrder| == 8
    ensures forall l :: 0 <= l < 8 ==> DirectionOrder[l] < 8
  {
  }

  function Zeros(n: nat): (r: seq<real>)
    ensures |r| == n && forall k :: 0 <= k < n ==> r[k] == 0.0
  {
    seq(n, _ => 0.0)
  }

  /** `sum(c)`. */
  function Sum(c: seq<real>): real {
    if c == [] then 0.0 else Sum(c[..|c| - 1]) + c[|c| - 1]
  }

  /** The weight list after the zero padding: eight entries at least, the
      given ones first. */
  function Padded(c: seq<real>): (p: seq<real>)
    ensures |p| == if |c| < 8 then 8 else |c|
    ensures p[..|c|] == c
    ensures forall k :: |c| <= k < |p| ==> p[k] == 0.0
  {
    if |c| < 8 then c + Zeros(8 - |c|) else c
  }

  /** The running share `newsum` after the first `j` directions. */
  function Cumulative(p: seq<real>, total: real, j: nat): real
    requires |p| >= 8 && j <= 8 && total != 0.0
  {
    if j == 0 then 0.0 else Cumulative(p, total, j - 1) + p[DirectionOrder[j - 1]] / total
  }

  /** Just under one counts as one, for the last direction only. */
  function Snap(x: real): real {
    if x != 1.0 && x > 0.999 then 1.0 else x
  }

  /** The upper end of the `j`-th interval. */
  function Upper(p: seq<real>, total: real, j: nat): real
    requires |p| >= 8 && j < 8 && total != 0.0
  {
    if j == 7 then Snap(Cumulative(p, total, 8)) else Cumulative(p, total, j + 1)
  }

  /** `oldsum < chance < newsum` for the `j`-th direction. */
  predicate InInterval(p: seq<real>, total: real, j: nat, chance: real)
    requires |p| >= 8 && j < 8 && total != 0.0
  {
    Cumulative(p, total, j) < chance < Upper(p, total, j)
  }

  /** The outcomes `neighbor_choice` allows once the weights are known:
      nothing for an empty or all-zero list; ZeroDivisionError when the
      padded weights sum to zero; IndexError when the draw falls in the
      interval of a direction past the end of `neighbors`; the fallback
      position (the current one, else the saved one) when the final
      running share does not truncate to one; UnboundLocalError when no
      interval holds the draw; otherwise the neighbour of an interval that
      holds it. */
  predicate IsSelection(choices: seq<real>, neighbors: seq<Cell>, chance: real,
                        current: Option<Cell>, saved: Option<Cell>, r: Result<Option<Cell>>)
  {
    if choices == [] || choices == Zeros(8) then r == Ok(None)
    else
      var p := Padded(choices);
      var total := Sum(p);
      if total == 0.0 then r == Err(ZeroDivisionError)
      else if exists j :: 0 <= j < 8 && InInterval(p, total, j, chance) && DirectionOrder[j] >= |neighbors| then
        r == Err(IndexError)
      else if Trunc(Upper(p, total, 7)) != 1 then r == Ok(if current.Some? then current else saved)
      else if forall j :: 0 <= j < 8 ==> !InInterval(p, total, j, chance) then r == Err(UnboundLocalError)
      else
        && r.Ok? && r.value.Some?
        && exists j :: 0 <= j < 8 && InInterval(p, total, j, chance) && DirectionOrder[j] < |neighbors|
             && r.value.value == neighbors[DirectionOrder[j]]
  }

  /** The padding and the interval walk of `neighbor_choice`. */
  method SelectDirection(choices: seq<real>, neighbors: seq<Cell>, chance: real,
                         current: Option<Cell>, saved: Option<Cell>) returns (r: Result<Option<Cell>>)
    ensures IsSelection(choices, neighbors, chance, current, saved, r)
  {
    if choices == [] || choices == Zeros(8) {
      return Ok(None);
    }
    var choicelist := PadChoices(choices);
    var total := Sum(choicelist);
    if total == 0.0 {
      return Err(ZeroDivisionError);
    }
    var walk, newsum := WalkIntervals(choicelist, total, neighbors, chance);
    if walk.Err? {
      return walk;
    }
    newsum := Snap(newsum);
    if Trunc(newsum) != 1 {
      var direction := if current.Some? then current else saved;
      return Ok(direction);
    }
    if walk.value.None? {
      return Err(UnboundLocalError);
    }
    r := walk;
  }

  /** The `while len(choicelist) < 8` loop: zeros appended up to eight
      entries. */
  method PadChoices(choices: seq<real>) returns (choicelist: seq<real>)
    ensures choicelist == Padded(choices)
  {
    choicelist := choices;
    while |choicelist| < 8
      invariant |choices| <= |choicelist| <= (if |choices| < 8 then 8 else |choices|)
      invariant choicelist == choices + Zeros(|choicelist| - |choices|)
      decreases 8 - |choicelist|
    {
      choicelist := choicelist + [0.0];
    }
  }

  /** The walk over the eight direction intervals: the neighbour of the last
      interval holding `chance`, none when no interval holds it, and
      IndexError when an interval holding it names a missing neighbour.
      `newsum` is the running share after the eighth direction. */
  method WalkIntervals(p: seq<real>, total: real, neighbors: seq<Cell>, chance: real)
    returns (r: Result<Option<Cell>>, newsum: real)
    requires |p| >= 8 && total != 0.0
    ensures r.Ok? ==> newsum == Cumulative(p, total, 8)
    ensures r.Err? <==>
      exists j :: 0 <= j < 8 && InInterval(p, total, j, chance) && DirectionOrder[j] >= |neighbors|
    ensures r.Err? ==> r.error == IndexError
    ensures r.Ok? && r.value.None? ==> forall j :: 0 <= j < 8 ==> !InInterval(p, total, j, chance)
    ensures r.Ok? && r.value.Some? ==>
      exists j :: 0 <= j < 8 && InInterval(p, total, j, chance)
        && DirectionOrder[j] < |neighbors| && r.value.value == neighbors[DirectionOrder[j]]
  {
    var oldsum := 0.0;
    newsum := 0.0;
    var direction: Option<Cell> := None;  // the local `direction`, unbound at first
    for j := 0 to 8
      invariant newsum == Cumulative(p, total, j)
      invariant forall l :: 0 <= l < j && InInterval(p, total, l, chance) ==> DirectionOrder[l] < |neighbors|
      invariant direction.Some? ==>
        exists l :: 0 <= l < j && InInterval(p, total, l, chance)
          && DirectionOrder[l] < |neighbors| && direction.value == neighbors[DirectionOrder[l]]
      invariant direction.None? ==> forall l :: 0 <= l < j ==> !InInterval(p, total, l, chance)
    {
      oldsum := newsum;
      newsum := newsum + p[DirectionOrder[j]] / total;
      var upper := if j == 7 then Snap(newsum) else newsum;
      assert newsum == Cumulative(p, total, j + 1);
      assert InInterval(p, total, j, chance) <==> oldsum < chance < upper;
      if oldsum < chance < upper {
        if DirectionOrder[j] >= |neighbors| {
          return Err(IndexError), newsum;
        }
        direction := Some(neighbors[DirectionOrder[j]]);
      }
    }
    r := Ok(direction);
  }

  /** `neighbor_choice`: the land types around the wolf, their weights, then
      the draw. */
  method Choose(neighbors: seq<Cell>, table: LandTable, cloud: nat -> real, chance: real,
                current: Option<Cell>, saved: Option<Cell>) returns (r: Result<Option<Cell>>)
    ensures var w := Weights(ResolvedAll(Grouped(neighbors, table)), cloud);
      && (w.Err? ==> r == Err(UnboundLocalError))
      && (w.Ok? ==> IsSelection(w.value, neighbors, chance, current, saved, r))
  {
    var veg := CheckVegetation(neighbors, table);
    var choices := ChoiceWeights(veg, cloud);
    if choices.Err? {
      return Err(choices.error);
    }
    r := SelectDirection(choices.value, neighbors, chance, current, saved);
  }

  /*
   * The weighted choice as the source's comments describe it, proved of the
   * walk for weights from the table (none negative, at most eight).
   */

  predicate NonNegative(c: seq<real>) {
    forall k :: 0 <= k < |c| ==> c[k] >= 0.0
  }

  lemma {:induction false} SumNonNegative(c: seq<real>)
    requires NonNegative(c)
    ensures Sum(c) >= 0.0
  {
    if c != [] {
      SumNonNegative(c[..|c| - 1]);
    }
  }

  /** With no negative weight the running share never falls. */
  lemma {:induction false} CumulativeMonotone(p: seq<real>, total: real, j: nat, l: nat)
    requires |p| >= 8 && NonNegative(p) && total > 0.0
    requires j <= l <= 8
    ensures Cumulative(p, total, j) <= Cumulative(p, total, l)
    decreases l - j
  {
    if j < l {
      CumulativeMonotone(p, total, j, l - 1);
      assert p[DirectionOrder[l - 1]] / total >= 0.0;
    }
  }

  /** The intervals do not overlap, so at most one direction holds the draw. */
  lemma IntervalsDisjoint(p: seq<real>, total: real, chance: real, j: nat, l: nat)
    requires |p| >= 8 && NonNegative(p) && total > 0.0
    requires j < l < 8
    ensures !(InInterval(p, total, j, chance) && InInterval(p, total, l, chance))
  {
    CumulativeMonotone(p, total, j + 1, l);
  }

  /** Eight weights summed in any fixed order give `sum`. */
  lemma SumOfEight(p: seq<real>)
    requires |p| == 8
    ensures Sum(p) == p[0] + p[1] + p[2] + p[3] + p[4] + p[5] + p[6] + p[7]
  {
    assert p[..7][..6][..5][..4][..3][..2][..1][..0] == [];
    assert Sum(p[..1]) == p[0];
    assert Sum(p[..2]) == p[0] + p[1] by { assert p[..2][..1] == p[..1]; }
    assert Sum(p[..3]) == Sum(p[..2]) + p[2] by { assert p[..3][..2] == p[..2]; }
    assert Sum(p[..4]) == Sum(p[..3]) + p[3] by { assert p[..4][..3] == p[..3]; }
    assert Sum(p[..5]) == Sum(p[..4]) + p[4] by { assert p[..5][..4] == p[..4]; }
    assert Sum(p[..6]) == Sum(p[..5]) + p[5] by { assert p[..6][..5] == p[..5]; }
    assert Sum(p[..7]) == Sum(p[..6]) + p[6] by { assert p[..7][..6] == p[..6]; }
    assert Sum(p) == Sum(p[..7]) + p[7] by { assert p[..7] == p[..|p| - 1]; }
  }

  /** The weights of the first `j` directions, in interval order. */
  function OrderedSum(p: seq<real>, j: nat): real
    requires |p| >= 8 && j <= 8
  {
    if j == 0 then 0.0 else OrderedSum(p, j - 1) + p[DirectionOrder[j - 1]]
  }

  lemma DivAdd(a: real, b: real, t: real)
    requires t != 0.0
    ensures a / t + b / t == (a + b) / t
  {
  }

  lemma DivSelf(t: real)
    requires t != 0.0
    ensures t / t == 1.0
  {
  }

  /** The running share is the running weight over the total. */
  lemma {:induction false} CumulativeIsShare(p: seq<real>, total: real, j: nat)
    requires |p| >= 8 && j <= 8 && total != 0.0
    ensures Cumulative(p, total, j) == OrderedSum(p, j) / total
  {
    if j > 0 {
      CumulativeIsShare(p, total, j - 1);
      DivAdd(OrderedSum(p, j - 1), p[DirectionOrder[j - 1]], total);
    }
  }

  /** For at most eight weights the eight intervals exactly fill `0..1`: the
      final share is one, so the fallback position is never used. */
  lemma CumulativeIsOne(choices: seq<real>)
    requires |choices| <= 8
    requires Sum(Padded(choices)) != 0.0
    ensures Cumulative(Padded(choices), Sum(Padded(choices)), 8) == 1.0
    ensures Upper(Padded(choices), Sum(Padded(choices)), 7) == 1.0
    ensures Trunc(Upper(Padded(choices), Sum(Padded(choices)), 7)) == 1
  {
    var p := Padded(choices);
    var t := Sum(p);
    SumOfEight(p);
    CumulativeIsShare(p, t, 8);
    assert DirectionOrder[0] == 1 && DirectionOrder[1] == 6 && DirectionOrder[2] == 3 && DirectionOrder[3] == 4;
    assert DirectionOrder[4] == 0 && DirectionOrder[5] == 2 && DirectionOrder[6] == 5 && DirectionOrder[7] == 7;
    assert OrderedSum(p, 1) == p[1];
    assert OrderedSum(p, 2) == p[1] + p[6];
    assert OrderedSum(p, 3) == p[1] + p[6] + p[3];
    assert OrderedSum(p, 4) == p[1] + p[6] + p[3] + p[4];
    assert OrderedSum(p, 5) == p[1] + p[6] + p[3] + p[4] + p[0];
    assert OrderedSum(p, 6) == p[1] + p[6] + p[3] + p[4] + p[0] + p[2];
    assert OrderedSum(p, 7) == p[1] + p[6] + p[3] + p[4] + p[0] + p[2] + p[5];
    assert OrderedSum(p, 8) == p[1] + p[6] + p[3] + p[4] + p[0] + p[2] + p[5] + p[7];
    assert OrderedSum(p, 8) == t;
    DivSelf(t);
  }

  /** A direction whose interval holds the draw has a positive weight: the
      zero padding and the zero-weight land types are never chosen. */
  lemma ChosenHasWeight(choices: seq<real>, chance: real, j: nat)
    requires |choices| <= 8 && NonNegative(choices)
    requires Sum(Padded(choices)) != 0.0
    requires j < 8 && InInterval(Padded(choices), Sum(Padded(choices)), j, chance)
    ensures Padded(choices)[DirectionOrder[j]] > 0.0
  {
    var p := Padded(choices);
    var t := Sum(p);
    assert NonNegative(p) by {
      forall k | 0 <= k < |p| ensures p[k] >= 0.0 {
        if k < |choices| {
          assert p[k] == p[..|choices|][k];
        }
      }
    }
    SumNonNegative(p);
    CumulativeIsOne(choices);
    assert Upper(p, t, j) == Cumulative(p, t, j + 1);
  }

  /** Every draw strictly inside `0..1` that avoids the interval ends falls
      in some interval. */
  lemma {:induction false} SomeIntervalHolds(p: seq<real>, total: real, chance: real, l: nat)
    requires |p| >= 8 && total != 0.0
    requires 1 <= l <= 8
    requires 0.0 < chance < Cumulative(p, total, l)
    requires forall j :: 0 <= j <= 8 ==> chance != Cumulative(p, total, j)
    ensures exists j :: 0 <= j < l && Cumulative(p, total, j) < chance < Cumulative(p, total, j + 1)
  {
    if Cumulative(p, total, l - 1) < chance {
    } else {
      assert l - 1 != 0;
      SomeIntervalHolds(p, total, chance, l - 1);
    }
  }

  /** The weighted choice is well defined: for at most eight weights from the
      table, not all zero, eight neighbours and a draw strictly inside `0..1`
      that avoids the interval ends, `neighbor_choice` returns exactly one
      neighbour, and it is one of positive weight. */
  lemma ChoiceIsWeighted(choices: seq<real>, neighbors: seq<Cell>, chance: real,
                         current: Option<Cell>, saved: Option<Cell>, r: Result<Option<Cell>>)
    requires 1 <= |choices| <= 8 && NonNegative(choices)
    requires Sum(Padded(choices)) != 0.0
    requires |neighbors| >= 8
    requires 0.0 < chance < 1.0
    requires forall j :: 0 <= j <= 8 ==> chance != Cumulative(Padded(choices), Sum(Padded(choices)), j)
    requires IsSelection(choices, neighbors, chance, current, saved, r)
    ensures exists j :: 0 <= j < 8 && Padded(choices)[DirectionOrder[j]] > 0.0 && r == Ok(Some(neighbors[DirectionOrder[j]]))
  {
    var p := Padded(choices);
    assert choices != Zeros(8) by {
      if choices == Zeros(8) {
        SumOfEight(p);
      }
    }
    assert NonNegative(p) by {
      forall i | 0 <= i < |p| ensures p[i] >= 0.0 {
        if i < |choices| {
          assert p[i] == p[..|choices|][i];
        }
      }
    }
    var t := Sum(p);
    SumNonNegative(p);
    CumulativeIsOne(choices);
    SomeIntervalHolds(p, t, chance, 8);
    var j :| 0 <= j < 8 && Cumulative(p, t, j) < chance < Cumulative(p, t, j + 1);
    assert InInterval(p, t, j, chance);
    ChosenHasWeight(choices, chance, j);
    DirectionsInRange();
    assert !exists l :: 0 <= l < 8 && InInterval(p, t, l, chance) && DirectionOrder[l] >= |neighbors|;
    assert !forall l :: 0 <= l < 8 ==> !InInterval(p, t, l, chance);
    assert r.Ok? && r.value.Some?;
    var w := r.value.value;
    var j' :| 0 <= j' < 8 && InInterval(p, t, j', chance) && DirectionOrder[j'] < |neighbors| && w == neighbors[DirectionOrder[j']];
    if j < j' {
      IntervalsDisjoint(p, t, chance, j, j');
    } else if j' < j {
      IntervalsDisjoint(p, t, chance, j', j);
    }
  }
}
