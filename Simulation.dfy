/** The wolf-pack model: creation of the pack on a toroidal grid, the tick
    (record the agents, then let each agent step once in a shuffled order)
    and the pack-health figure the data collector records. */
module Simulation {
  import opened PyCommon
  import opened Space
  import opened Wolves

  /** What the data collector records of one agent. */
  datatype AgentRecord = AgentRecord(alive: bool, age: int, pos: Option<Cell>)

  /** One collected row: the tick, every agent's record and the pack health. */
  datatype Snapshot = Snapshot(time: nat, agents: seq<AgentRecord>, packHealth: Result<real>)

  /** `compute_pack_health` as written: `agent_health == True` compares a
      list with a boolean, which is `False`, so `agent_ages[False]` is the
      first wolf's age and the figure is that age divided by the pack size;
      an empty pack raises IndexError. */
  function PackHealthAsWritten(records: seq<AgentRecord>): (r: Result<real>)
    ensures records == [] <==> r == Err(IndexError)
    ensures records != [] ==> r.Ok? && r.value * |records| as real == records[0].age as real
  {
    if records == [] then Err(IndexError)
    else Ok(records[0].age as real / |records| as real)
  }

  /** As written, the figure ignores every alive flag. */
  lemma PackHealthAsWrittenIgnoresAlive(a: seq<AgentRecord>, b: seq<AgentRecord>)
    requires |a| == |b|
    requires forall i :: 0 <= i < |a| ==> a[i].age == b[i].age
    ensures PackHealthAsWritten(a) == PackHealthAsWritten(b)
  {
  }

  /** Two wolves aged 5 (dead) and 2 (alive): as written the figure is 2.5,
      the dead wolf's age over the pack size, where the masked sum gives 1. */
  lemma PackHealthAsWrittenCountsTheDead()
    ensures var pack := [AgentRecord(false, 5, None), AgentRecord(true, 2, Some(Cell(0, 0)))];
      PackHealthAsWritten(pack) == Ok(2.5) && PackHealth(pack) == Ok(1.0)
  {
    var pack := [AgentRecord(false, 5, None), AgentRecord(true, 2, Some(Cell(0, 0)))];
    assert AliveAgeSum(pack) == AliveAgeSum(pack[1..]) by { assert !pack[0].alive; }
    assert AliveAgeSum(pack[1..]) == 2 + AliveAgeSum(pack[1..][1..]);
  }

  /** Sum of the ages of the wolves still alive. */
  function AliveAgeSum(records: seq<AgentRecord>): int {
    if records == [] then 0
    else (if records[0].alive then records[0].age else 0) + AliveAgeSum(records[1..])
  }

  /** The evident intent of `compute_pack_health`: the summed age of the
      living wolves, masked by the alive flags, over the pack size. */
  function PackHealth(records: seq<AgentRecord>): (r: Result<real>)
    ensures records == [] <==> r.Err?
    ensures r.Ok? ==> r.value * |records| as real == AliveAgeSum(records) as real
  {
    if records == [] then Err(ZeroDivisionError)
    else Ok(AliveAgeSum(records) as real / |records| as real)
  }

  /** The dead add nothing to the masked sum. */
  lemma {:induction false} AliveAgeSumBounds(records: seq<AgentRecord>, maxAge: int)
    requires forall i :: 0 <= i < |records| ==> 0 <= records[i].age <= maxAge
    ensures 0 <= AliveAgeSum(records) <= |records| * maxAge
  {
    if records != [] {
      AliveAgeSumBounds(records[1..], maxAge);
    }
  }

  /** With every age in `0..maxAge`, the corrected figure lies in `0..maxAge`. */
  lemma PackHealthBounded(records: seq<AgentRecord>, maxAge: int)
    requires records != []
    requires forall i :: 0 <= i < |records| ==> 0 <= records[i].age <= maxAge
    ensures PackHealth(records).Ok?
    ensures 0.0 <= PackHealth(records).value <= maxAge as real
  {
    AliveAgeSumBounds(records, maxAge);
    CastProduct(|records|, maxAge);
    QuotientBounds(AliveAgeSum(records) as real, |records| as real, maxAge as real);
  }

  /** Changing the age of a dead wolf leaves the corrected figure unchanged. */
  lemma {:induction false} AliveAgeSumIgnoresDead(a: seq<AgentRecord>, b: seq<AgentRecord>)
    requires |a| == |b|
    requires forall i :: 0 <= i < |a| ==> a[i].alive == b[i].alive
    requires forall i :: 0 <= i < |a| && a[i].alive ==> a[i].age == b[i].age
    ensures AliveAgeSum(a) == AliveAgeSum(b)
  {
    if a != [] {
      AliveAgeSumIgnoresDead(a[1..], b[1..]);
    }
  }

  /** A permutation of the agent indices `0..n`: the order in which the
      random activation steps every agent exactly once. */
  predicate IsActivationOrder(order: seq<nat>, n: nat) {
    && |order| == n
    && (forall k :: 0 <= k < |order| ==> order[k] < n)
    && (forall i :: 0 <= i < n ==> i in order)
    && (forall k, l :: 0 <= k < l < |order| ==> order[k] != order[l])
  }

  /** The records of a list of wolves, in list order. */
  function RecordsOf(ws: seq<Wolf>): (r: seq<AgentRecord>)
    reads set w | w in ws
    ensures |r| == |ws|
    ensures forall i :: 0 <= i < |ws| ==> r[i] == AgentRecord(ws[i].alive, ws[i].age, ws[i].pos)
  {
    if ws == [] then [] else [AgentRecord(ws[0].alive, ws[0].age, ws[0].pos)] + RecordsOf(ws[1..])
  }

  /** One iteration of the model's set-up loop: a new wolf is created,
      placed at `c` on the grid, and given `c` as its position. */
  method PlaceNewWolf(g: MultiGrid<Wolf>, id: nat, age: int, c: Cell) returns (a: Wolf)
    requires InBounds(c, g.width, g.height)
    modifies g
    ensures fresh(a)
    ensures a.id == id && a.alive && a.age == age && a.pos == Some(c)
    ensures g.cells == old(g.cells)[c := old(Get(g.cells, c)) + [a]]
  {
    a := new Wolf(id, age);
    g.PlaceAgent(a, c);
    a.pos := Some(c);  // place_agent also records the cell on the agent
  }

  /** A step that leaves the cell map alone or moves agent `a` keeps every
      other agent's listings and lists no agent from outside `pack`. */
  lemma MoveKeepsListings<A>(m0: map<Cell, seq<A>>, m1: map<Cell, seq<A>>, a: A, from: Cell, to: Cell, pack: seq<A>)
    requires m1 == m0 || m1 == MoveCells(m0, a, from, to)
    requires a in pack
    requires forall c, v :: v in Get(m0, c) ==> v in pack
    ensures forall c, v :: v in Get(m1, c) ==> v in pack
    ensures forall c, b :: b != a && b in Get(m0, c) ==> b in Get(m1, c)
  {
    if m1 != m0 {
      forall c, v | v in Get(m1, c) ensures v in pack {
        if v != a {
          MoveCellsKeepsOthers(m0, a, from, to, v, c);
        }
      }
      forall c, b | b != a && b in Get(m0, c) ensures b in Get(m1, c) {
        MoveCellsKeepsOthers(m0, a, from, to, b, c);
      }
    }
  }

  /** The set-up loop of `WolfModel`: wolf `i` gets id `i` and age
      `ageDraws[i]`, and is placed at its drawn cell, on a grid that starts
      empty. */
  method PlacePack(g: MultiGrid<Wolf>, ageDraws: seq<int>, xDraws: seq<int>, yDraws: seq<int>)
    returns (pack: seq<Wolf>)
    requires |xDraws| == |ageDraws| && |yDraws| == |ageDraws|
    requires forall i :: 0 <= i < |ageDraws| ==> 0 <= xDraws[i] < g.width && 0 <= yDraws[i] < g.height
    requires forall c :: g.Contents(c) == []
    modifies g
    ensures |pack| == |ageDraws|
    ensures forall j :: 0 <= j < |pack| ==> pack[j].id == j && pack[j].alive && pack[j].age == ageDraws[j]
    ensures forall j :: 0 <= j < |pack| ==> pack[j].pos == Some(Cell(xDraws[j], yDraws[j]))
    ensures forall j :: 0 <= j < |pack| ==> pack[j] in g.Contents(Cell(xDraws[j], yDraws[j]))
    ensures forall c, w :: w in g.Contents(c) ==> w in pack
  {
    pack := [];
    assert forall c :: Get(g.cells, c) == [] by {
      forall c ensures Get(g.cells, c) == [] {
        assert g.Contents(c) == [];
      }
    }
    var i := 0;
    while i < |ageDraws|
      invariant 0 <= i <= |ageDraws| && |pack| == i
      invariant forall j :: 0 <= j < i ==> pack[j].id == j && pack[j].alive && pack[j].age == ageDraws[j]
      invariant forall j :: 0 <= j < i ==> pack[j].pos == Some(Cell(xDraws[j], yDraws[j]))
      invariant forall j :: 0 <= j < i ==> pack[j] in Get(g.cells, Cell(xDraws[j], yDraws[j]))
      invariant forall c, w :: w in Get(g.cells, c) ==> w in pack
    {
      var c := Cell(xDraws[i], yDraws[i]);
      ghost var before := g.cells;
      var a := PlaceNewWolf(g, i, ageDraws[i], c);
      forall c', v | v in Get(g.cells, c') ensures v in pack + [a] {
        if c' == c && v != a {
          assert v in Get(before, c);
        } else if c' != c {
          assert v in Get(before, c');
        }
      }
      pack := pack + [a];
      i := i + 1;
    }
  }

  class WolfModel {
    const numAgents: nat
    const grid: MultiGrid<Wolf>
    const clearsPosOnDeath: bool
    var agents: seq<Wolf>       // the scheduler's agents, indexed by id
    var time: nat               // the scheduler's tick counter
    var history: seq<Snapshot>  // every row the data collector recorded

    function AgentSet(): set<Wolf>
      reads this
    {
      set w | w in agents
    }

    /** The pack invariant: one wolf per id, the living are placed, every
        placed wolf is in bounds and listed in its cell, and the grid lists
        only the pack's wolves. */
    ghost predicate Valid()
      reads this, grid, AgentSet()
    {
      && |agents| == numAgents
      && (forall i :: 0 <= i < |agents| ==> agents[i].id == i)
      && (forall i :: 0 <= i < |agents| ==> agents[i].alive ==> agents[i].pos.Some?)
      && (forall i :: 0 <= i < |agents| ==> agents[i].pos.Some? ==>
            InBounds(agents[i].pos.value, grid.width, grid.height) && agents[i] in grid.Contents(agents[i].pos.value))
      && (forall c, w :: w in grid.Contents(c) ==> w in agents)
    }

    /** The row `datacollector.collect` records now, with the pack-health
        figure `compute_pack_health` returns as written. */
    function Collect(): Snapshot
      reads this, AgentSet()
    {
      var records := RecordsOf(agents);
      Snapshot(time, records, PackHealthAsWritten(records))
    }

    /** `WolfModel(N, width, height)`: N wolves with ids `0..N-1`, each of an
        age drawn by `randint(1, 5)` (so 1..4), each scheduled and placed at a
        cell drawn by `randrange` on each axis. */
    constructor (n: nat, width: Positive, height: Positive, clearsPosOnDeath: bool,
                 ageDraws: seq<int>, xDraws: seq<int>, yDraws: seq<int>)
      requires |ageDraws| == n && |xDraws| == n && |yDraws| == n
      requires forall i :: 0 <= i < n ==> 1 <= ageDraws[i] <= 4
      requires forall i :: 0 <= i < n ==> 0 <= xDraws[i] < width && 0 <= yDraws[i] < height
      ensures Valid()
      ensures numAgents == n && |agents| == n && time == 0 && history == []
      ensures grid.width == width && grid.height == height && this.clearsPosOnDeath == clearsPosOnDeath
      ensures forall i :: 0 <= i < n ==>
        && agents[i].alive && agents[i].age == ageDraws[i] && 1 <= agents[i].age <= 4
        && agents[i].pos == Some(Cell(xDraws[i], yDraws[i]))
    {
      numAgents := n;
      var g := new MultiGrid(width, height);
      var pack := PlacePack(g, ageDraws, xDraws, yDraws);
      grid := g;
      this.clearsPosOnDeath := clearsPosOnDeath;
      agents := pack;
      time := 0;
      history := [];
    }

    /** `step`: the data collector records the pre-step state, then every
        agent steps once, in the shuffled `order`, and the clock advances.
        Across the tick nobody comes back to life, every age grows by at
        most one, and every wolf alive at the end aged by exactly one and
        stands in the Moore neighbourhood of its cell before the tick. */
    method Step(order: seq<nat>, draws: seq<StepDraws>)
      requires Valid()
      requires IsActivationOrder(order, |agents|)
      requires |draws| == |order| && forall k :: 0 <= k < |draws| ==> DrawsInRange(draws[k])
      modifies this, grid, AgentSet()
      ensures Valid()
      ensures agents == old(agents) && time == old(time) + 1
      ensures history == old(history) + [old(Collect())]
      ensures forall i :: 0 <= i < |agents| ==> agents[i].alive ==> old(agents[i].alive)
      ensures forall i :: 0 <= i < |agents| ==>
        agents[i].age == old(agents[i].age) || agents[i].age == old(agents[i].age) + 1
      ensures forall i :: 0 <= i < |agents| ==> agents[i].alive ==> agents[i].age == old(agents[i].age) + 1
      ensures forall i :: 0 <= i < |agents| ==> agents[i].alive ==>
        old(agents[i].pos).Some? && agents[i].pos.Some? && IsMooreNeighbor(old(agents[i].pos).value, agents[i].pos.value, grid.width, grid.height)
    {
      history := history + [Collect()];
      StepAll(order, draws);
      time := time + 1;
    }

    /** The scheduler's pass over the shuffled order: each agent steps once. */
    method StepAll(order: seq<nat>, draws: seq<StepDraws>)
      requires Valid()
      requires IsActivationOrder(order, |agents|)
      requires |draws| == |order| && forall k :: 0 <= k < |draws| ==> DrawsInRange(draws[k])
      modifies grid, AgentSet()
      ensures Valid()
      ensures forall i :: 0 <= i < |agents| ==> agents[i].alive ==> old(agents[i].alive)
      ensures forall i :: 0 <= i < |agents| ==>
        agents[i].age == old(agents[i].age) || agents[i].age == old(agents[i].age) + 1
      ensures forall i :: 0 <= i < |agents| ==> agents[i].alive ==> agents[i].age == old(agents[i].age) + 1
      ensures forall i :: 0 <= i < |agents| ==> agents[i].alive ==>
        old(agents[i].pos).Some? && agents[i].pos.Some? && IsMooreNeighbor(old(agents[i].pos).value, agents[i].pos.value, grid.width, grid.height)
    {
      var k := 0;
      while k < |order|
        invariant 0 <= k <= |order|
        invariant Valid()
        invariant forall i :: 0 <= i < |agents| ==> agents[i].alive ==> old(agents[i].alive)
        invariant forall l :: k <= l < |order| ==>
          agents[order[l]].age == old(agents[order[l]].age) && agents[order[l]].pos == old(agents[order[l]].pos)
        invariant forall l :: 0 <= l < k ==>
          && (agents[order[l]].age == old(agents[order[l]].age) || agents[order[l]].age == old(agents[order[l]].age) + 1)
          && (agents[order[l]].alive ==> agents[order[l]].age == old(agents[order[l]].age) + 1)
          && (agents[order[l]].alive ==>
                old(agents[order[l]].pos).Some? && agents[order[l]].pos.Some?
                && IsMooreNeighbor(old(agents[order[l]].pos).value, agents[order[l]].pos.value, grid.width, grid.height))
      {
        StepOne(order[k], draws[k]);
        k := k + 1;
      }
      forall i | 0 <= i < |agents|
        ensures agents[i].age == old(agents[i].age) || agents[i].age == old(agents[i].age) + 1
        ensures agents[i].alive ==> agents[i].age == old(agents[i].age) + 1
        ensures agents[i].alive ==> old(agents[i].pos).Some? && agents[i].pos.Some? && IsMooreNeighbor(old(agents[i].pos).value, agents[i].pos.value, grid.width, grid.height)
      {
        assert i in order;
        var l :| 0 <= l < |order| && order[l] == i;
      }
    }

    /** One agent's step inside the tick, with the pack invariant carried
        across it. */
    method StepOne(j: nat, d: StepDraws)
      requires Valid()
      requires j < |agents|
      requires DrawsInRange(d)
      modifies grid, AgentSet()
      ensures Valid()
      ensures agents == old(agents)
      ensures forall i :: 0 <= i < |agents| && i != j ==>
        agents[i].age == old(agents[i].age) && agents[i].pos == old(agents[i].pos)
        && (agents[i].alive ==> old(agents[i].alive))
      ensures agents[j].age == old(agents[j].age) || agents[j].age == old(agents[j].age) + 1
      ensures agents[j].alive ==> old(agents[j].alive) && agents[j].age == old(agents[j].age) + 1
      ensures agents[j].alive ==>
        old(agents[j].pos).Some? && agents[j].pos.Some?
        && IsMooreNeighbor(old(agents[j].pos).value, agents[j].pos.value, grid.width, grid.height)
    {
      var w := agents[j];
      ghost var cells0 := grid.cells;
      ghost var pos0 := w.pos;
      assert forall c, v :: v in Get(cells0, c) ==> v in agents by {
        forall c, v | v in Get(cells0, c) ensures v in agents {
          assert v in grid.Contents(c);
        }
      }
      assert w.CellMates(grid) <= AgentSet();
      assert forall i :: 0 <= i < |agents| && i != j ==> agents[i] != w;
      w.Step(grid, clearsPosOnDeath, d);
      ghost var from := if pos0.Some? then pos0.value else Cell(0, 0);
      ghost var to := if w.pos.Some? then w.pos.value else Cell(0, 0);
      MoveKeepsListings(cells0, grid.cells, w, from, to, agents);
      forall i | 0 <= i < |agents| && i != j
        ensures agents[i].age == old(agents[i].age) && agents[i].pos == old(agents[i].pos)
        ensures agents[i].alive ==> old(agents[i].alive)
      {
        assert agents[i] != w;
      }
      forall i | 0 <= i < |agents| && agents[i].pos.Some?
        ensures InBounds(agents[i].pos.value, grid.width, grid.height)
        ensures agents[i] in grid.Contents(agents[i].pos.value)
      {
        if i != j {
          assert agents[i] in Get(cells0, agents[i].pos.value);
        } else if w.pos != pos0 {
          assert IsMooreNeighbor(pos0.value, w.pos.value, grid.width, grid.height);
        }
      }
    }
  }
}
