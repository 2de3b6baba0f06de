/** The wolf agent and its per-tick procedure: a mortality draw, an attack on
    a cell-mate once old enough, one year of ageing and a move to a Moore
    neighbour. Two versions of the agent exist and differ only in whether a
    wolf that dies of old age also loses its position; `clearsPosOnDeath`
    selects between them. */
module Wolves {
  import opened PyCommon
  import opened Space

  /** The random draws one step consumes: `randint(1, 10)` for mortality and
      for the kill (numpy excludes the upper bound, so both lie in 1..9), an
      index for `random.choice` among the cell's occupants (taken modulo the
      number of occupants, so every occupant can be drawn) and the index of
      the chosen neighbour cell. */
  datatype StepDraws = StepDraws(mortality: int, victim: nat, kill: int, move: nat)

  predicate DrawsInRange(d: StepDraws) {
    1 <= d.mortality <= 9 && 1 <= d.kill <= 9 && d.move < 9
  }

  /** `randint(1, 10) < 3`: a draw of 1 or 2 kills the wolf. */
  predicate Dies(mortality: int) { mortality < 3 }

  /** `randint(1, 10) < 2`: only a draw of 1 kills the victim. */
  predicate KillSucceeds(kill: int) { kill < 2 }

  /** A wolf attacks only when strictly older than this. */
  const AggressionAge: int := 8

  /** The wolf an attack kills: one drawn from the whole cell, attacker
      included, and only when the cell holds more than one agent. */
  function Victim<W>(cell: seq<W>, victimDraw: nat, killDraw: int): (r: Option<W>)
    ensures r.Some? <==> |cell| > 1 && KillSucceeds(killDraw)
    ensures r.Some? ==> r.value in cell
  {
    if |cell| > 1 && KillSucceeds(killDraw) then Some(cell[victimDraw % |cell|]) else None
  }

  /** The victim of one whole step: nobody unless the wolf was alive, survived
      its mortality draw and is older than the aggression age. */
  function StepVictim<W>(cell: seq<W>, alive: bool, age: int, d: StepDraws): (r: Option<W>)
    ensures r.Some? ==> alive && !Dies(d.mortality) && age > AggressionAge && |cell| > 1 && KillSucceeds(d.kill)
    ensures r.Some? ==> r.value in cell
  {
    if alive && !Dies(d.mortality) && age > AggressionAge then Victim(cell, d.victim, d.kill) else None
  }

  /** `move_decision`: the neighbour `random.choice` picks. */
  function MoveDecision(options: seq<Cell>, draw: nat): (r: Cell)
    requires draw < |options|
    ensures r in options
  {
    options[draw]
  }

  class Wolf {
    const id: nat
    var alive: bool
    var age: int
    var pos: Option<Cell>

    constructor (id: nat, age: int)
      ensures this.id == id && this.age == age && alive && pos == None
    {
      this.id := id;
      this.age := age;
      alive := true;
      pos := None;
    }

    /** The agents listed in this wolf's cell, itself included. */
    function CellContents(grid: MultiGrid<Wolf>): seq<Wolf>
      reads this, grid
    {
      if pos.Some? then grid.Contents(pos.value) else []
    }

    function CellMates(grid: MultiGrid<Wolf>): set<Wolf>
      reads this, grid
    {
      set w | w in CellContents(grid)
    }

    /** `attack`: at most one agent of the cell loses its life; no position,
        age or grid listing changes. */
    method Attack(grid: MultiGrid<Wolf>, victimDraw: nat, killDraw: int)
      requires pos.Some?
      modifies CellMates(grid)
      ensures pos == old(pos)
      ensures var victim := Victim(old(CellContents(grid)), victimDraw, killDraw);
        forall w | w in old(CellContents(grid)) ::
          w.alive == (old(w.alive) && victim != Some(w)) && w.age == old(w.age) && w.pos == old(w.pos)
    {
      var neighbors := grid.Contents(pos.value);
      if |neighbors| > 1 {
        var other := neighbors[victimDraw % |neighbors|];
        if KillSucceeds(killDraw) {
          other.alive := false;
        }
      }
    }

    /** `move` in its later form: nothing happens without a position;
        otherwise the wolf goes to one of the nine cells around it. */
    method Move(grid: MultiGrid<Wolf>, moveDraw: nat)
      requires moveDraw < 9
      requires pos.Some? ==> this in grid.Contents(pos.value)
      modifies this`pos, grid
      ensures old(pos).None? ==> pos == None && grid.cells == old(grid.cells)
      ensures old(pos).Some? ==>
        && pos == Some(grid.Neighborhood(old(pos).value)[moveDraw])
        && IsMooreNeighbor(old(pos).value, pos.value, grid.width, grid.height)
        && grid.cells == MoveCells(old(grid.cells), this, old(pos).value, pos.value)
        && this in grid.Contents(pos.value)
    {
      if pos.None? {
        return;
      }
      var stepOptions := grid.Neighborhood(pos.value);
      var newPosition := MoveDecision(stepOptions, moveDraw);
      grid.MoveAgent(this, pos.value, newPosition);
      pos := Some(newPosition);
    }

    /** `step`: the mortality draw, then, for a wolf still alive, the attack
        (when older than the aggression age), one year of age and the move.
        An attacker that draws itself dies but still ages and moves in that
        step; a wolf that dies of the mortality draw stays listed in its grid
        cell. */
    method Step(grid: MultiGrid<Wolf>, clearsPosOnDeath: bool, d: StepDraws)
      requires DrawsInRange(d)
      requires alive ==> pos.Some?
      requires pos.Some? ==> this in grid.Contents(pos.value)
      modifies this, grid, CellMates(grid)
      ensures Dies(d.mortality) ==>
        && pos == (if clearsPosOnDeath then None else old(pos))
        && grid.cells == old(grid.cells)
      ensures !Dies(d.mortality) && !old(alive) ==>
        pos == old(pos) && grid.cells == old(grid.cells)
      ensures !Dies(d.mortality) && old(alive) ==>
        && pos == Some(grid.Neighborhood(old(pos).value)[d.move])
        && grid.cells == MoveCells(old(grid.cells), this, old(pos).value, pos.value)
      ensures pos.Some? ==> this in grid.Contents(pos.value)
      ensures age == if old(alive) && !Dies(d.mortality) then old(age) + 1 else old(age)
      ensures var victim := StepVictim(old(CellContents(grid)), old(alive), old(age), d);
        && alive == (old(alive) && !Dies(d.mortality) && victim != Some(this))
        && forall w | w in old(CellContents(grid)) && w != this ::
             w.alive == (old(w.alive) && victim != Some(w)) && w.age == old(w.age) && w.pos == old(w.pos)
      ensures forall w: Wolf | w != this && old(allocated(w)) ::
        w.age == old(w.age) && w.pos == old(w.pos) && (w.alive ==> old(w.alive))
    {
      if Dies(d.mortality) {
        alive := false;
        if clearsPosOnDeath {
          pos := None;
        }
      }
      if !alive {
        return;
      }
      if age > AggressionAge {
        Attack(grid, d.victim, d.kill);
      }
      age := age + 1;
      Move(grid, d.move);
    }

    /** `step` of the later agent: death by the mortality draw also clears
        the position, so a dead wolf never moves again. */
    method StepClearingPos(grid: MultiGrid<Wolf>, d: StepDraws)
      requires DrawsInRange(d)
      requires alive ==> pos.Some?
      requires pos.Some? ==> this in grid.Contents(pos.value)
      modifies this, grid, CellMates(grid)
      ensures Dies(d.mortality) ==> !alive && pos == None && age == old(age) && grid.cells == old(grid.cells)
      ensures !old(alive) ==> !alive && age == old(age) && (pos == old(pos) || pos == None)
      ensures alive ==>
        && old(alive) && age == old(age) + 1 && pos.Some?
        && IsMooreNeighbor(old(pos).value, pos.value, grid.width, grid.height)
      ensures var victim := StepVictim(old(CellContents(grid)), old(alive), old(age), d);
        forall w | w in old(CellContents(grid)) && w != this ::
          w.alive == (old(w.alive) && victim != Some(w)) && w.age == old(w.age) && w.pos == old(w.pos)
      ensures forall w: Wolf | w != this && old(allocated(w)) ::
        w.age == old(w.age) && w.pos == old(w.pos) && (w.alive ==> old(w.alive))
      ensures Dies(d.mortality) || !old(alive) ==>
        forall w | w in old(CellContents(grid)) :: w.alive == old(w.alive) || w == this
    {
      Step(grid, true, d);
    }

    /** `step` of the earlier agent: a wolf keeps its position for good, and
        a dead wolf's step changes nothing, neither itself, nor its cell-mates,
        nor the grid. */
    method StepKeepingPos(grid: MultiGrid<Wolf>, d: StepDraws)
      requires DrawsInRange(d)
      requires pos.Some? && this in grid.Contents(pos.value)
      modifies this, grid, CellMates(grid)
      ensures pos.Some?
      ensures Dies(d.mortality) ==> !alive && pos == old(pos) && age == old(age) && grid.cells == old(grid.cells)
      ensures !old(alive) ==> !alive && pos == old(pos) && age == old(age) && grid.cells == old(grid.cells)
      ensures alive ==>
        && old(alive) && age == old(age) + 1
        && IsMooreNeighbor(old(pos).value, pos.value, grid.width, grid.height)
      ensures var victim := StepVictim(old(CellContents(grid)), old(alive), old(age), d);
        forall w | w in old(CellContents(grid)) && w != this ::
          w.alive == (old(w.alive) && victim != Some(w)) && w.age == old(w.age) && w.pos == old(w.pos)
      ensures forall w: Wolf | w != this && old(allocated(w)) ::
        w.age == old(w.age) && w.pos == old(w.pos) && (w.alive ==> old(w.alive))
      ensures !old(alive) ==> forall w | w in old(CellContents(grid)) :: w.alive == old(w.alive)
    {
      Step(grid, false, d);
    }
  }
}
