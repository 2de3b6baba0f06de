/** The multi-occupancy toroidal grid the wolves live on: a map from cell to
    the list of agents in it, with the wrap-around Moore neighbourhood. The
    simulation only ever builds its grid with the torus flag set. */
module Space {
  import opened PyCommon

  type Positive = n: nat | n > 0 witness 1

  datatype Cell = Cell(x: int, y: int)

  predicate InBounds(c: Cell, width: nat, height: nat) {
    0 <= c.x < width && 0 <= c.y < height
  }

  /** Coordinates taken modulo the grid size, as a torus does. */
  function TorusAdj(c: Cell, width: Positive, height: Positive): (r: Cell)
    ensures InBounds(r, width, height)
    ensures InBounds(c, width, height) ==> r == c
  {
    Cell(c.x % width, c.y % height)
  }

  /** `b` is at most one step from `a` around a ring of `n` positions. */
  predicate WithinOneOnRing(a: int, b: int, n: Positive) {
    var k := (b - a) % n;
    k == 0 || k == 1 || k == n - 1
  }

  /** Reference definition of the Moore neighbourhood on a torus, centre
      included: an in-bounds cell at most one step away on each axis. */
  predicate IsMooreNeighbor(c: Cell, d: Cell, width: Positive, height: Positive) {
    InBounds(d, width, height) && WithinOneOnRing(c.x, d.x, width) && WithinOneOnRing(c.y, d.y, height)
  }

  /** The nine candidate cells around `c`, centre included, each wrapped onto
      the torus (on a grid narrower than three cells some coincide). */
  function MooreNeighborhood(c: Cell, width: Positive, height: Positive): (r: seq<Cell>)
    ensures |r| == 9
    ensures forall i :: 0 <= i < 9 ==> IsMooreNeighbor(c, r[i], width, height)
    ensures TorusAdj(c, width, height) in r
  {
    // row by row from the row above: index `(dy + 1) * 3 + (dx + 1)` holds offset `(dx, dy)`
    var r := seq(9, i requires 0 <= i < 9 => TorusAdj(Cell(c.x + i % 3 - 1, c.y + i / 3 - 1), width, height));
    forall i | 0 <= i < 9 ensures IsMooreNeighbor(c, r[i], width, height) {
      StepWraps(c.x, i % 3 - 1, width);
      StepWraps(c.y, i / 3 - 1, height);
    }
    assert r[4] == TorusAdj(c, width, height);
    r
  }

  /** One step of -1, 0 or +1 followed by the wrap stays within one step. */
  lemma StepWraps(a: int, d: int, n: Positive)
    requires -1 <= d <= 1
    ensures WithinOneOnRing(a, (a + d) % n, n)
  {
    var r := (a + d) % n;
    var q := (a + d) / n;
    assert a + d == n * q + r by {
      assert r == a + d - n * q;
    }
    ModShift(d, -q, n);
    assert n * (-q) == -(n * q);
    assert r - a == d + n * (-q);
    if d == -1 {
      ModUnique(-1, -1, n - 1, n);
    } else if d == 1 && n == 1 {
      ModUnique(1, 1, 0, 1);
    } else if d == 1 {
      ModUnique(1, 0, 1, n);
    } else {
      ModUnique(0, 0, 0, n);
    }
  }

  /** Adding a multiple of `n` does not change a remainder. */
  lemma ModShift(x: int, q: int, n: Positive)
    ensures (x + n * q) % n == x % n
  {
    var t := x / n;
    assert x + n * q == n * (t + q) + x % n;
    ModUnique(x + n * q, t + q, x % n, n);
  }

  /** A remainder in `0..n` is the remainder. */
  lemma ModUnique(y: int, k: int, r: int, n: Positive)
    requires y == n * k + r && 0 <= r < n
    ensures y % n == r
  {
    var m := k - y / n;
    assert n * m == y % n - r;
  }

  /** Every cell the reference definition admits is one of the nine. */
  lemma MooreNeighborhoodComplete(c: Cell, d: Cell, width: Positive, height: Positive)
    requires IsMooreNeighbor(c, d, width, height)
    ensures d in MooreNeighborhood(c, width, height)
  {
    var dx := OffsetOnRing(c.x, d.x, width);
    var dy := OffsetOnRing(c.y, d.y, height);
    var r := MooreNeighborhood(c, width, height);
    assert r[(dy + 1) * 3 + (dx + 1)] == d;
  }

  /** On a grid at least three cells wide and high the nine cells are
      pairwise distinct, so mesa, which lists each distinct cell once, lists
      the same nine. */
  lemma MooreNeighborhoodDistinct(c: Cell, width: Positive, height: Positive)
    requires width >= 3 && height >= 3
    ensures forall i, j :: 0 <= i < j < 9 ==>
      MooreNeighborhood(c, width, height)[i] != MooreNeighborhood(c, width, height)[j]
  {
    var r := MooreNeighborhood(c, width, height);
    forall i, j | 0 <= i < j < 9 ensures r[i] != r[j] {
      if i % 3 != j % 3 {
        RingStepsDiffer(c.x, i % 3 - 1, j % 3 - 1, width);
      } else {
        RingStepsDiffer(c.y, i / 3 - 1, j / 3 - 1, height);
      }
    }
  }

  /** Two different steps of -1, 0 or +1 reach different positions on a ring
      of at least three. */
  lemma RingStepsDiffer(a: int, d: int, e: int, n: Positive)
    requires n >= 3 && -1 <= d <= 1 && -1 <= e <= 1 && d != e
    ensures (a + d) % n != (a + e) % n
  {
    var q := (a + e) / n;
    var r := (a + e) % n;
    assert a + e == n * q + r;
    var t := r + (d - e);
    if 0 <= t < n {
      ModUnique(a + d, q, t, n);
    } else if t < 0 {
      assert n * (q - 1) == n * q - n;
      ModUnique(a + d, q - 1, t + n, n);
    } else {
      assert n * (q + 1) == n * q + n;
      ModUnique(a + d, q + 1, t - n, n);
    }
  }

  /** The step, in -1..1, that leads from `a` to the in-range `b`. */
  lemma OffsetOnRing(a: int, b: int, n: Positive) returns (d: int)
    requires 0 <= b < n && WithinOneOnRing(a, b, n)
    ensures -1 <= d <= 1 && b == (a + d) % n
  {
    var k := (b - a) % n;
    var q := (b - a) / n;
    if k == 0 || k == 1 {
      d := k;
      ModUnique(a + d, -q, b, n);
    } else {
      d := -1;
      ModUnique(a + d, -q - 1, b, n);
    }
  }

  /** The contents of cell `c` in a cell map; a cell never written is empty. */
  function Get<A>(m: map<Cell, seq<A>>, c: Cell): seq<A> {
    if c in m then m[c] else []
  }

  /** The cell map after agent `a` leaves `from` (its first listing there is
      removed) and is appended to `to`. */
  function MoveCells<A(==)>(m: map<Cell, seq<A>>, a: A, from: Cell, to: Cell): (r: map<Cell, seq<A>>)
    ensures r.Keys == m.Keys + {from, to}
    ensures a in Get(r, to)
  {
    var left := m[from := RemoveFirst(Get(m, from), a)];
    left[to := Get(left, to) + [a]]
  }

  /** Moving `a` changes no other agent's listing in any cell. */
  lemma MoveCellsKeepsOthers<A>(m: map<Cell, seq<A>>, a: A, from: Cell, to: Cell, b: A, c: Cell)
    requires b != a
    ensures b in Get(MoveCells(m, a, from, to), c) <==> b in Get(m, c)
  {
    RemoveFirstKeepsOthers(Get(m, from), a, b);
  }

  /** After the move, every listed agent was listed before or is `a`. */
  lemma MoveCellsListsNoNewcomer<A>(m: map<Cell, seq<A>>, a: A, from: Cell, to: Cell, b: A, c: Cell)
    requires b in Get(MoveCells(m, a, from, to), c)
    ensures b == a || exists c' :: b in Get(m, c')
  {
    if b != a {
      MoveCellsKeepsOthers(m, a, from, to, b, c);
    }
  }

  /** mesa's `MultiGrid(width, height, True)`. */
  class MultiGrid<A(==)> {
    const width: Positive
    const height: Positive
    var cells: map<Cell, seq<A>>

    constructor (width: Positive, height: Positive)
      ensures this.width == width && this.height == height
      ensures forall c :: Contents(c) == []
    {
      this.width := width;
      this.height := height;
      cells := map[];
    }

    /** `get_cell_list_contents([c])`. */
    function Contents(c: Cell): seq<A>
      reads this
    {
      Get(cells, c)
    }

    /** `get_neighborhood(c, moore=True, include_center=True)`. */
    function Neighborhood(c: Cell): (r: seq<Cell>)
      ensures |r| == 9
      ensures forall i :: 0 <= i < 9 ==> IsMooreNeighbor(c, r[i], width, height)
    {
      MooreNeighborhood(c, width, height)
    }

    /** `place_agent(a, c)` without the agent's own `pos` field, which the
        agent's class sets: `a` is appended to the list of `c`. */
    method PlaceAgent(a: A, c: Cell)
      requires InBounds(c, width, height)
      modifies this
      ensures cells == old(cells)[c := old(Contents(c)) + [a]]
    {
      cells := cells[c := Contents(c) + [a]];
    }

    /** `move_agent(a, to)` for an agent listed at `from`. */
    method MoveAgent(a: A, from: Cell, to: Cell)
      requires a in Contents(from)
      requires InBounds(to, width, height)
      modifies this
      ensures cells == MoveCells(old(cells), a, from, to)
      ensures a in Contents(to)
    {
      cells := cells[from := RemoveFirst(Contents(from), a)];
      cells := cells[to := Contents(to) + [a]];
    }
  }
}
