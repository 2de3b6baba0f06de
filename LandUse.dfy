/** Land-type resolution of the cells around a wolf: every neighbour cell is
    looked up in the land-use table (land type -> cells of that type), the
    types found are grouped per neighbour, and a neighbour recorded under
    several types keeps the types of the layers that win. */
module LandUse {
  import opened PyCommon
  import opened Space

  /** The land-type names the table uses. `Other` stands for any key outside
      this list (its name differs from every listed one). */
  datatype LandType =
    | ElevationOutOfBound | OutsideFNNR | Household | Farm | PES | Forest
    | Bamboo | Coniferous | Broadleaf | Mixed | Lichen | Deciduous | Shrublands
    | Clouds | Farmland
    | Other(name: string)

  /** The layers that override vegetation: a cell in one of them takes that
      type alone. Everything else is bottom-layer vegetation. */
  predicate IsSpecial(t: LandType) {
    t.ElevationOutOfBound? || t.OutsideFNNR? || t.Household? || t.Farm? || t.PES? || t.Forest?
  }

  /** The last overriding layer among `s`, if any (`LastSpecialIsLast`
      says it is the last one). */
  function LastSpecial(s: seq<LandType>): (r: Option<LandType>)
    ensures r.Some? ==> IsSpecial(r.value) && r.value in s
    ensures r.None? <==> forall i :: 0 <= i < |s| ==> !IsSpecial(s[i])
  {
    if s == [] then None
    else if IsSpecial(s[|s| - 1]) then Some(s[|s| - 1])
    else
      var r := LastSpecial(s[..|s| - 1]);
      assert forall i :: 0 <= i < |s| - 1 ==> s[..|s| - 1][i] == s[i];
      r
  }

  /** The layer found is the one at the last position holding an
      overriding layer: no overriding layer follows it. */
  lemma {:induction false} LastSpecialIsLast(s: seq<LandType>)
    requires LastSpecial(s).Some?
    ensures exists i ::
      0 <= i < |s| && s[i] == LastSpecial(s).value && forall j :: i < j < |s| ==> !IsSpecial(s[j])
  {
    if !IsSpecial(s[|s| - 1]) {
      var pre := s[..|s| - 1];
      LastSpecialIsLast(pre);
      var i :|
        0 <= i < |pre| && pre[i] == LastSpecial(pre).value && forall j :: i < j < |pre| ==> !IsSpecial(pre[j]);
      assert s[i] == LastSpecial(s).value;
      assert forall j :: i < j < |s| ==> !IsSpecial(s[j]) by {
        forall j | i < j < |s| ensures !IsSpecial(s[j]) {
          if j < |s| - 1 {
            assert pre[j] == s[j];
          }
        }
      }
    }
  }

  /*
   * Resolution of one cell's types: a Python `for` over a list that the body
   * shrinks with `remove` (the iterator keeps its index, so the element after
   * a removed one is skipped) and that an overriding layer rebinds to a
   * one-element list (the loop then goes on over the old list, which no
   * further removal touches).
   */

  /** The rest of that loop from index `i` of `orig`, while the name is bound
      to `orig` itself (`current == None`) or to `[current.value]`. */
  function ResolveFrom(orig: seq<LandType>, i: nat, current: Option<LandType>): seq<LandType>
    decreases |orig| - i
  {
    if i >= |orig| then (if current.Some? then [current.value] else orig)
    else
      var v := orig[i];
      if IsSpecial(v) then ResolveFrom(orig, i + 1, Some(v))
      else if current.None? && |orig| > 1 then ResolveFrom(RemoveFirst(orig, v), i + 1, None)
      else ResolveFrom(orig, i + 1, current)
  }

  /** The types one neighbour contributes: a list of one type is kept as it is. */
  function Resolve(types: seq<LandType>): seq<LandType> {
    if |types| > 1 then ResolveFrom(types, 0, None) else types
  }

  /** The loop of `check_vegetation_of_neighbor` over one neighbour's list. */
  method ResolveTypes(types: seq<LandType>) returns (r: seq<LandType>)
    ensures r == Resolve(types)
    ensures |types| <= 1 ==> r == types
  {
    if |types| <= 1 {
      return types;
    }
    var listOfValues := types;
    var rebound: Option<LandType> := None;
    var i := 0;
    while i < |listOfValues|
      invariant 0 <= i
      invariant ResolveFrom(listOfValues, i, rebound) == ResolveFrom(types, 0, None)
      decreases |listOfValues| - i
    {
      var value := listOfValues[i];
      if !IsSpecial(value) {
        if rebound.None? && |listOfValues| > 1 {
          listOfValues := RemoveFirst(listOfValues, value);
        }
      } else {
        rebound := Some(value);
      }
      i := i + 1;
    }
    r := if rebound.Some? then [rebound.value] else listOfValues;
  }

  /** A neighbour with at least one type never ends with none: removal stops
      while one entry is left. */
  lemma {:induction false} ResolveFromNonEmpty(orig: seq<LandType>, i: nat, current: Option<LandType>)
    requires orig != []
    ensures ResolveFrom(orig, i, current) != []
    decreases |orig| - i
  {
    if i < |orig| {
      var v := orig[i];
      if IsSpecial(v) {
        ResolveFromNonEmpty(orig, i + 1, Some(v));
      } else if current.None? && |orig| > 1 {
        ResolveFromNonEmpty(RemoveFirst(orig, v), i + 1, None);
      } else {
        ResolveFromNonEmpty(orig, i + 1, current);
      }
    }
  }

  lemma ResolveNonEmpty(types: seq<LandType>)
    requires types != []
    ensures Resolve(types) != []
  {
    if |types| > 1 {
      ResolveFromNonEmpty(types, 0, None);
    }
  }

  /** Resolution only ever keeps types that were recorded for the cell. */
  lemma {:induction false} ResolveFromWithin(orig: seq<LandType>, i: nat, current: Option<LandType>, types: seq<LandType>)
    requires forall x :: x in orig ==> x in types
    requires current.Some? ==> current.value in types
    ensures forall x :: x in ResolveFrom(orig, i, current) ==> x in types
    decreases |orig| - i
  {
    if i < |orig| {
      var v := orig[i];
      if IsSpecial(v) {
        ResolveFromWithin(orig, i + 1, Some(v), types);
      } else if current.None? && |orig| > 1 {
        ResolveFromWithin(RemoveFirst(orig, v), i + 1, None, types);
      } else {
        ResolveFromWithin(orig, i + 1, current, types);
      }
    }
  }

  lemma ResolveWithin(types: seq<LandType>)
    ensures forall x :: x in Resolve(types) ==> x in types
  {
    if |types| > 1 {
      ResolveFromWithin(types, 0, None, types);
    }
  }

  /** An overriding layer is never lost: if the cell has one, the result
      holds one. */
  lemma {:induction false} ResolveFromKeepsSpecial(orig: seq<LandType>, i: nat, current: Option<LandType>, s: LandType)
    requires IsSpecial(s)
    requires current.Some? ==> IsSpecial(current.value)
    requires s in orig || current.Some?
    ensures exists x :: x in ResolveFrom(orig, i, current) && IsSpecial(x)
    decreases |orig| - i
  {
    if i >= |orig| {
      if current.Some? {
        assert current.value in ResolveFrom(orig, i, current);
      } else {
        assert s in ResolveFrom(orig, i, current);
      }
    } else {
      var v := orig[i];
      if IsSpecial(v) {
        ResolveFromKeepsSpecial(orig, i + 1, Some(v), s);
      } else if current.None? && |orig| > 1 {
        RemoveFirstKeepsOthers(orig, v, s);
        ResolveFromKeepsSpecial(RemoveFirst(orig, v), i + 1, None, s);
      } else {
        ResolveFromKeepsSpecial(orig, i + 1, current, s);
      }
    }
  }

  lemma ResolveKeepsSpecial(types: seq<LandType>)
    requires LastSpecial(types).Some?
    ensures exists x :: x in Resolve(types) && IsSpecial(x)
  {
    var s := LastSpecial(types).value;
    if |types| > 1 {
      ResolveFromKeepsSpecial(types, 0, None, s);
    } else {
      assert s in Resolve(types);
    }
  }

  /** Once the name is rebound, nothing is removed and the last overriding
      layer met wins. */
  lemma {:induction false} ResolveFromRebound(types: seq<LandType>, i: nat, current: Option<LandType>)
    requires 0 < i <= |types|
    requires current == LastSpecial(types[..i]) && current.Some?
    ensures ResolveFrom(types, i, current) == [LastSpecial(types).value]
    decreases |types| - i
  {
    if i == |types| {
      assert types[..i] == types;
    } else {
      assert types[..i + 1][..i] == types[..i];
      ResolveFromRebound(types, i + 1, LastSpecial(types[..i + 1]));
    }
  }

  /** A neighbour whose first recorded type is an overriding layer contributes
      exactly one type: the last overriding layer in its list. */
  lemma ResolveFirstSpecial(types: seq<LandType>)
    requires types != [] && IsSpecial(types[0])
    ensures Resolve(types) == [LastSpecial(types).value]
  {
    if |types| > 1 {
      assert types[..1] == [types[0]];
      assert LastSpecial(types[..1]) == Some(types[0]);
      ResolveFromRebound(types, 1, Some(types[0]));
    } else {
      assert types == [types[0]];
    }
  }

  /** The first step of the loop over a list that starts with vegetation:
      that entry is removed and the iterator moves on to index 1. */
  lemma RemoveHead(a: LandType, rest: seq<LandType>)
    requires !IsSpecial(a) && rest != []
    ensures ResolveFrom([a] + rest, 0, None) == ResolveFrom(rest, 1, None)
  {
    assert RemoveFirst([a] + rest, a) == rest;
  }

  /** Index 1 of a three-entry list holding vegetation: it is removed and the
      loop ends with two entries. */
  lemma RemoveMiddle(b: LandType, c: LandType, d: LandType)
    requires !IsSpecial(c)
    ensures ResolveFrom([b, c, d], 1, None) == [b, d]
  {
    var s1 := [b, c, d];
    var s2 := RemoveFirst(s1, c);
    assert s2 == [b, d] by {
      if b != c {
        assert s1 == [b] + [c, d];
        assert RemoveFirst([c, d], c) == [d];
      }
    }
    assert ResolveFrom(s1, 1, None) == ResolveFrom(s2, 2, None);
  }

  /** Four vegetation types in a row: each removal shifts the list under
      the iterator, so the second and fourth survive. */
  lemma ResolveSkipsAfterRemoval(a: LandType, b: LandType, c: LandType, d: LandType)
    requires !IsSpecial(a) && !IsSpecial(b) && !IsSpecial(c) && !IsSpecial(d)
    ensures Resolve([a, b, c, d]) == [b, d]
  {
    assert [a, b, c, d] == [a] + [b, c, d];
    RemoveHead(a, [b, c, d]);
    RemoveMiddle(b, c, d);
  }

  /** An overriding layer second in the list is stepped over by the first
      removal, so a vegetation type survives beside it. */
  lemma ResolveMayKeepVegetationBesideLayer(a: LandType, s: LandType, b: LandType, c: LandType)
    requires !IsSpecial(a) && IsSpecial(s) && !IsSpecial(b) && !IsSpecial(c)
    ensures Resolve([a, s, b, c]) == [s, c]
  {
    assert [a, s, b, c] == [a] + [s, b, c];
    RemoveHead(a, [s, b, c]);
    RemoveMiddle(s, b, c);
  }

  /*
   * The grouping pass: for every neighbour, every table entry and every cell
   * of that entry equal to the neighbour, the entry's land type is appended
   * to the neighbour's list in an insertion-ordered dictionary.
   */

  /** The land-use table: each land type with the cells recorded under it,
      in the dictionary's insertion order. */
  type LandTable = seq<(LandType, seq<Cell>)>

  /** Neighbour -> types found for it, in insertion order. */
  type Groups = seq<(Cell, seq<LandType>)>

  /** `list(table.values())`. */
  function Values(table: LandTable): (r: seq<seq<Cell>>)
    ensures |r| == |table|
    ensures forall k :: 0 <= k < |table| ==> r[k] == table[k].1
  {
    seq(|table|, k requires 0 <= k < |table| => table[k].1)
  }

  /** The type recorded for a hit in entry `k`: the key of the FIRST entry
      whose cell list equals entry `k`'s (`list(values).index(nposlist)`),
      which is entry `k` itself unless an earlier entry has an equal list. */
  function VegetationOf(table: LandTable, k: nat): (t: LandType)
    requires k < |table|
    ensures exists j :: 0 <= j <= k && table[j].1 == table[k].1 && t == table[j].0
  {
    var vs := Values(table);
    assert table[k].1 in vs by { assert vs[k] == table[k].1; }
    var j := IndexOf(vs, table[k].1);
    assert j <= k;
    table[j].0
  }

  /** One copy of `t` per occurrence of `n` in `l`. */
  function Hits(l: seq<Cell>, n: Cell, t: LandType): (r: seq<LandType>)
    ensures forall x :: x in r ==> x == t
    ensures r == [] <==> n !in l
  {
    if l == [] then []
    else
      var r := Hits(l[..|l| - 1], n, t) + (if l[|l| - 1] == n then [t] else []);
      assert n in l <==> n in l[..|l| - 1] || l[|l| - 1] == n by {
        assert l == l[..|l| - 1] + [l[|l| - 1]];
      }
      r
  }

  /** The types found for neighbour `n` in the first `k` table entries. */
  function TypesUpTo(table: LandTable, n: Cell, k: nat): seq<LandType>
    requires k <= |table|
  {
    if k == 0 then []
    else TypesUpTo(table, n, k - 1) + Hits(table[k - 1].1, n, VegetationOf(table, k - 1))
  }

  /** Every type the table records for neighbour `n`, in table order. */
  function CellTypes(table: LandTable, n: Cell): seq<LandType> {
    TypesUpTo(table, n, |table|)
  }

  /** A type is found for `n` exactly when some entry lists `n`, and it is
      the type of an entry with the same cell list. */
  lemma {:induction false} TypesUpToMember(table: LandTable, n: Cell, k: nat, x: LandType)
    requires k <= |table|
    ensures x in TypesUpTo(table, n, k) <==>
      exists j :: 0 <= j < k && n in table[j].1 && x == VegetationOf(table, j)
  {
    if k > 0 {
      TypesUpToMember(table, n, k - 1, x);
      var v := VegetationOf(table, k - 1);
      var h := Hits(table[k - 1].1, n, v);
      assert x in h <==> n in table[k - 1].1 && x == v by {
        if n in table[k - 1].1 {
          assert h[0] in h;
        }
      }
      assert TypesUpTo(table, n, k) == TypesUpTo(table, n, k - 1) + h;
      if x in TypesUpTo(table, n, k) && x !in h {
        var j :| 0 <= j < k - 1 && n in table[j].1 && x == VegetationOf(table, j);
        assert 0 <= j < k;
      }
      if exists j :: 0 <= j < k && n in table[j].1 && x == VegetationOf(table, j) {
        var j :| 0 <= j < k && n in table[j].1 && x == VegetationOf(table, j);
        if j < k - 1 {
          assert x in TypesUpTo(table, n, k - 1);
        }
      }
    }
  }

  /** A neighbour that no entry lists gets no types. */
  lemma CellTypesOfUnlisted(table: LandTable, n: Cell)
    requires forall k :: 0 <= k < |table| ==> n !in table[k].1
    ensures CellTypes(table, n) == []
  {
    if CellTypes(table, n) != [] {
      TypesUpToMember(table, n, |table|, CellTypes(table, n)[0]);
    }
  }

  /** The dictionary lookup: the position of key `n`, or -1. */
  function Lookup(g: Groups, n: Cell): (r: int)
    ensures -1 <= r < |g|
    ensures r >= 0 ==> g[r].0 == n && forall j :: 0 <= j < r ==> g[j].0 != n
    ensures r < 0 <==> forall j :: 0 <= j < |g| ==> g[j].0 != n
  {
    if g == [] then -1
    else if g[0].0 == n then 0
    else
      var r := Lookup(g[1..], n);
      if r < 0 then -1 else r + 1
  }

  /** `setdefault(n, []).extend(t)` for a non-empty `t`; nothing otherwise
      (the source only touches the dictionary on a hit). */
  function AppendTypes(g: Groups, n: Cell, t: seq<LandType>): Groups {
    if t == [] then g
    else
      var i := Lookup(g, n);
      if i >= 0 then g[i := (n, g[i].1 + t)] else g + [(n, t)]
  }

  /** After a non-empty append under `n`, `n` sits where it was, or at the
      end when it is new, and its list has grown by `t`. */
  lemma LookupAfterAppend(g: Groups, n: Cell, t: seq<LandType>)
    requires t != []
    ensures var i := Lookup(g, n);
      && Lookup(AppendTypes(g, n, t), n) == (if i >= 0 then i else |g|)
      && AppendTypes(g, n, t)[if i >= 0 then i else |g|].1 == (if i >= 0 then g[i].1 + t else t)
  {
    var g1 := AppendTypes(g, n, t);
    var i := Lookup(g, n);
    var i1 := if i >= 0 then i else |g|;
    assert g1[i1].0 == n;
    assert forall j :: 0 <= j < i1 ==> g1[j].0 != n;
  }

  /** Appending in two goes is appending once. */
  lemma AppendTypesTwice(g: Groups, n: Cell, t: seq<LandType>, u: seq<LandType>)
    ensures AppendTypes(AppendTypes(g, n, t), n, u) == AppendTypes(g, n, t + u)
  {
    if t == [] {
      assert t + u == u;
    } else if u == [] {
      assert t + u == t;
    } else {
      var g1 := AppendTypes(g, n, t);
      var i := Lookup(g, n);
      var i1 := if i >= 0 then i else |g|;
      LookupAfterAppend(g, n, t);
      assert |t + u| == |t| + |u|;
      assert AppendTypes(g1, n, u) == g1[i1 := (n, g1[i1].1 + u)];
      if i >= 0 {
        assert g1[i1].1 + u == g[i].1 + (t + u);
        assert g1[i1 := (n, g1[i1].1 + u)] == g[i := (n, g[i].1 + (t + u))];
      } else {
        assert g1[i1 := (n, g1[i1].1 + u)] == g + [(n, t + u)];
      }
    }
  }

  /** Appending under `n` leaves every other key where it was. */
  lemma AppendTypesOther(g: Groups, n: Cell, t: seq<LandType>, m: Cell)
    requires m != n
    ensures Lookup(AppendTypes(g, n, t), m) == Lookup(g, m)
    ensures Lookup(g, m) >= 0 ==> AppendTypes(g, n, t)[Lookup(g, m)] == g[Lookup(g, m)]
  {
    var g1 := AppendTypes(g, n, t);
    var r := Lookup(g, m);
    if r >= 0 {
      assert g1[r].0 == m;
      assert forall j :: 0 <= j < r ==> g1[j].0 != m;
    } else {
      assert forall j :: 0 <= j < |g1| ==> g1[j].0 != m;
    }
  }

  /** The dictionary after the whole grouping pass over `ns`. */
  function Grouped(ns: seq<Cell>, table: LandTable): Groups {
    if ns == [] then []
    else
      var n := ns[|ns| - 1];
      AppendTypes(Grouped(ns[..|ns| - 1], table), n, CellTypes(table, n))
  }

  /** The first loops of `check_vegetation_of_neighbor`. */
  method GroupByNeighbor(neighbors: seq<Cell>, table: LandTable) returns (groups: Groups)
    ensures groups == Grouped(neighbors, table)
  {
    groups := [];
    for m := 0 to |neighbors|
      invariant groups == Grouped(neighbors[..m], table)
    {
      var neighbor := neighbors[m];
      ghost var before := groups;
      for k := 0 to |table|
        invariant groups == AppendTypes(before, neighbor, TypesUpTo(table, neighbor, k))
      {
        var vegetation := VegetationOf(table, k);
        AppendTypesTwice(before, neighbor, TypesUpTo(table, neighbor, k), Hits(table[k].1, neighbor, vegetation));
        groups := ScanEntry(groups, neighbor, table[k].1, vegetation);
      }
      assert neighbors[..m + 1][..m] == neighbors[..m];
    }
    assert neighbors[..|neighbors|] == neighbors;
  }

  /** The innermost loop: every time the entry's cell list holds the
      neighbour, the entry's type is appended under it. */
  method ScanEntry(groups: Groups, neighbor: Cell, nposlist: seq<Cell>, vegetation: LandType)
    returns (g: Groups)
    ensures g == AppendTypes(groups, neighbor, Hits(nposlist, neighbor, vegetation))
  {
    g := groups;
    for p := 0 to |nposlist|
      invariant g == AppendTypes(groups, neighbor, Hits(nposlist[..p], neighbor, vegetation))
    {
      ghost var found := Hits(nposlist[..p], neighbor, vegetation);
      assert nposlist[..p + 1][..p] == nposlist[..p];
      if neighbor == nposlist[p] {
        assert Hits(nposlist[..p + 1], neighbor, vegetation) == found + [vegetation];
        AppendTypesTwice(groups, neighbor, found, [vegetation]);
        g := SetDefaultAppend(g, neighbor, vegetation);
      } else {
        assert Hits(nposlist[..p + 1], neighbor, vegetation) == found + [];
        assert found + [] == found;
      }
    }
    assert nposlist[..|nposlist|] == nposlist;
  }

  /** `d.setdefault(n, []).append(t)`: `t` appended to the list under `n`,
      which is added at the end of the dictionary when absent. */
  method SetDefaultAppend(groups: Groups, n: Cell, t: LandType) returns (g: Groups)
    ensures g == AppendTypes(groups, n, [t])
  {
    var i := Lookup(groups, n);
    if i >= 0 {
      g := groups[i := (n, groups[i].1 + [t])];
    } else {
      g := groups + [(n, [t])];
    }
  }

  /** How many times `n` occurs in `s`. */
  function Occurrences(s: seq<Cell>, n: Cell): (c: nat)
    ensures c == 0 <==> n !in s
  {
    if s == [] then 0
    else
      assert n in s <==> n in s[..|s| - 1] || s[|s| - 1] == n by {
        assert s == s[..|s| - 1] + [s[|s| - 1]];
      }
      Occurrences(s[..|s| - 1], n) + (if s[|s| - 1] == n then 1 else 0)
  }

  /** `c` copies of `t`, one after the other. */
  function Repeat(t: seq<LandType>, c: nat): (r: seq<LandType>)
    ensures c > 0 ==> |r| >= |t|
    ensures forall x :: x in r ==> x in t
  {
    if c == 0 then [] else Repeat(t, c - 1) + t
  }

  /** `list.index` is not moved by an element appended at the end. */
  lemma IndexOfExtend(s: seq<Cell>, y: Cell, x: Cell)
    requires x in s
    ensures IndexOf(s + [y], x) == IndexOf(s, x)
  {
    var k := IndexOf(s, x);
    assert (s + [y])[k] == x;
    assert (s + [y])[..k] == s[..k];
  }

  /** A new element appended at the end is found at the end. */
  lemma IndexOfNew(s: seq<Cell>, x: Cell)
    requires x !in s
    ensures IndexOf(s + [x], x) == |s|
  {
  }

  /** The dictionary holds exactly the neighbours for which the table records
      a type, and each one's list is its types once per time it occurs in
      `ns`. */
  lemma {:induction false} GroupedEntries(ns: seq<Cell>, table: LandTable, n: Cell)
    ensures Lookup(Grouped(ns, table), n) >= 0 <==> n in ns && CellTypes(table, n) != []
    ensures Lookup(Grouped(ns, table), n) >= 0 ==>
      Grouped(ns, table)[Lookup(Grouped(ns, table), n)].1 == Repeat(CellTypes(table, n), Occurrences(ns, n))
  {
    if ns != [] {
      var pre := ns[..|ns| - 1];
      var m := ns[|ns| - 1];
      assert ns == pre + [m];
      GroupedEntries(pre, table, n);
      var g0 := Grouped(pre, table);
      var t := CellTypes(table, m);
      var g := Grouped(ns, table);
      assert g == AppendTypes(g0, m, t);
      assert n in ns <==> n in pre || n == m;
      var c0 := Occurrences(pre, n);
      if n != m {
        AppendTypesOther(g0, m, t, n);
        assert Occurrences(ns, n) == c0;
      } else if t == [] {
        assert g == g0;
      } else {
        LookupAfterAppend(g0, m, t);
        assert Occurrences(ns, n) == c0 + 1;
        RepeatOnce(t, c0);
        if Lookup(g0, n) < 0 {
          assert c0 == 0;
          assert Repeat(t, c0) + t == t;
        }
      }
    }
  }

  lemma RepeatOnce(t: seq<LandType>, c: nat)
    ensures Repeat(t, c + 1) == Repeat(t, c) + t
  {
  }

  /** The dictionary's keys are distinct neighbours, in the order of their
      first occurrence in `ns`. */
  lemma {:induction false} GroupedOrder(ns: seq<Cell>, table: LandTable)
    ensures forall a :: 0 <= a < |Grouped(ns, table)| ==> Grouped(ns, table)[a].0 in ns
    ensures forall a, b :: 0 <= a < b < |Grouped(ns, table)| ==>
      IndexOf(ns, Grouped(ns, table)[a].0) < IndexOf(ns, Grouped(ns, table)[b].0)
  {
    if ns != [] {
      var pre := ns[..|ns| - 1];
      var m := ns[|ns| - 1];
      assert ns == pre + [m];
      GroupedOrder(pre, table);
      var g0 := Grouped(pre, table);
      var g := Grouped(ns, table);
      var t := CellTypes(table, m);
      assert g == AppendTypes(g0, m, t);
      AppendTypesKeys(g0, m, t);
      forall a | 0 <= a < |g0|
        ensures g[a].0 in pre && IndexOf(ns, g[a].0) == IndexOf(pre, g[a].0)
      {
        IndexOfExtend(pre, m, g0[a].0);
      }
      if |g| > |g0| {
        GroupedEntries(pre, table, m);
        IndexOfNew(pre, m);
      }
    }
  }

  /** An append keeps every key where it was, and adds the key at the end
      only when it is new and something is appended. */
  lemma AppendTypesKeys(g: Groups, n: Cell, t: seq<LandType>)
    ensures var r := AppendTypes(g, n, t);
      && |g| <= |r| <= |g| + 1
      && (forall a :: 0 <= a < |g| ==> r[a].0 == g[a].0)
      && (|r| > |g| ==> r[|g|].0 == n && t != [] && Lookup(g, n) < 0)
  {
  }

  /** Each entry of the dictionary: a neighbour with types, occurring in
      `ns`, listed with its types once per occurrence. */
  lemma GroupedEntry(ns: seq<Cell>, table: LandTable, a: nat)
    requires a < |Grouped(ns, table)|
    ensures var e := Grouped(ns, table)[a];
      && e.0 in ns && CellTypes(table, e.0) != []
      && e.1 == Repeat(CellTypes(table, e.0), Occurrences(ns, e.0))
      && e.1 != []
  {
    var g := Grouped(ns, table);
    var n := g[a].0;
    GroupedOrder(ns, table);
    GroupedEntries(ns, table, n);
    var r := Lookup(g, n);
    assert r == a;
    assert Occurrences(ns, n) >= 1;
  }

  /** A neighbour that no table entry lists is not in the dictionary. */
  lemma UnlistedNeighborNotGrouped(ns: seq<Cell>, table: LandTable, n: Cell)
    requires forall k :: 0 <= k < |table| ==> n !in table[k].1
    ensures Lookup(Grouped(ns, table), n) < 0
  {
    CellTypesOfUnlisted(table, n);
    GroupedEntries(ns, table, n);
  }

  /** A neighbour met once, for which the table records one type, is grouped
      with that type alone, and resolution passes it through. */
  lemma SingleTypeNeighbor(ns: seq<Cell>, table: LandTable, n: Cell, t: LandType)
    requires Occurrences(ns, n) == 1 && CellTypes(table, n) == [t]
    ensures Lookup(Grouped(ns, table), n) >= 0
    ensures Grouped(ns, table)[Lookup(Grouped(ns, table), n)].1 == [t]
    ensures Resolve([t]) == [t]
  {
    GroupedEntries(ns, table, n);
    assert Repeat([t], 1) == [t];
  }

  /** The types every neighbour group contributes, in dictionary order. */
  function ResolvedAll(g: Groups): seq<LandType> {
    if g == [] then [] else ResolvedAll(g[..|g| - 1]) + Resolve(g[|g| - 1].1)
  }

  /** Contributions follow the dictionary's order: the contribution of two
      runs of groups is the first run's followed by the second's. */
  lemma {:induction false} ResolvedAllAppend(g1: Groups, g2: Groups)
    ensures ResolvedAll(g1 + g2) == ResolvedAll(g1) + ResolvedAll(g2)
    decreases |g2|
  {
    if g2 != [] {
      var g2' := g2[..|g2| - 1];
      assert (g1 + g2)[..|g1 + g2| - 1] == g1 + g2';
      ResolvedAllAppend(g1, g2');
    } else {
      assert g1 + g2 == g1;
    }
  }

  /** Every group with at least one type contributes at least one type. */
  lemma {:induction false} ResolvedAllLength(g: Groups)
    requires forall a :: 0 <= a < |g| ==> g[a].1 != []
    ensures |ResolvedAll(g)| >= |g|
  {
    if g != [] {
      ResolvedAllLength(g[..|g| - 1]);
      ResolveNonEmpty(g[|g| - 1].1);
    }
  }

  /** Every contributed type is one the groups hold. */
  lemma {:induction false} ResolvedAllWithin(g: Groups, x: LandType)
    requires x in ResolvedAll(g)
    ensures exists a :: 0 <= a < |g| && x in g[a].1
  {
    if g != [] {
      var last := g[|g| - 1];
      if x in Resolve(last.1) {
        ResolveWithin(last.1);
        assert x in g[|g| - 1].1;
      } else {
        ResolvedAllWithin(g[..|g| - 1], x);
        var a :| 0 <= a < |g| - 1 && x in g[..|g| - 1][a].1;
        assert x in g[a].1;
      }
    }
  }

  /** `check_vegetation_of_neighbor`: the grouping pass, then every group's
      resolved types appended in dictionary order. */
  method CheckVegetation(neighbors: seq<Cell>, table: LandTable) returns (r: seq<LandType>)
    ensures r == ResolvedAll(Grouped(neighbors, table))
  {
    var groups := GroupByNeighbor(neighbors, table);
    r := [];
    for g := 0 to |groups|
      invariant r == ResolvedAll(groups[..g])
    {
      var values := ResolveTypes(groups[g].1);
      assert groups[..g + 1][..g] == groups[..g];
      r := r + values;
    }
    assert groups[..|groups|] == groups;
  }

  /** Every type `check_vegetation_of_neighbor` returns is a key of the table
      recorded for one of the neighbours, and each neighbour the table knows
      contributes at least one. */
  lemma CheckVegetationSound(neighbors: seq<Cell>, table: LandTable, x: LandType)
    requires x in ResolvedAll(Grouped(neighbors, table))
    ensures exists j, n :: 0 <= j < |table| && n in neighbors && n in table[j].1 && x == table[j].0
  {
    var g := Grouped(neighbors, table);
    ResolvedAllWithin(g, x);
    var a :| 0 <= a < |g| && x in g[a].1;
    GroupedEntry(neighbors, table, a);
    var n := g[a].0;
    assert x in CellTypes(table, n);
    TypesUpToMember(table, n, |table|, x);
    var k :| 0 <= k < |table| && n in table[k].1 && x == VegetationOf(table, k);
    var j :| 0 <= j <= k && table[j].1 == table[k].1 && x == table[j].0;
    assert n in table[j].1;
  }

  /** One contribution at least per neighbour the table knows. */
  lemma CheckVegetationLength(neighbors: seq<Cell>, table: LandTable)
    ensures |ResolvedAll(Grouped(neighbors, table))| >= |Grouped(neighbors, table)|
  {
    var g := Grouped(neighbors, table);
    forall a | 0 <= a < |g| ensures g[a].1 != [] {
      GroupedEntry(neighbors, table, a);
    }
    ResolvedAllLength(g);
  }
}
