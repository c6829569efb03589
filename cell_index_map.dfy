/** The two orientation tables of a 6x6 sensing module: entry `i` gives the
    (row, column) cell that the `i`-th number of a serial line lands in.
    The identity table walks the grid in 2x2 blocks, not row by row. */
module CellIndexMap {
  /** A (row, column) position inside a module grid. */
  type Cell = (nat, nat)

  const SIDE: nat := 6
  const CELLS: nat := 36

  const CELL_INDEX_MAP: seq<Cell> := [
    (0,0), (0,1), (1,0), (1,1),
    (0,2), (0,3), (1,2), (1,3),
    (0,4), (0,5), (1,4), (1,5),

    (2,0), (2,1), (3,0), (3,1),
    (2,2), (2,3), (3,2), (3,3),
    (2,4), (2,5), (3,4), (3,5),

    (4,0), (4,1), (5,0), (5,1),
    (4,2), (4,3), (5,2), (5,3),
    (4,4), (4,5), (5,4), (5,5)
  ]

  const CELL_INDEX_MAP_180: seq<Cell> := [
    (5,5), (5,4), (4,5), (4,4),
    (5,3), (5,2), (4,3), (4,2),
    (5,1), (5,0), (4,1), (4,0),

    (3,5), (3,4), (2,5), (2,4),
    (3,3), (3,2), (2,3), (2,2),
    (3,1), (3,0), (2,1), (2,0),

    (1,5), (1,4), (0,5), (0,4),
    (1,3), (1,2), (0,3), (0,2),
    (1,1), (1,0), (0,1), (0,0)
  ]

  predicate InGrid(p: Cell) { p.0 < SIDE && p.1 < SIDE }

  /** A table that sends the indices 0..35 to pairwise distinct cells and
      reaches every cell of the grid. */
  ghost predicate IsBijection(m: seq<Cell>)
  {
    |m| == CELLS &&
    (forall i :: 0 <= i < |m| ==> InGrid(m[i])) &&
    (forall i, j :: 0 <= i < j < |m| ==> m[i] != m[j]) &&
    (forall r: nat, c: nat :: r < SIDE && c < SIDE ==> Reaches(m, r, c))
  }

  /** Some entry of m is the cell (r, c). */
  ghost predicate Reaches(m: seq<Cell>, r: nat, c: nat)
  {
    exists i :: 0 <= i < |m| && m[i] == (r, c)
  }

  /** Where the identity table puts the cell (r, c): each pair of rows takes
      12 entries, each pair of columns 4 within it, and the 2x2 block is
      walked row by row. */
  function BlockIndex(r: nat, c: nat): nat
  {
    RowOffset(r) + ColumnOffset(c)
  }

  /** 12 * (r / 2) + 2 * (r % 2), written out for r < 6. */
  function RowOffset(r: nat): nat
  {
    if r == 0 then 0 else if r == 1 then 2 else if r == 2 then 12
    else if r == 3 then 14 else if r == 4 then 24 else 26
  }

  /** 4 * (c / 2) + c % 2, written out for c < 6. */
  function ColumnOffset(c: nat): nat
  {
    if c == 0 then 0 else if c == 1 then 1 else if c == 2 then 4
    else if c == 3 then 5 else if c == 4 then 8 else 9
  }

  /** Half-turn of a cell inside the grid. */
  function HalfTurn(p: Cell): (q: Cell)
    requires InGrid(p)
    ensures InGrid(q) && (5 - q.0, 5 - q.1) == p
  {
    (5 - p.0, 5 - p.1)
  }

  lemma Below12(i: int, lo: int)
    requires lo <= i < lo + 12
    ensures i == lo || i == lo + 1 || i == lo + 2 || i == lo + 3 || i == lo + 4 || i == lo + 5 ||
      i == lo + 6 || i == lo + 7 || i == lo + 8 || i == lo + 9 || i == lo + 10 || i == lo + 11
  {
  }

  lemma Below6(i: int)
    requires 0 <= i < 6
    ensures i == 0 || i == 1 || i == 2 || i == 3 || i == 4 || i == 5
  {
  }

  /** A table with a two-sided inverse `inv` is a bijection onto the grid. */
  lemma BijectionFromInverse(m: seq<Cell>, inv: Cell -> nat)
    requires |m| == CELLS
    requires forall i :: 0 <= i < |m| ==> InGrid(m[i]) && inv(m[i]) == i
    requires forall r: nat, c: nat :: r < SIDE && c < SIDE ==> inv((r, c)) < |m| && m[inv((r, c))] == (r, c)
    ensures IsBijection(m)
  {
    forall r: nat, c: nat | r < SIDE && c < SIDE ensures Reaches(m, r, c) {
      var i := inv((r, c));
      assert m[i] == (r, c);
    }
  }

  /** BlockIndex undoes the identity table. */
  lemma IdentityUndone()
    ensures forall i :: 0 <= i < |CELL_INDEX_MAP| ==>
      InGrid(CELL_INDEX_MAP[i]) && BlockIndex(CELL_INDEX_MAP[i].0, CELL_INDEX_MAP[i].1) == i
  {
    forall i | 0 <= i < |CELL_INDEX_MAP|
      ensures InGrid(CELL_INDEX_MAP[i]) && BlockIndex(CELL_INDEX_MAP[i].0, CELL_INDEX_MAP[i].1) == i
    {
      if i < 12 {
        Below12(i, 0);
      } else if i < 24 {
        Below12(i, 12);
      } else {
        Below12(i, 24);
      }
    }
  }

  /** The identity table reaches every cell, at the index BlockIndex gives. */
  lemma IdentityReaches()
    ensures forall r: nat, c: nat :: r < SIDE && c < SIDE ==>
      BlockIndex(r, c) < |CELL_INDEX_MAP| && CELL_INDEX_MAP[BlockIndex(r, c)] == (r, c)
  {
    forall r: nat, c: nat | r < SIDE && c < SIDE
      ensures BlockIndex(r, c) < |CELL_INDEX_MAP| && CELL_INDEX_MAP[BlockIndex(r, c)] == (r, c)
    {
      IdentityReachesRow(r);
    }
  }

  lemma IdentityReachesRow(r: nat)
    requires r < SIDE
    ensures forall c: nat :: c < SIDE ==>
      BlockIndex(r, c) < |CELL_INDEX_MAP| && CELL_INDEX_MAP[BlockIndex(r, c)] == (r, c)
  {
    forall c: nat | c < SIDE
      ensures BlockIndex(r, c) < |CELL_INDEX_MAP| && CELL_INDEX_MAP[BlockIndex(r, c)] == (r, c)
    {
      Below6(c);
      if r == 0 {
      } else if r == 1 {
      } else if r == 2 {
      } else if r == 3 {
      } else if r == 4 {
      } else {
        assert r == 5;
      }
    }
  }

  /** The identity table is a bijection onto the 6x6 grid. */
  lemma IdentityIsBijection()
    ensures IsBijection(CELL_INDEX_MAP)
  {
    IdentityUndone();
    IdentityReaches();
    BijectionFromInverse(CELL_INDEX_MAP, (p: Cell) => BlockIndex(p.0, p.1));
  }

  /** The second table is the half-turn of the first, entry by entry. */
  lemma RotatedIsHalfTurn()
    ensures |CELL_INDEX_MAP_180| == |CELL_INDEX_MAP| == CELLS
    ensures forall i :: 0 <= i < CELLS ==>
      InGrid(CELL_INDEX_MAP[i]) && CELL_INDEX_MAP_180[i] == HalfTurn(CELL_INDEX_MAP[i])
  {
    IdentityUndone();
    RotatedCoordinates();
  }

  /** Entry by entry, the second table's coordinates are 5 less the first's. */
  lemma RotatedCoordinates()
    ensures |CELL_INDEX_MAP_180| == |CELL_INDEX_MAP| == CELLS
    ensures forall i :: 0 <= i < CELLS ==>
      CELL_INDEX_MAP_180[i] == (5 - CELL_INDEX_MAP[i].0, 5 - CELL_INDEX_MAP[i].1)
  {
    forall i | 0 <= i < CELLS
      ensures CELL_INDEX_MAP_180[i] == (5 - CELL_INDEX_MAP[i].0, 5 - CELL_INDEX_MAP[i].1)
    {
      if i < 12 {
        Below12(i, 0);
      } else if i < 24 {
        Below12(i, 12);
      } else {
        Below12(i, 24);
      }
    }
  }

  /** The half-turn of a bijection onto the grid is a bijection onto the grid. */
  lemma HalfTurnOfBijection(id: seq<Cell>, m: seq<Cell>)
    requires IsBijection(id) && |m| == |id|
    requires forall i :: 0 <= i < |m| ==> InGrid(id[i]) && m[i] == HalfTurn(id[i])
    ensures IsBijection(m)
  {
    forall i, j | 0 <= i < j < |m| ensures m[i] != m[j] {
      assert id[i] != id[j];
    }
    forall r: nat, c: nat | r < SIDE && c < SIDE ensures Reaches(m, r, c) {
      var r', c' : nat := 5 - r, 5 - c;
      assert Reaches(id, r', c');
      var i :| 0 <= i < |id| && id[i] == (r', c');
      assert m[i] == (r, c);
    }
  }

  /** The rotated table is a bijection onto the 6x6 grid as well. */
  lemma RotatedIsBijection()
    ensures IsBijection(CELL_INDEX_MAP_180)
  {
    IdentityIsBijection();
    RotatedIsHalfTurn();
    HalfTurnOfBijection(CELL_INDEX_MAP, CELL_INDEX_MAP_180);
  }

  /** The table `read_cells` picks: direction 0 is the identity, any other
      value the half turn. */
  function TableFor(direction: int): (m: seq<Cell>)
    ensures |m| == CELLS
    ensures direction == 0 ==> m == CELL_INDEX_MAP
    ensures direction != 0 ==> m == CELL_INDEX_MAP_180
    ensures forall i :: 0 <= i < |m| ==> InGrid(m[i])
  {
    IdentityUndone();
    RotatedIsHalfTurn();
    if direction == 0 then CELL_INDEX_MAP else CELL_INDEX_MAP_180
  }

  /** The index at which TableFor(direction) holds the cell (r, c). */
  function PositionIn(direction: int, r: nat, c: nat): nat
    requires r < SIDE && c < SIDE
  {
    if direction == 0 then BlockIndex(r, c) else BlockIndex(5 - r, 5 - c)
  }

  /** PositionIn(direction, _, _) undoes `table` on both sides. */
  ghost predicate Inverts(table: seq<Cell>, direction: int)
  {
    |table| == CELLS &&
    (forall i :: 0 <= i < CELLS ==> InGrid(table[i]) && PositionIn(direction, table[i].0, table[i].1) == i) &&
    (forall r: nat, c: nat :: r < SIDE && c < SIDE ==>
      PositionIn(direction, r, c) < CELLS && table[PositionIn(direction, r, c)] == (r, c))
  }

  /** PositionIn is a two-sided inverse of the chosen table. */
  lemma TableInverse(direction: int)
    ensures Inverts(TableFor(direction), direction)
  {
    IdentityUndone();
    IdentityReaches();
    if direction == 0 {
      IdentityInverse(CELL_INDEX_MAP, direction);
    } else {
      RotatedCoordinates();
      HalfTurnInverse(CELL_INDEX_MAP, CELL_INDEX_MAP_180, direction);
    }
  }

  lemma IdentityInverse(id: seq<Cell>, direction: int)
    requires direction == 0 && |id| == CELLS
    requires forall i :: 0 <= i < CELLS ==> InGrid(id[i]) && BlockIndex(id[i].0, id[i].1) == i
    requires forall r: nat, c: nat :: r < SIDE && c < SIDE ==> BlockIndex(r, c) < CELLS && id[BlockIndex(r, c)] == (r, c)
    ensures forall i :: 0 <= i < CELLS ==> InGrid(id[i]) && PositionIn(direction, id[i].0, id[i].1) == i
    ensures forall r: nat, c: nat :: r < SIDE && c < SIDE ==>
      PositionIn(direction, r, c) < CELLS && id[PositionIn(direction, r, c)] == (r, c)
  {
  }

  lemma HalfTurnInverse(id: seq<Cell>, m: seq<Cell>, direction: int)
    requires direction != 0 && |id| == |m| == CELLS
    requires forall i :: 0 <= i < CELLS ==> InGrid(id[i]) && BlockIndex(id[i].0, id[i].1) == i
    requires forall r: nat, c: nat :: r < SIDE && c < SIDE ==> BlockIndex(r, c) < CELLS && id[BlockIndex(r, c)] == (r, c)
    requires forall i :: 0 <= i < CELLS ==> m[i].0 + id[i].0 == 5 && m[i].1 + id[i].1 == 5
    ensures forall i :: 0 <= i < CELLS ==> InGrid(m[i]) && PositionIn(direction, m[i].0, m[i].1) == i
    ensures forall r: nat, c: nat :: r < SIDE && c < SIDE ==>
      PositionIn(direction, r, c) < CELLS && m[PositionIn(direction, r, c)] == (r, c)
  {
    forall i | 0 <= i < CELLS
      ensures InGrid(m[i]) && PositionIn(direction, m[i].0, m[i].1) == i
    {
      var (r, c) := id[i];
      assert InGrid((r, c)) && BlockIndex(r, c) == i;
      assert m[i] == (5 - r, 5 - c);
    }
    forall r: nat, c: nat | r < SIDE && c < SIDE
      ensures PositionIn(direction, r, c) < CELLS && m[PositionIn(direction, r, c)] == (r, c)
    {
      var r', c' : nat := 5 - r, 5 - c;
      var k := BlockIndex(r', c');
      assert k < CELLS && id[k] == (r', c');
      assert m[k].0 + r' == 5 && m[k].1 + c' == 5;
    }
  }
}
