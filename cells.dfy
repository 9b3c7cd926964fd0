/**
 * A search node (`Cell`): a square, the two running values, the visited
 * table of its path and the list of nodes on that path. The table is a
 * mutable 2-D grid of flags that the constructor marks in place.
 */
module Cells {
  import opened Grid

  /** What a node stands for, as a value: its square, its two running values and the squares of its path. */
  datatype Node = Node(pos: Pos, pathValue: int, goalValue: int, trail: seq<Pos>)

  /**
   * `Cell.__hash__`, kept as a tuple instead of the joined string: the table
   * row by row, the position, and the two running values.
   */
  datatype HashKey = HashKey(table: seq<seq<bool>>, row: int, col: int, pathValue: int, goalValue: int)

  /** The values `Cell.__eq__` can be handed: another cell, or a hash string. */
  datatype Obj = CellRef(cell: Cell) | HashString(key: HashKey)

  class Cell {
    const row: int
    const col: int
    var pathValue: int
    var pathCost: int
    var path: seq<Cell>
    var goalValue: int
    const table: array2<bool>

    /**
     * Stores its arguments as given and marks its own square in `table`,
     * which it shares with the caller rather than copying.
     */
    constructor(row: int, col: int, table: array2<bool>, pathValue: int, goalValue: int, path: seq<Cell>,
                pathCost: int := 0)
      requires 0 <= row < table.Length0 && 0 <= col < table.Length1
      modifies table
      ensures this.row == row && this.col == col && this.table == table
      ensures this.pathValue == pathValue && this.goalValue == goalValue
      ensures this.path == path && this.pathCost == pathCost
      ensures table[row, col]
      ensures forall i, j :: 0 <= i < table.Length0 && 0 <= j < table.Length1 && (i != row || j != col) ==>
                table[i, j] == old(table[i, j])
    {
      this.row := row;
      this.col := col;
      this.pathValue := pathValue;
      this.pathCost := pathCost;
      this.path := path;
      this.goalValue := goalValue;
      this.table := table;
      new;
      table[row, col] := true;
    }

    /** `__eq__`: the other object is a cell on the same square. */
    function Equals(other: Obj): (r: bool)
      ensures r ==> other.CellRef?
      ensures other == CellRef(this) ==> r
    {
      match other
      case CellRef(c) => c.row == row && c.col == col
      case HashString(_) => false
    }

    /** `__hash__`: every flag of the table, the square and the two running values. */
    function Hash(): (k: HashKey)
      reads this, table
      ensures |k.table| == table.Length0
      ensures forall i, j :: 0 <= i < table.Length0 && 0 <= j < table.Length1 ==> j < |k.table[i]| && k.table[i][j] == table[i, j]
      ensures (k.row, k.col, k.pathValue, k.goalValue) == (row, col, pathValue, goalValue)
    {
      HashKey(Rows(table), row, col, pathValue, goalValue)
    }

    /** `__str__`: the square, 1-indexed. */
    function Str(): (s: (int, int))
      ensures Pos(s.0 - 1, s.1 - 1) == Pos(row, col)
    {
      (row + 1, col + 1)
    }
  }

  /** The contents of a table, row by row. */
  function Rows(t: array2<bool>): (rows: seq<seq<bool>>)
    reads t
    ensures |rows| == t.Length0
    ensures forall i :: 0 <= i < t.Length0 ==> |rows[i]| == t.Length1
    ensures forall i, j :: 0 <= i < t.Length0 && 0 <= j < t.Length1 ==> rows[i][j] == t[i, j]
  {
    seq(t.Length0, i requires 0 <= i < t.Length0 reads t =>
      seq(t.Length1, j requires 0 <= j < t.Length1 reads t => t[i, j]))
  }

  /** `list.__contains__` on a list of cells: some element is the object itself or equal to it. */
  predicate ListContains(xs: seq<Cell>, x: Obj)
  {
    exists i :: 0 <= i < |xs| && (x == CellRef(xs[i]) || xs[i].Equals(x))
  }

  /** The squares of a path, in order. */
  function Positions(path: seq<Cell>): (ps: seq<Pos>)
    ensures |ps| == |path|
  {
    if path == [] then [] else Positions(path[..|path| - 1]) + [Pos(path[|path| - 1].row, path[|path| - 1].col)]
  }

  /** The i-th square of a path is the square of its i-th cell. */
  lemma {:induction false} PositionsAt(path: seq<Cell>, i: nat)
    requires i < |path|
    ensures Positions(path)[i] == Pos(path[i].row, path[i].col)
  {
    if i < |path| - 1 {
      PositionsAt(path[..|path| - 1], i);
    }
  }

  /** The node a cell stands for. */
  function Snap(c: Cell): Node
    reads c
  {
    Node(Pos(c.row, c.col), c.pathValue, c.goalValue, Positions(c.path))
  }

  /** The cell lies on the board and its table has the board's shape. */
  predicate Fits(c: Cell, b: Board)
  {
    c.table.Length0 == b.m && c.table.Length1 == b.n && InBounds(b, Pos(c.row, c.col))
  }

  /** The cell's table marks exactly the squares of its path. */
  ghost predicate Marks(c: Cell)
    reads c, c.table
  {
    forall i, j :: 0 <= i < c.table.Length0 && 0 <= j < c.table.Length1 ==>
      (c.table[i, j] <==> Pos(i, j) in Positions(c.path))
  }

  lemma PositionsAppend(path: seq<Cell>, c: Cell)
    ensures Positions(path + [c]) == Positions(path) + [Pos(c.row, c.col)]
  {
  }

  // Equality and hashing

  /** Equality is an equivalence relation on cells. */
  lemma EqualsIsEquivalence(c: Cell, d: Cell, e: Cell)
    ensures c.Equals(CellRef(c))
    ensures c.Equals(CellRef(d)) ==> d.Equals(CellRef(c))
    ensures c.Equals(CellRef(d)) && d.Equals(CellRef(e)) ==> c.Equals(CellRef(e))
  {
  }

  /** Equal hash keys imply equal cells. */
  lemma HashDeterminesEquality(c: Cell, d: Cell)
    requires c.Hash() == d.Hash()
    ensures c.Equals(CellRef(d))
  {
  }

  /** The converse fails: two cells on one square with different running values are equal but hash apart. */
  lemma EqualityIgnoresValues(c: Cell, d: Cell)
    requires c.row == d.row && c.col == d.col && c.pathValue != d.pathValue
    ensures c.Equals(CellRef(d))
    ensures c.Hash() != d.Hash()
  {
  }

  /** A cell never equals a hash string, so a hash string is never found in a list of cells. */
  lemma HashStringNeverInCellList(xs: seq<Cell>, k: HashKey)
    ensures !ListContains(xs, HashString(k))
  {
  }

  /** Two cells print alike exactly when they are equal. */
  lemma StrAgreesWithEquals(c: Cell, d: Cell)
    ensures c.Str() == d.Str() <==> c.Equals(CellRef(d))
  {
  }
}
