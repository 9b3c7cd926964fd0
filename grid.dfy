/**
 * The board the search runs over: an m-by-n grid whose squares each hold a
 * token, an operator character followed by an integer operand (`+3`, `w0`,
 * `s0`, `g12`). Loading the board from text is not part of this model; a
 * board is given here as rows of already split (operator, operand) pairs.
 */
module Grid {

  datatype Option<T> = None | Some(value: T)

  /** A square of the grid, 0-indexed. */
  datatype Pos = Pos(row: int, col: int)

  /** One square's token: its operator character and its operand. */
  datatype Token = Token(op: char, operand: int)

  datatype Board = Board(m: nat, n: nat, cells: seq<seq<Token>>)

  /** The operator characters a board may hold, once lower-cased. */
  const Operators: set<char> := {'+', '-', '*', '^', 'a', 'b', 's', 'g', 'w'}

  /** ASCII lower-casing, what `str.lower` does to an operator character. */
  function Lower(c: char): char
  {
    if 'A' <= c <= 'Z' then (c as int + 32) as char else c
  }

  /**
   * A well-formed board: m rows of n tokens, every operator one of the
   * known characters, every operand non-negative (so that `^` stays an
   * integer power).
   */
  predicate Valid(b: Board)
  {
    && |b.cells| == b.m
    && (forall r :: 0 <= r < b.m ==> |b.cells[r]| == b.n)
    && (forall r, c :: 0 <= r < b.m && 0 <= c < b.n ==>
          Lower(b.cells[r][c].op) in Operators && b.cells[r][c].operand >= 0)
  }

  predicate InBounds(b: Board, p: Pos)
  {
    0 <= p.row < b.m && 0 <= p.col < b.n
  }

  /** The lower-cased operator of a square (`Find.__get_opt`). */
  function OptAt(b: Board, row: int, col: int): (op: char)
    requires Valid(b) && InBounds(b, Pos(row, col))
    ensures op in Operators
  {
    Lower(b.cells[row][col].op)
  }

  /** The operand of a square (`Find.__get_number`). */
  function NumberAt(b: Board, row: int, col: int): (k: nat)
    requires Valid(b) && InBounds(b, Pos(row, col))
    ensures Token(b.cells[row][col].op, k) == b.cells[row][col]
  {
    b.cells[row][col].operand
  }

  /** No square multiplies or raises to a power. */
  predicate ScaleFree(b: Board)
    requires Valid(b)
  {
    forall r, c :: 0 <= r < b.m && 0 <= c < b.n ==> OptAt(b, r, c) != '*' && OptAt(b, r, c) != '^'
  }

  /** The two squares share a side. */
  predicate Adjacent(p: Pos, q: Pos)
  {
    || (q.row == p.row && (q.col == p.col - 1 || q.col == p.col + 1))
    || (q.col == p.col && (q.row == p.row - 1 || q.row == p.row + 1))
  }
}
