/** The two-dimensional cursor of a result set (connector/SQLTypeConnector.h).

    The source keeps a row and a column of type `size_t`; here they are `Word`s, and every
    sum, difference and product the source lets wrap is reduced modulo `WORD` explicitly. */
module Cursor {

  const WORD: int := 0x1_0000_0000_0000_0000

  type Word = x: int | 0 <= x < WORD

  function AddW(a: Word, b: Word): Word { if a + b < WORD then a + b else a + b - WORD }

  function SubW(a: Word, b: Word): Word { if b <= a then a - b else a - b + WORD }

  function MulW(a: Word, b: Word): Word { (a * b) % WORD }

  function AtLeastOne(n: nat): nat { if n == 0 then 1 else n }

  /** A place in a table read row by row: a flat index, or past the last cell. */
  datatype Position = At(p: nat) | End

  /** The reference meaning of "move forward by n cells" in a table of `total` cells. */
  function Advance(pos: Position, n: nat, total: nat): Position
  {
    match pos
    case End => End
    case At(p) => if p + n < total then At(p + n) else End
  }

  /** Moving by a and then by b is moving by a + b. */
  lemma AdvanceAdds(pos: Position, a: nat, b: nat, total: nat)
    ensures Advance(Advance(pos, a, total), b, total) == Advance(pos, a + b, total)
  {
  }

  /** True when jumping `n` cells from row `row` does not wrap the row counter into the table:
      no whole-row jump is made, or it does not overflow, or it overflows to a row past the end. */
  predicate JumpSafe(row: nat, n: nat, rows: nat, cols: nat)
    requires cols > 0
  {
    n <= cols || row + n / cols < WORD || row + n / cols - WORD >= rows
  }

  // ----- rows, columns and flat indices

  /** The flat index of the first cell of row r. */
  function RowStart(r: nat, cols: nat): nat
  {
    if r == 0 then 0 else RowStart(r - 1, cols) + cols
  }

  /** The row of the cell with flat index p. */
  function RowOf(p: nat, cols: nat): nat
    requires cols > 0
  {
    if p < cols then 0 else RowOf(p - cols, cols) + 1
  }

  /** The column of the cell with flat index p. */
  function ColOf(p: nat, cols: nat): (c: nat)
    requires cols > 0
    ensures c < cols
  {
    if p < cols then p else ColOf(p - cols, cols)
  }

  /** Row, column and flat index determine each other. */
  lemma {:induction false} Locate(row: nat, col: nat, cols: nat)
    requires col < cols
    ensures RowOf(RowStart(row, cols) + col, cols) == row
    ensures ColOf(RowStart(row, cols) + col, cols) == col
  {
    if row > 0 {
      Locate(row - 1, col, cols);
    }
  }

  /** Comparing flat indices is comparing rows, whatever the column. */
  lemma {:induction false} RowBound(row: nat, col: nat, rows: nat, cols: nat)
    requires col < cols
    ensures RowStart(row, cols) + col < RowStart(rows, cols) <==> row < rows
    ensures row < rows ==> RowStart(row, cols) + cols <= RowStart(rows, cols)
    decreases rows
  {
    if rows > 0 && row > 0 {
      RowBound(row - 1, col, rows - 1, cols);
    }
  }

  lemma {:induction false} RowStartAdds(a: nat, b: nat, cols: nat)
    ensures RowStart(a + b, cols) == RowStart(a, cols) + RowStart(b, cols)
  {
    if b > 0 {
      RowStartAdds(a, b - 1, cols);
    }
  }

  lemma {:induction false} RowStartIsProduct(r: nat, cols: nat)
    ensures RowStart(r, cols) == r * cols
  {
    if r > 0 {
      RowStartIsProduct(r - 1, cols);
    }
  }

  /** The reference is the usual row-major arithmetic: products, quotients and remainders. */
  lemma {:induction false} RowMajor(p: nat, cols: nat)
    requires cols > 0
    ensures RowOf(p, cols) == p / cols
    ensures ColOf(p, cols) == p % cols
  {
    if p < cols {
      DivideUnique(p, 0, p, cols);
    } else {
      RowMajor(p - cols, cols);
      MinusOneRow(p, cols);
    }
  }

  lemma MinusOneRow(p: nat, cols: nat)
    requires 0 < cols <= p
    ensures p / cols == (p - cols) / cols + 1
    ensures p % cols == (p - cols) % cols
  {
    var q, m := (p - cols) / cols, (p - cols) % cols;
    assert p == (q + 1) * cols + m;
    DivideUnique(p, q + 1, m, cols);
  }

  lemma DivideUnique(p: nat, q: nat, m: nat, cols: nat)
    requires m < cols && p == q * cols + m
    ensures p / cols == q && p % cols == m
  {
    var d := p / cols;
    if d < q {
      MulMonotone(d + 1, q, cols);
    } else if d > q {
      MulMonotone(q + 1, d, cols);
    }
  }

  lemma MulMonotone(a: int, b: int, c: nat)
    requires a <= b
    ensures a * c <= b * c
  {
    assert (b - a) * c >= 0;
    assert (b - a) * c == b * c - a * c;
  }

  /** Where a cursor at (row, col) lands after n cells: n / cols whole rows down and n % cols cells
      on, with at most one carry. */
  function Landing(row: nat, col: nat, n: nat, cols: nat): (landed: (nat, nat))
    requires col < cols
    ensures landed.1 < cols
  {
    var c := col + n % cols;
    var r := row + n / cols;
    if c < cols then (r, c) else (r + 1, c - cols)
  }

  lemma RowsAndCells(n: nat, q: nat, cols: nat)
    requires cols > 0 && q == n / cols
    ensures n == RowStart(q, cols) + n % cols
  {
    WholePart(n, cols);
    RowStartIsProduct(q, cols);
  }

  /** The two-dimensional step is the flat one. */
  lemma LandingRefinesAdvance(row: nat, col: nat, n: nat, rows: nat, cols: nat)
    requires col < cols
    ensures var (r, c) := Landing(row, col, n, cols);
            var p := RowStart(row, cols) + col;
            && p + n == RowStart(r, cols) + c
            && Advance(At(p), n, RowStart(rows, cols)) == (if r < rows then At(p + n) else End)
            && RowOf(p + n, cols) - RowOf(p, cols) == r - row
  {
    var (r, c) := Landing(row, col, n, cols);
    RowsAndCells(n, n / cols, cols);
    RowStartAdds(row, n / cols, cols);
    RowBound(r, c, rows, cols);
    Locate(row, col, cols);
    Locate(r, c, cols);
  }

  lemma WholePart(n: nat, cols: nat)
    requires cols > 0
    ensures 0 <= cols * (n / cols) <= n
    ensures n - cols * (n / cols) == n % cols < cols
    ensures n / cols <= n
  {
    MulMonotone(0, n / cols, cols);
    MulMonotone(1, cols, n / cols);
  }

  /** Dividing by the row length splits an increment into rows and cells. */
  lemma Quotients(n: nat, cols: nat)
    requires cols > 0
    ensures n % cols < cols && n / cols <= n
    ensures n < cols ==> n / cols == 0 && n % cols == n
    ensures n == cols ==> n / cols == 1 && n % cols == 0
  {
    WholePart(n, cols);
    if n < cols {
      DivideUnique(n, 0, n, cols);
    } else if n == cols {
      DivideUnique(n, 1, 0, cols);
    }
  }

  lemma LandingOnNext(row: nat, col: nat, cols: nat)
    requires col < cols
    ensures Landing(row, col, 1, cols) == if col + 1 < cols then (row, col + 1) else (row + 1, 0)
  {
    Quotients(1, cols);
  }

  lemma SmallMod(x: int)
    requires 0 <= x < WORD
    ensures x % WORD == x
  {
  }

  /** The remainder the source computes after a jump is the ordinary one. */
  lemma JumpRest(n: Word, cols: Word)
    requires cols > 0
    ensures n / cols < WORD
    ensures SubW(n, MulW(cols, n / cols)) == n % cols
  {
    Quotients(n, cols);
    WholePart(n, cols);
    SmallMod(cols * (n / cols));
  }

  /** A jump that is not safe should have ended the cursor; it moves to an earlier row instead, or to
      an earlier cell of its row. So `JumpSafe` is exactly when `SetNext` means `Advance`. */
  lemma UnsafeJumpGoesBack(row: nat, col: nat, n: Word, rows: Word, cols: Word)
    requires col < cols && row < AtLeastOne(rows)
    requires !JumpSafe(row, n, rows, cols)
    ensures Advance(At(RowStart(row, cols) + col), n, RowStart(AtLeastOne(rows), cols)) == End
    ensures var (r, c) := Landing(row, col, n, cols);
            0 <= r - WORD && RowStart(r - WORD, cols) + c < RowStart(row, cols) + col
  {
    LandingRefinesAdvance(row, col, n, AtLeastOne(rows), cols);
    var (r, c) := Landing(row, col, n, cols);
    RowStartAdds(r - WORD, WORD, cols);
    RowStartIsProduct(WORD, cols);
    MulMonotone(1, cols, WORD);
  }

  class TypeConnector {
    var row: Word
    var col: Word
    var rows: Word
    var cols: Word
    var notEnd: bool

    /** Rows are counted by a signed long and columns by a signed short
        (unixODBC/ODBCConnector.cc:460-473, 529-535), so both bounds below are generous. */
    ghost predicate Valid()
      reads this
    {
      && 2 * cols <= WORD
      && rows + 1 < WORD
      && row <= rows
      && col <= cols
      && (notEnd && cols > 0 ==> row < AtLeastOne(rows) && col < cols)
    }

    /** Cells the cursor walks before it ends. A result of no rows still counts one row, because
        `Reset` reports "not at the end" for it. */
    ghost function Total(): nat
      reads this
    {
      RowStart(AtLeastOne(rows), cols)
    }

    ghost function Flat(): nat
      reads this
    {
      RowStart(row, cols) + col
    }

    ghost function Pos(): Position
      reads this
    {
      if notEnd then At(Flat()) else End
    }

    constructor ()
      ensures Valid() && row == 0 && col == 0 && rows == 0 && cols == 0 && notEnd
    {
      row, col, rows, cols, notEnd := 0, 0, 0, 0, true;
    }

    method SetSize(rows: Word, cols: Word)
      requires 2 * cols <= WORD && rows + 1 < WORD
      modifies this
      ensures this.rows == rows && this.cols == cols
      ensures row == old(row) && col == old(col) && notEnd == old(notEnd)
    {
      this.rows, this.cols := rows, cols;
    }

    method Reset()
      requires 2 * cols <= WORD && rows + 1 < WORD
      modifies this
      ensures Valid() && rows == old(rows) && cols == old(cols)
      ensures row == 0 && col == 0
      ensures notEnd <==> rows != 0 || cols != 0
      ensures cols > 0 ==> Pos() == At(0)
    {
      row, col := 0, 0;
      if rows == 0 && cols == 0 {
        notEnd := false;
      } else {
        notEnd := true;
      }
    }

    /** Moves down by `increment` rows. The returned value is the number of rows only when the
        cursor ended, unless the row counter wraps. */
    method SetRow(increment: Word) returns (skipped: Word)
      modifies this
      ensures rows == old(rows) && cols == old(cols)
      ensures AddW(old(row), increment) < rows ==>
                row == AddW(old(row), increment) && col == old(col) && notEnd == old(notEnd) && skipped == increment
      ensures AddW(old(row), increment) >= rows ==>
                row == rows && col == cols && !notEnd && skipped == rows
      ensures old(row) + increment < WORD && rows > 0 ==>
                (skipped == rows <==> old(row) + increment >= rows)
    {
      var sum := AddW(row, increment);
      if sum < rows {
        row := sum;
        return increment;
      } else {
        row := rows;
        col := cols;
        notEnd := false;
        return rows;
      }
    }

    /** The tail of `setNext`: forward by less than one row, or by exactly one. */
    method Carry(increment: Word, jumped: Word) returns (skipped: Word)
      requires Valid()
      modifies this
      ensures rows == old(rows) && cols == old(cols)
      ensures AddW(old(col), increment) < cols ==>
                skipped == jumped && row == old(row) && notEnd == old(notEnd) && col == AddW(old(col), increment)
      ensures AddW(old(col), increment) >= cols && old(row) + 1 < rows ==>
                && row == old(row) + 1 && notEnd == old(notEnd) && skipped == AddW(jumped, 1)
                && col == AddW(old(col), increment) - cols
      ensures AddW(old(col), increment) >= cols && old(row) + 1 >= rows ==>
                row == rows && col == cols && !notEnd && skipped == rows
    {
      var sum := AddW(col, increment);
      if sum < cols {
        col := sum;
        return jumped;
      }
      var moved := SetRow(1);
      if moved == rows {
        return rows;
      }
      col := SubW(sum, cols);
      return AddW(jumped, 1);
    }

    /** The body of `setNext`, told in rows and columns. */
    method Step(increment: Word) returns (skipped: Word)
      requires Valid() && cols > 0
      modifies this
      ensures Valid() && rows == old(rows) && cols == old(cols)
      ensures !old(notEnd) ==> !notEnd
      ensures old(notEnd) && JumpSafe(old(row), increment, rows, cols) ==>
                var (r, c) := Landing(old(row), old(col), increment, cols);
                if r < AtLeastOne(rows) then notEnd && row == r && col == c && skipped == r - old(row)
                else !notEnd && row == rows && skipped == rows
      ensures old(notEnd) && !JumpSafe(old(row), increment, rows, cols) ==>
                var (r, c) := Landing(old(row), old(col), increment, cols);
                notEnd && row == r - WORD && col == c
      ensures !old(notEnd) && old(row) == rows && JumpSafe(old(row), increment, rows, cols) ==>
                row == rows && (skipped == 0 || skipped == rows)
      ensures !notEnd && (old(notEnd) || (old(row) == rows && old(col) == cols)) && increment <= cols && old(col) + increment < WORD ==>
                row == rows && col == cols
    {
      JumpRest(increment, cols);
      Quotients(increment, cols);
      var rest, jumped := increment, 0;
      if increment > cols {
        jumped := SetRow(increment / cols);
        rest := SubW(increment, MulW(cols, jumped));
      }
      skipped := Carry(rest, jumped);
    }

    /** Moves forward by `increment` cells. */
    method SetNext(increment: Word) returns (skipped: Word)
      requires Valid() && cols > 0
      modifies this
      ensures Valid() && rows == old(rows) && cols == old(cols)
      // the end is never left again
      ensures !old(notEnd) ==> !notEnd
      // below the end, the cursor refines the flat index
      ensures old(notEnd) && JumpSafe(old(row), increment, rows, cols) ==>
                && Pos() == Advance(old(Pos()), increment, Total())
                && (if notEnd then skipped == row - old(row) == RowOf(old(Flat()) + increment, cols) - RowOf(old(Flat()), cols)
                    else skipped == rows == row)
                && (notEnd <==> Landing(old(row), old(col), increment, cols).0 < AtLeastOne(rows))
                && (notEnd ==> (row, col) == Landing(old(row), old(col), increment, cols))
      // a wrapping jump lands 2^64 rows too high
      ensures old(notEnd) && !JumpSafe(old(row), increment, rows, cols) ==>
                notEnd && (row + WORD, col) == Landing(old(row), old(col), increment, cols)
      // once ended, the row stays past the last one
      ensures !old(notEnd) && old(row) == rows && JumpSafe(old(row), increment, rows, cols) ==>
                row == rows && (skipped == 0 || skipped == rows)
      ensures !notEnd && (old(notEnd) || (old(row) == rows && old(col) == cols)) && increment <= cols && old(col) + increment < WORD ==>
                row == rows && col == cols
    {
      if notEnd {
        LandingRefinesAdvance(row, col, increment, AtLeastOne(rows), cols);
      }
      skipped := Step(increment);
    }
  }

  /** Two moves are one by the sum, as to where the cursor is and, while it has not ended, as to the rows passed. */
  method MoveTwice(c: TypeConnector, a: Word, b: Word) returns (first: Word, second: Word)
    requires c.Valid() && c.cols > 0 && c.notEnd && JumpSafe(c.row, a, c.rows, c.cols)
    requires var r := Landing(c.row, c.col, a, c.cols).0; r < AtLeastOne(c.rows) ==> JumpSafe(r, b, c.rows, c.cols)
    modifies c
    ensures c.Valid() && c.rows == old(c.rows) && c.cols == old(c.cols)
    ensures c.Pos() == Advance(old(c.Pos()), a + b, c.Total())
    ensures c.notEnd ==> first + second == RowOf(old(c.Flat()) + a + b, c.cols) - RowOf(old(c.Flat()), c.cols)
  {
    hide JumpSafe, Landing;
    AdvanceAdds(c.Pos(), a, b, c.Total());
    first := c.SetNext(a);
    second := c.SetNext(b);
  }
}
