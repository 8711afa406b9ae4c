/** The lazily fetched result set (unixODBC/ODBCConnector.cc).

    The reference is `Stream`: a table, its announced size and one flat position. The connector keeps
    a cursor, a count of driver fetches still owed and one row of column buffers instead. */
module ResultStream {
  import opened Prelude
  import opened Cursor

  /** `Blank` is what a zero-filled column buffer holds before anything was fetched. */
  datatype Cell = Blank | Value(text: string)

  type Row = seq<Cell>

  predicate Rectangular(table: seq<Row>, cols: nat)
  {
    forall r :: 0 <= r < |table| ==> |table[r]| == cols
  }

  /** The column buffers after `k` fetches: a fetch past the last row leaves them as they were. */
  function BufferAfter(table: seq<Row>, cols: nat, k: nat): (row: Row)
    requires Rectangular(table, cols)
    ensures |row| == cols
  {
    var last := if k <= |table| then k else |table|;
    if last == 0 then seq(cols, _ => Blank) else table[last - 1]
  }

  /** `rows` is the count the connector was told, which need not be the number of rows the driver has. */
  datatype Stream = Stream(table: seq<Row>, rows: nat, cols: nat, pos: Position)
  {
    predicate Valid() { cols > 0 && Rectangular(table, cols) }

    function Total(): nat { RowStart(AtLeastOne(rows), cols) }

    /** The cell at flat index p: row p / cols, column p % cols (`RowMajor`). */
    function CellAt(p: nat): Cell
      requires Valid()
    {
      BufferAfter(table, cols, RowOf(p, cols) + 1)[ColOf(p, cols)]
    }

    /** One read, then a move by n cells. */
    function Next(n: nat): (Stream, Result<Cell>)
      requires Valid()
    {
      match pos
      case End => (this, Failure)
      case At(p) => (this.(pos := Advance(pos, n, Total())), Success(CellAt(p)))
    }
  }

  lemma {:induction false} CellInTable(s: Stream, r: nat, j: nat)
    requires s.Valid() && j < s.cols
    ensures s.CellAt(RowStart(r, s.cols) + j) == BufferAfter(s.table, s.cols, r + 1)[j]
    ensures r < |s.table| ==> s.CellAt(RowStart(r, s.cols) + j) == s.table[r][j]
  {
    Locate(r, j, s.cols);
  }

  // ----- whole runs of reads

  function Sum(ns: seq<nat>): nat
  {
    if |ns| == 0 then 0 else ns[0] + Sum(ns[1..])
  }

  function Outcomes(s: Stream, ns: seq<nat>): (out: seq<Result<Cell>>)
    requires s.Valid()
    ensures |out| == |ns|
    decreases |ns|
  {
    if |ns| == 0 then [] else
      var (s', r) := s.Next(ns[0]);
      [r] + Outcomes(s', ns[1..])
  }

  /** Any run of reads with any increments returns the cells at the running totals of the increments,
      and fails from the first total that is past the end. */
  lemma {:induction false} OutcomesArePrefixSums(s: Stream, ns: seq<nat>, i: nat)
    requires s.Valid() && i < |ns|
    ensures Outcomes(s, ns)[i] ==
            match s.pos
            case End => Failure
            case At(p) =>
              var at := p + Sum(ns[..i]);
              if i == 0 || at < s.Total() then Success(s.CellAt(at)) else Failure
    decreases |ns|
  {
    if i > 0 {
      var s' := s.Next(ns[0]).0;
      OutcomesArePrefixSums(s', ns[1..], i - 1);
      assert ns[..i][0] == ns[0];
      assert ns[..i][1..] == ns[1..][..i - 1];
      assert Outcomes(s, ns)[i] == Outcomes(s', ns[1..])[i - 1];
    }
  }

  class OdbcConnector {
    const cursor: TypeConnector
    var ready: bool
    var toFetchRows: Word
    // the driver: its result set, and how often it was asked for the next row
    var table: seq<Row>
    var fetches: nat
    // one buffer per column, bound to the statement
    var buffer: Row

    /** A query that succeeded has at least one column. */
    ghost predicate Valid()
      reads this, cursor
    {
      && cursor.Valid()
      && (ready ==> cursor.cols > 0 && Rectangular(table, cursor.cols) && buffer == BufferAfter(table, cursor.cols, fetches))
    }

    /** The rows fetched and the rows owed add up to the row the cursor is on. */
    ghost predicate Synced()
      reads this, cursor
    {
      cursor.notEnd ==> fetches + toFetchRows == cursor.row + 1
    }

    /** Read cell by cell, the driver has been asked for the rows above the cursor, and for the cursor's
        own row once its first cell was read. */
    ghost predicate InStep()
      reads this, cursor
    {
      && Synced()
      && fetches == if !cursor.notEnd then AtLeastOne(cursor.rows)
                    else cursor.row + if cursor.col == 0 then 0 else 1
    }

    /** Nothing was read since the query: the only time the cursor may be moved on its own. */
    predicate Untouched()
      reads this
    {
      fetches == 0 && toFetchRows == 1
    }

    ghost function Abs(): (s: Stream)
      requires Valid() && ready
      reads this, cursor
      ensures s.Valid()
    {
      Stream(table, cursor.rows, cursor.cols, cursor.Pos())
    }

    constructor ()
      ensures Valid() && !ready && fresh(cursor)
    {
      cursor := new TypeConnector();
      ready, toFetchRows, table, fetches, buffer := false, 0, [], 0, [];
    }

    /** The end of `query`: `count` comes from the COUNT query, `result` from the statement. */
    method Query(count: Word, cols: Word, result: seq<Row>)
      requires count < WORD / 2 && 0 < cols < 0x8000 && Rectangular(result, cols)
      modifies this, cursor
      ensures Valid() && ready && Untouched() && InStep()
      ensures Abs() == Stream(result, count, cols, At(0))
    {
      cursor.SetSize(count, cols);
      table := result;
      buffer := seq(cols, _ => Blank);
      fetches := 0;
      toFetchRows := 1;
      cursor.Reset();
      ready := true;
    }

    method Close()
      modifies this`ready
      ensures !ready
      ensures old(Valid()) ==> Valid()
    {
      ready := false;
    }

    /** Asks the driver for one more row. */
    method Fetch()
      requires Valid() && ready
      modifies this`fetches, this`buffer
      ensures Valid() && fetches == old(fetches) + 1
    {
      if fetches < |table| {
        buffer := table[fetches];
      }
      fetches := fetches + 1;
    }

    /** The loop of `getNext`: asks the driver for every row owed. */
    method FetchOwed()
      requires Valid() && ready
      modifies this`fetches, this`buffer, this`toFetchRows
      ensures Valid() && toFetchRows == 0 && fetches == old(fetches) + old(toFetchRows)
    {
      while toFetchRows > 0
        invariant Valid() && fetches + toFetchRows == old(fetches) + old(toFetchRows)
      {
        Fetch();
        toFetchRows := toFetchRows - 1;
      }
    }

    /** Reads the cell under the cursor, fetching the rows owed first, then moves by `next` cells. */
    method GetNext(next: Word) returns (r: Result<Cell>)
      requires Valid()
      modifies this`fetches, this`buffer, this`toFetchRows, cursor
      ensures Valid()
      ensures cursor.rows == old(cursor.rows) && cursor.cols == old(cursor.cols)
      ensures !ready || !old(cursor.notEnd) ==>
                r == Failure && unchanged(this) && unchanged(cursor)
      ensures ready && old(cursor.notEnd) && old(Synced()) && JumpSafe(old(cursor.row), next, cursor.rows, cursor.cols) ==>
                && r == Success(old(Abs()).CellAt(old(cursor.Flat())))
                && cursor.Pos() == Advance(old(cursor.Pos()), next, cursor.Total())
                && Synced()
                && fetches == old(cursor.row) + 1 <= AtLeastOne(cursor.rows)
                && (next == 1 && old(InStep()) ==> InStep())
    {
      if !ready || !cursor.notEnd {
        return Failure;
      }
      Locate(cursor.row, cursor.col, cursor.cols);
      LandingOnNext(cursor.row, cursor.col, cursor.cols);
      FetchOwed();
      var cell := buffer[cursor.col];
      toFetchRows := cursor.SetNext(next);
      return Success(cell);
    }

    /** Puts the cursor back on the first cell. Owed fetches are kept, so reading stays in step exactly
        when the fetched and the owed rows are one together. */
    method Reset()
      requires Valid() && ready
      modifies cursor
      ensures Valid() && cursor.rows == old(cursor.rows) && cursor.cols == old(cursor.cols)
      ensures cursor.row == 0 && cursor.col == 0
      ensures Abs() == old(Abs()).(pos := At(0))
      ensures Synced() <==> fetches + toFetchRows == 1
    {
      cursor.Reset();
    }
  }

  /** No read of the run makes a jump that wraps the row counter into the table. */
  ghost predicate SafeRun(s: Stream, ns: seq<nat>)
    requires s.Valid()
    decreases |ns|
  {
    |ns| == 0 || ((s.pos.At? ==> JumpSafe(RowOf(s.pos.p, s.cols), ns[0], s.rows, s.cols)) && SafeRun(s.Next(ns[0]).0, ns[1..]))
  }

  /** The connector stands for s, and has not fetched more rows than were counted. */
  ghost predicate StandsFor(conn: OdbcConnector, s: Stream)
    reads conn, conn.cursor
  {
    && conn.Valid() && conn.ready && conn.Synced() && conn.Abs() == s
    && conn.fetches <= AtLeastOne(conn.cursor.rows)
  }

  /** `GetNext` is the reference step: the same cell, or the same failure, and the same position after. */
  method ReadStep(conn: OdbcConnector, n: Word, ghost s: Stream) returns (r: Result<Cell>)
    requires StandsFor(conn, s) && (s.pos.At? ==> JumpSafe(RowOf(s.pos.p, s.cols), n, s.rows, s.cols))
    modifies conn`fetches, conn`buffer, conn`toFetchRows, conn.cursor
    ensures s.Valid() && StandsFor(conn, s.Next(n).0) && r == s.Next(n).1
  {
    if conn.cursor.notEnd {
      Locate(conn.cursor.row, conn.cursor.col, conn.cursor.cols);
    }
    r := conn.GetNext(n);
  }

  lemma OneMoreOutcome(s: Stream, ns: seq<nat>, i: nat, out: seq<Result<Cell>>)
    requires s.Valid() && i < |ns|
    ensures out + Outcomes(s, ns[i..]) == out + [s.Next(ns[i]).1] + Outcomes(s.Next(ns[i]).0, ns[i + 1..])
    ensures SafeRun(s, ns[i..]) ==> SafeRun(s.Next(ns[i]).0, ns[i + 1..])
    ensures SafeRun(s, ns[i..]) && s.pos.At? ==> JumpSafe(RowOf(s.pos.p, s.cols), ns[i], s.rows, s.cols)
  {
    assert ns[i..][1..] == ns[i + 1..];
  }

  /** Whole runs: whatever the increments, the connector answers as the reference does, read by read, and the
      driver is never asked for more rows than were counted. */
  method ReadRun(conn: OdbcConnector, ns: seq<Word>) returns (out: seq<Result<Cell>>)
    requires conn.Valid() && conn.ready && conn.Untouched() && conn.cursor.Pos() == At(0)
    requires SafeRun(conn.Abs(), ns)
    modifies conn`fetches, conn`buffer, conn`toFetchRows, conn.cursor
    ensures conn.Valid()
    ensures out == Outcomes(old(conn.Abs()), ns)
    ensures conn.fetches <= AtLeastOne(conn.cursor.rows)
  {
    out := [];
    ghost var s, start := conn.Abs(), conn.Abs();
    Locate(conn.cursor.row, 0, conn.cursor.cols);
    while |out| < |ns|
      invariant |out| <= |ns| && StandsFor(conn, s) && s.Valid()
      invariant SafeRun(s, ns[|out|..])
      invariant out + Outcomes(s, ns[|out|..]) == Outcomes(start, ns)
    {
      hide StandsFor, SafeRun, Outcomes, JumpSafe, Stream.Next;
      OneMoreOutcome(s, ns, |out|, out);
      var r := ReadStep(conn, ns[|out|], s);
      s := s.Next(ns[|out|]).0;
      out := out + [r];
    }
    assert ns[|out|..] == [];
  }
}
