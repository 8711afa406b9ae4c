/** Reading a sequence of variables row by row from a connector (DTM/SQLSequence.h, DTM/SQLSimpleType.h). */
module SequenceReader {
  import opened Prelude
  import opened Cursor
  import opened ResultStream

  /** A variable of the sequence. One that stands for no column is a placeholder with a fixed text of its own. */
  datatype Variable = Variable(send: bool, inSelection: bool, column: bool, readP: bool, value: Cell)
  {
    predicate Asked() { (send || inSelection) && !readP }

    /** A read of this variable takes one cell from the connector. */
    predicate Takes() { column && Asked() }

    /** What a read that takes no cell makes of the variable. */
    function Untaken(): Variable { if Asked() then this.(readP := true, value := Value(PLACEHOLDER)) else this }

    function Cleared(): Variable { this.(readP := false) }

    predicate SameFlags(v: Variable) { send == v.send && inSelection == v.inSelection && column == v.column }
  }

  const PLACEHOLDER := "DefaultName"

  /** The number of cells one row takes. */
  function Demand(vars: seq<Variable>): nat
  {
    if |vars| == 0 then 0
    else Demand(vars[..|vars| - 1]) + if vars[|vars| - 1].Takes() then 1 else 0
  }

  /** The variables below i that are columns and are sent or used by the selection. */
  ghost function Wanted(vars: seq<Variable>, i: nat): set<nat>
    requires i <= |vars|
  {
    set j: nat | j < i && vars[j].column && (vars[j].send || vars[j].inSelection)
  }

  /** The number of cells a row takes. */
  ghost function Width(vars: seq<Variable>): nat
  {
    |Wanted(vars, |vars|)|
  }

  /** At the start of a row, the cell a variable is due is told by how many such variables come before it. */
  lemma {:induction false} DemandIsCount(vars: seq<Variable>, i: nat)
    requires i <= |vars| && IsStart(vars)
    ensures Demand(vars[..i]) == |Wanted(vars, i)|
    ensures i < |vars| ==> (vars[i].Takes() <==> vars[i].column && (vars[i].send || vars[i].inSelection))
  {
    assert i < |vars| ==> vars[i] in vars;
    if i == 0 {
      assert Wanted(vars, 0) == {};
    } else {
      var n := i - 1;
      DemandIsCount(vars, n);
      DemandStep(vars, n);
      assert Wanted(vars, i) == if vars[n].Takes() then Wanted(vars, n) + {n} else Wanted(vars, n);
    }
  }

  lemma DemandIsWidth(vars: seq<Variable>)
    requires IsStart(vars)
    ensures Demand(vars) == Width(vars)
  {
    DemandIsCount(vars, |vars|);
    assert vars[..|vars|] == vars;
  }

  /** Variable i of a row whose cells start at flat index p. */
  ghost function FilledVar(before: seq<Variable>, i: nat, s: Stream, p: nat): Variable
    requires s.Valid() && i < |before|
  {
    if before[i].Takes() then before[i].(readP := true, value := s.CellAt(p + Demand(before[..i]))) else before[i].Untaken()
  }

  /** `after` is `before` with the variables below n read, the taking ones given the cells from p on, in order. */
  ghost predicate FilledUpTo(before: seq<Variable>, after: seq<Variable>, n: nat, s: Stream, p: nat)
    requires s.Valid() && n <= |before|
  {
    && |after| == |before|
    && (forall i :: 0 <= i < n ==> after[i] == FilledVar(before, i, s, p))
    && (forall i :: n <= i < |before| ==> after[i] == before[i])
  }

  lemma {:induction false} DemandMonotone(vars: seq<Variable>, i: nat)
    requires i <= |vars|
    ensures Demand(vars[..i]) <= Demand(vars)
  {
    if i < |vars| {
      assert vars[..|vars| - 1][..i] == vars[..i];
      DemandMonotone(vars[..|vars| - 1], i);
    } else {
      assert vars[..i] == vars;
    }
  }

  lemma {:induction false} DemandOfAll(vars: seq<Variable>)
    requires forall v :: v in vars ==> v.Takes()
    ensures Demand(vars) == |vars|
  {
    if |vars| > 0 {
      DemandOfAll(vars[..|vars| - 1]);
    }
  }

  lemma DemandStep(vars: seq<Variable>, i: nat)
    requires i < |vars|
    ensures Demand(vars[..i + 1]) == Demand(vars[..i]) + if vars[i].Takes() then 1 else 0
    ensures Demand(vars[..i + 1]) <= Demand(vars)
  {
    assert vars[..i + 1][..i] == vars[..i];
    DemandMonotone(vars, i + 1);
  }

  datatype ReadOutcome = RowRead | Finished | Failed

  /** The row of cells a table delivers as its r-th. */
  function DeliveredRow(s: Stream, r: nat): (row: Row)
    requires s.Valid()
    ensures |row| == s.cols
  {
    BufferAfter(s.table, s.cols, r + 1)
  }

  function Delivered(s: Stream): (rows: seq<Row>)
    requires s.Valid()
    ensures |rows| == AtLeastOne(s.rows)
  {
    seq(AtLeastOne(s.rows), (r: nat) => DeliveredRow(s, r))
  }

  function Values(vars: seq<Variable>): Row
  {
    seq(|vars|, i requires 0 <= i < |vars| => vars[i].value)
  }

  /** What is delivered is the driver's table exactly when the count the connector was told is right,
      counting an empty result as one row. */
  lemma DeliveredIsTheTable(s: Stream)
    requires s.Valid()
    ensures Delivered(s) == s.table <==> |s.table| == AtLeastOne(s.rows)
  {
    if |s.table| == AtLeastOne(s.rows) {
      forall r | 0 <= r < |s.table|
        ensures Delivered(s)[r] == s.table[r]
      {
      }
    }
  }

  /** A count that is too large repeats the last row: the driver has no more rows to put in the buffers. */
  lemma OvercountRepeatsLastRow(s: Stream, r: nat)
    requires s.Valid() && 0 < |s.table| <= r < AtLeastOne(s.rows)
    ensures Delivered(s)[r] == s.table[|s.table| - 1]
  {
  }

  /** An empty result is delivered as one row of blanks, not as no rows. */
  lemma EmptyResultDeliversOneRow(s: Stream)
    requires s.Valid() && s.table == [] && s.rows == 0
    ensures Delivered(s) == [seq(s.cols, _ => Blank)] != s.table
  {
    assert Delivered(s)[0] == seq(s.cols, _ => Blank);
  }

  class Sequence {
    const conn: OdbcConnector
    var vars: seq<Variable>
    var readP: bool
    var unsent: bool
    var rowNumber: nat

    constructor (conn: OdbcConnector, vars: seq<Variable>)
      ensures this.conn == conn && this.vars == vars && !readP && unsent
    {
      this.conn, this.vars, readP, unsent, rowNumber := conn, vars, false, true, 0;
    }

    ghost predicate Valid()
      reads this, conn, conn.cursor
    {
      conn.Valid() && (conn.ready ==> conn.InStep())
    }

    /** The connector is ready over the table of s, at position pos. */
    ghost predicate Over(s: Stream, pos: Position)
      reads this, conn, conn.cursor
    {
      && conn.ready && conn.table == s.table && conn.cursor.rows == s.rows && conn.cursor.cols == s.cols
      && conn.cursor.Pos() == pos
    }

    /** Clears the read flag of every variable, as the serialiser does before each row. */
    method ClearRead()
      modifies this`vars
      ensures |vars| == |old(vars)|
      ensures forall i :: 0 <= i < |vars| ==> vars[i] == old(vars)[i].Cleared()
    {
      var was := vars;
      vars := seq(|was|, i requires 0 <= i < |was| => was[i].Cleared());
    }

    /** Reads one variable, if it is asked for and was not read before. */
    method ReadVariable(v: Variable, ghost s: Stream, ghost pos: Position) returns (r: Result<Variable>)
      requires Valid() && s.Valid() && Over(s, pos)
      modifies conn, conn.cursor
      ensures Valid()
      ensures v.readP || !(v.send || v.inSelection) ==> r == Success(v) && Over(s, pos)
      ensures !v.readP && (v.send || v.inSelection) && !v.column ==>
                r == Success(v.(readP := true, value := Value("DefaultName"))) && Over(s, pos)
      ensures !v.readP && (v.send || v.inSelection) && v.column && pos == End ==> r == Failure && Over(s, pos)
      ensures !v.readP && (v.send || v.inSelection) && v.column && pos != End ==>
                && r == Success(v.(readP := true, value := s.CellAt(pos.p)))
                && Over(s, Advance(pos, 1, s.Total()))
    {
      if !v.Asked() {
        return Success(v);
      }
      if !v.column {
        return Success(v.(readP := true, value := Value(PLACEHOLDER)));
      }
      assert conn.Abs() == s.(pos := pos);
      var c := conn.GetNext(1);
      if c.Failure? {
        return Failure;
      }
      return Success(v.(readP := true, value := c.value));
    }

    /** The loop of `read`: every variable that is sent and not yet read takes the next cell. */
    method ReadRow(ghost s: Stream) returns (ok: bool)
      requires Valid() && s.Valid() && s.pos.At? && s.pos.p < s.Total() && Over(s, s.pos)
      modifies this`vars, conn, conn.cursor
      ensures Valid()
      ensures ok <==> s.pos.p + Demand(old(vars)) <= s.Total()
      ensures ok ==> Over(s, Advance(s.pos, Demand(old(vars)), s.Total()))
      ensures ok ==> FilledUpTo(old(vars), vars, |old(vars)|, s, s.pos.p)
    {
      ghost var start, p, total, k := vars, s.pos.p, s.Total(), 0;
      var i := 0;
      while i < |vars|
        invariant 0 <= i <= |vars| == |start|
        invariant Valid() && Over(s, Advance(s.pos, k, total))
        invariant k == Demand(start[..i]) && p + k <= total
        invariant FilledUpTo(start, vars, i, s, p)
      {
        DemandStep(start, i);
        var v := ReadVariable(vars[i], s, Advance(s.pos, k, total));
        if v.Failure? {
          return false;
        }
        assert v.value == FilledVar(start, i, s, p);
        k := if vars[i].Takes() then k + 1 else k;
        vars := vars[i := v.value];
        i := i + 1;
      }
      assert start[..i] == start;
      return true;
    }

    /** One call of the serialiser: a row, the end of the sequence, or an error that closes the connector. */
    method Read() returns (r: ReadOutcome)
      requires Valid()
      modifies this, conn, conn.cursor
      ensures Valid() && readP == old(readP)
      ensures old(readP) || !old(conn.ready) ==>
                r == Finished && unchanged(this) && unchanged(conn) && unchanged(conn.cursor)
      ensures !old(readP) && old(conn.ready) && !old(conn.cursor.notEnd) ==>
                r == Finished && !unsent && rowNumber == 0 && vars == old(vars) && unchanged(conn) && unchanged(conn.cursor)
      ensures !old(readP) && old(conn.ready) && old(conn.cursor.notEnd) ==>
                var s, k := old(conn.Abs()), Demand(old(vars));
                && r == (if s.pos.p + k <= s.Total() then RowRead else Failed)
                && (r == RowRead ==>
                      && Over(s, Advance(s.pos, k, s.Total()))
                      && FilledUpTo(old(vars), vars, |old(vars)|, s, s.pos.p)
                      && unsent == old(unsent) && rowNumber == old(rowNumber))
                && (r == Failed ==> !conn.ready)
    {
      if readP {
        return Finished;
      }
      if !conn.ready {
        return Finished;
      }
      if !conn.cursor.notEnd {
        unsent := false;
        rowNumber := 0;
        return Finished;
      }
      RowBound(conn.cursor.row, conn.cursor.col, AtLeastOne(conn.cursor.rows), conn.cursor.cols);
      var ok := ReadRow(conn.Abs());
      if !ok {
        conn.Close();
        return Failed;
      }
      return RowRead;
    }
  }

  // ----- the serialiser

  /** The variables of two rows are the same but for what was read into them. */
  ghost predicate SameSequence(start: seq<Variable>, vars: seq<Variable>)
  {
    |vars| == |start| && forall i :: 0 <= i < |start| ==> vars[i].SameFlags(start[i])
  }

  /** A row read from flat index p on: every column that is sent or used by the selection has the cell it is due. */
  ghost predicate RowFrom(start: seq<Variable>, row: seq<Variable>, s: Stream, p: nat)
    requires s.Valid()
  {
    && SameSequence(start, row)
    && forall i :: 0 <= i < |start| && start[i].column && (start[i].send || start[i].inSelection) ==>
         row[i].value == s.CellAt(p + |Wanted(start, i)|)
  }

  /** Clearing the read flags of any row gives the variables a row starts with. */
  ghost predicate IsStart(start: seq<Variable>)
  {
    forall v :: v in start ==> !v.readP
  }

  lemma {:induction false} SameDemand(start: seq<Variable>, vars: seq<Variable>)
    requires SameSequence(start, vars) && IsStart(start) && IsStart(vars)
    ensures Demand(start) == Demand(vars)
  {
    if |start| > 0 {
      var n := |start| - 1;
      assert start[n] in start && vars[n] in vars;
      SameDemand(start[..n], vars[..n]);
    }
  }

  lemma FilledIsRow(start: seq<Variable>, before: seq<Variable>, after: seq<Variable>, s: Stream, p: nat)
    requires s.Valid() && SameSequence(start, before) && IsStart(start) && IsStart(before)
    requires FilledUpTo(before, after, |before|, s, p)
    ensures RowFrom(start, after, s, p)
  {
    forall i | 0 <= i < |start|
      ensures after[i].SameFlags(start[i])
      ensures start[i].column && (start[i].send || start[i].inSelection) ==> after[i].value == s.CellAt(p + |Wanted(start, i)|)
    {
      DemandIsCount(start, i);
      assert after[i] == FilledVar(before, i, s, p);
      assert start[i] in start && before[i] in before;
      SameDemand(start[..i], before[..i]);
    }
  }

  function PosAt(s: Stream, p: nat): Position
  {
    if p < s.Total() then At(p) else End
  }

  /** What the serialiser can rely on between rows. */
  ghost predicate Reading(q: Sequence, s: Stream, start: seq<Variable>, p: nat)
    reads q, q.conn, q.conn.cursor
  {
    && s.Valid() && q.Valid() && !q.readP && q.Over(s, PosAt(s, p)) && p <= s.Total()
    && SameSequence(start, q.vars) && IsStart(start)
  }

  method StartTurn(q: Sequence, ghost s: Stream, ghost start: seq<Variable>, ghost p: nat)
    requires Reading(q, s, start, p)
    modifies q`vars
    ensures Reading(q, s, start, p) && IsStart(q.vars) && Demand(q.vars) == Demand(start)
  {
    q.ClearRead();
    SameDemand(start, q.vars);
  }

  /** One turn of the serialiser: clear the read flags, then read. It gives a row while a whole one is left, ends
      at the end, and fails in between. */
  method Turn(q: Sequence, ghost s: Stream, ghost start: seq<Variable>, ghost p: nat)
    returns (r: ReadOutcome, row: seq<Variable>)
    requires Reading(q, s, start, p)
    modifies q, q.conn, q.conn.cursor
    ensures p == s.Total() ==> r == Finished && !q.unsent && Reading(q, s, start, p)
    ensures p < s.Total() && p + Demand(start) <= s.Total() ==>
              r == RowRead && RowFrom(start, row, s, p) && Reading(q, s, start, p + Demand(start))
    ensures p < s.Total() < p + Demand(start) ==> r == Failed && !q.conn.ready
  {
    hide FilledUpTo, IsStart, Demand;
    StartTurn(q, s, start, p);
    ghost var before, now := q.vars, q.conn.Abs();
    r := q.Read();
    row := q.vars;
    if r == RowRead {
      assert now == s.(pos := At(p));
      FilledIsRow(start, before, row, now, p);
      SameCells(start, row, now, s, p);
    }
  }

  /** The cells of a stream do not depend on where it is. */
  lemma SameCells(start: seq<Variable>, row: seq<Variable>, now: Stream, s: Stream, p: nat)
    requires s.Valid() && now == s.(pos := now.pos) && RowFrom(start, row, now, p)
    ensures RowFrom(start, row, s, p)
  {
  }

  /** Row r is read from flat index r * k on. */
  ghost predicate RowsFrom(start: seq<Variable>, rows: seq<seq<Variable>>, s: Stream, k: nat)
    requires s.Valid()
  {
    forall r :: 0 <= r < |rows| ==> RowFrom(start, rows[r], s, RowStart(r, k))
  }

  /** The serialiser's loop, told by where its rows start. */
  method ReadRows(q: Sequence, ghost s: Stream, ghost start: seq<Variable>, ghost k: nat)
    returns (rows: seq<seq<Variable>>, last: ReadOutcome)
    requires Reading(q, s, start, 0) && k == Demand(start) > 0
    modifies q, q.conn, q.conn.cursor
    ensures RowStart(|rows|, k) <= s.Total() < RowStart(|rows|, k) + k
    ensures last == if RowStart(|rows|, k) == s.Total() then Finished else Failed
    ensures RowsFrom(start, rows, s, k)
    ensures last == Finished ==> Reading(q, s, start, s.Total()) && !q.unsent
    ensures last == Failed ==> !q.conn.ready
  {
    assert s.Valid();
    RowStartSteps(0, k);
    hide Reading, RowFrom, RowsFrom, Demand, Stream.Total, RowStart;
    ghost var total, p := s.Total(), 0;
    rows := [];
    last := RowRead;
    while last == RowRead
      invariant p == RowStart(|rows|, k) <= total
      invariant RowsFrom(start, rows, s, k)
      invariant last == RowRead ==> Reading(q, s, start, p)
      invariant last == Finished ==> p == total && Reading(q, s, start, total) && !q.unsent
      invariant last == Failed ==> p < total < p + k && !q.conn.ready
      decreases last == RowRead, total - p
    {
      var row;
      last, row := Turn(q, s, start, p);
      if last == RowRead {
        RowStartSteps(|rows|, k);
        OneMoreRow(start, rows, row, s, k);
        rows, p := rows + [row], p + k;
      }
    }
  }

  lemma OneMoreRow(start: seq<Variable>, rows: seq<seq<Variable>>, row: seq<Variable>, s: Stream, k: nat)
    requires s.Valid() && RowsFrom(start, rows, s, k) && RowFrom(start, row, s, RowStart(|rows|, k))
    ensures RowsFrom(start, rows + [row], s, k)
  {
    hide RowFrom;
  }

  lemma RowStartSteps(r: nat, k: nat)
    ensures RowStart(0, k) == 0 && RowStart(r + 1, k) == RowStart(r, k) + k
  {
  }

  /** For any selection that takes cells from the connector: call r reads from flat index r * k on, where k is the
      number of cells a row takes, and the run ends cleanly exactly when k divides the number of cells. */
  method Drain(q: Sequence, ghost s: Stream, ghost start: seq<Variable>)
    returns (rows: seq<seq<Variable>>, last: ReadOutcome)
    requires Reading(q, s, start, 0) && Width(start) > 0
    modifies q, q.conn, q.conn.cursor
    ensures |rows| == s.Total() / Width(start)
    ensures last == if s.Total() % Width(start) == 0 then Finished else Failed
    ensures RowsFrom(start, rows, s, Width(start))
    ensures last == Finished ==> Reading(q, s, start, s.Total()) && !q.unsent
    ensures last == Failed ==> !q.conn.ready
  {
    DemandIsWidth(start);
    hide RowsFrom, Demand, Width;
    rows, last := ReadRows(q, s, start, Width(start));
    WholeTurns(s.Total(), Width(start), |rows|);
  }

  /** The number of whole rows of k cells, and whether anything is left over. */
  lemma WholeTurns(total: nat, k: nat, n: nat)
    requires RowStart(n, k) <= total < RowStart(n, k) + k
    ensures n == total / k
    ensures total % k == 0 <==> RowStart(n, k) == total
  {
    RowMajor(total, k);
    Locate(n, total - RowStart(n, k), k);
  }

  lemma {:induction false} NothingWanted(vars: seq<Variable>)
    requires forall v :: v in vars ==> !v.column || !(v.send || v.inSelection)
    ensures Demand(vars) == 0
  {
    if |vars| > 0 {
      NothingWanted(vars[..|vars| - 1]);
    }
  }

  /** A selection that takes no cell, every variable being a placeholder or neither sent nor used by the selection,
      never ends: however many turns, they all give rows and leave the connector where it is. */
  method IdleTurns(q: Sequence, n: nat, ghost s: Stream) returns (allRows: bool)
    requires Reading(q, s, AllCleared(q.vars), 0) && s.Total() > 0
    requires forall v :: v in q.vars ==> !v.column || !(v.send || v.inSelection)
    modifies q, q.conn, q.conn.cursor
    ensures allRows && Reading(q, s, AllCleared(old(q.vars)), 0)
  {
    ghost var start := AllCleared(q.vars);
    NothingWanted(start);
    hide Reading, Demand, AllCleared;
    allRows := true;
    for i := 0 to n
      invariant allRows && Reading(q, s, start, 0)
    {
      var r, row := Turn(q, s, start, 0);
      allRows := allRows && r == RowRead;
    }
  }

  function AllCleared(vars: seq<Variable>): seq<Variable>
  {
    seq(|vars|, i requires 0 <= i < |vars| => vars[i].Cleared())
  }

  /** With every variable a column that is sent or used by the selection, the run delivers the whole rows of the table: one call each and
      one more for the end, and one driver fetch each. */
  method DrainTable(q: Sequence) returns (rows: seq<Row>, calls: nat)
    requires q.Valid() && q.conn.ready && q.conn.Untouched() && q.conn.cursor.Pos() == At(0) && !q.readP
    requires |q.vars| == q.conn.cursor.cols && forall i :: 0 <= i < |q.vars| ==> q.vars[i].column && (q.vars[i].send || q.vars[i].inSelection)
    modifies q, q.conn, q.conn.cursor
    ensures q.Valid() && q.conn.ready && !q.conn.cursor.notEnd && !q.unsent
    ensures rows == Delivered(old(q.conn.Abs()))
    ensures calls == |rows| + 1
    ensures q.conn.fetches == |rows|
  {
    ghost var s := q.conn.Abs();
    ghost var start := AllCleared(q.vars);
    WholeRows(s, start);
    var read, last := Drain(q, s, start);
    TableRows(s, start, read);
    rows, calls := AllValues(read), |read| + 1;
  }

  function AllValues(rows: seq<seq<Variable>>): seq<Row>
  {
    seq(|rows|, r requires 0 <= r < |rows| => Values(rows[r]))
  }

  lemma WholeRows(s: Stream, start: seq<Variable>)
    requires s.Valid() && |start| == s.cols && forall v :: v in start ==> v.Takes()
    ensures Width(start) == s.cols
    ensures s.Total() / s.cols == AtLeastOne(s.rows) && s.Total() % s.cols == 0 && s.Total() > 0
  {
    DemandOfAll(start);
    DemandIsWidth(start);
    RowMajor(s.Total(), s.cols);
    Locate(AtLeastOne(s.rows), 0, s.cols);
    RowBound(0, 0, AtLeastOne(s.rows), s.cols);
  }

  lemma WholeRow(s: Stream, start: seq<Variable>, row: seq<Variable>, r: nat)
    requires s.Valid() && |start| == s.cols && RowFrom(start, row, s, RowStart(r, s.cols))
    requires forall v :: v in start ==> v.Takes()
    ensures Values(row) == DeliveredRow(s, r)
  {
    forall j | 0 <= j < s.cols
      ensures row[j].value == DeliveredRow(s, r)[j]
    {
      WholeRowAt(s, start, row, r, j);
    }
  }

  lemma WholeRowAt(s: Stream, start: seq<Variable>, row: seq<Variable>, r: nat, j: nat)
    requires s.Valid() && j < |start| == s.cols && RowFrom(start, row, s, RowStart(r, s.cols))
    requires forall v :: v in start ==> v.Takes()
    ensures row[j].value == DeliveredRow(s, r)[j]
  {
    hide BufferAfter, Demand, Stream.CellAt, SameSequence, RowStart, Wanted;
    assert start[j] in start;
    DemandOfAll(start[..j]);
    DemandIsCount(start, j);
    CellInTable(s, r, j);
  }

  /** When every variable takes a cell, the rows are those of the table. */
  lemma TableRows(s: Stream, start: seq<Variable>, rows: seq<seq<Variable>>)
    requires s.Valid() && |start| == s.cols && forall v :: v in start ==> v.Takes()
    requires RowsFrom(start, rows, s, s.cols) && |rows| == s.Total() / s.cols
    ensures s.Total() % s.cols == 0 && AllValues(rows) == Delivered(s)
  {
    WholeRows(s, start);
    forall r | 0 <= r < |rows|
      ensures Values(rows[r]) == DeliveredRow(s, r)
    {
      WholeRow(s, start, rows[r], r);
    }
  }
}
