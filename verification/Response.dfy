/** A data response from end to end: query, build the columns, read every row (handler/SQLBuildDATA.h). */
module Response {
  import opened Prelude
  import opened Cursor
  import opened ResultStream
  import opened SequenceReader
  import opened ColumnPass

  /** The variables the column pass leaves in the sequence, all of them sent. */
  function Sent(built: seq<Built>): seq<Variable>
  {
    seq(|built|, i requires 0 <= i < |built| => Variable(true, false, built[i].FromColumn?, false, Blank))
  }

  /** How a response ends: its columns could not be built, the rows it gives and whether they end cleanly, or,
      when no variable stands for a column, never. */
  datatype Delivery = Refused | Rows(rows: seq<seq<Variable>>, complete: bool) | Endless

  lemma {:induction false} DemandOfColumns(vars: seq<Variable>)
    requires forall v :: v in vars ==> v.Asked()
    ensures Demand(vars) == 0 <==> forall v :: v in vars ==> !v.column
  {
    if |vars| > 0 {
      var last := |vars| - 1;
      assert vars == vars[..last] + [vars[last]];
      DemandOfColumns(vars[..last]);
    }
  }

  lemma SentTakes(built: seq<Built>)
    ensures forall v :: v in Sent(built) ==> v.Asked() && IsStart(Sent(built))
    ensures (forall i :: 0 <= i < |built| ==> built[i].FromColumn?) <==> forall v :: v in Sent(built) ==> v.Takes()
    ensures Width(Sent(built)) == 0 <==> forall i :: 0 <= i < |built| ==> built[i].Placeholder?
  {
    var vars := Sent(built);
    DemandOfColumns(vars);
    DemandIsWidth(vars);
    forall i | 0 <= i < |built|
      ensures (vars[i].Takes() <==> built[i].FromColumn?) && vars[i] in vars
    {
    }
    if forall v :: v in vars ==> v.Takes() {
      forall i | 0 <= i < |built|
        ensures built[i].FromColumn?
      {
        assert vars[i].Takes();
      }
    }
    if forall v :: v in vars ==> !v.column {
      forall i | 0 <= i < |built|
        ensures built[i].Placeholder?
      {
        assert !vars[i].column;
      }
    }
  }

  /** Reading every row of the variables built, which start with nothing read. */
  method Deliver(conn: OdbcConnector, built: seq<Built>, ghost s: Stream) returns (rows: seq<seq<Variable>>, complete: bool)
    requires conn.Valid() && conn.ready && conn.InStep() && conn.Abs() == s && s.pos == At(0)
    requires exists i :: 0 <= i < |built| && built[i].FromColumn?
    modifies conn, conn.cursor
    ensures var k := Width(Sent(built));
            k > 0 && RowsFrom(Sent(built), rows, s, k) && |rows| == s.Total() / k && complete == (s.Total() % k == 0)
    ensures complete ==> conn.fetches == AtLeastOne(s.rows)
  {
    hide Sent, RowsFrom, Width, SameSequence;
    SentTakes(built);
    AnySequenceIsItself(Sent(built));
    RowBound(0, 0, AtLeastOne(s.rows), s.cols);
    var q := new Sequence(conn, Sent(built));
    var last;
    rows, last := Drain(q, s, Sent(built));
    complete := last == Finished;
  }

  lemma AnySequenceIsItself(vars: seq<Variable>)
    ensures SameSequence(vars, vars)
  {
  }

  lemma AllSent(s: Stream, built: seq<Built>, rows: seq<seq<Variable>>)
    requires s.Valid() && Aligned(built, s.cols)
    requires RowsFrom(Sent(built), rows, s, Width(Sent(built))) && Width(Sent(built)) > 0
    requires |rows| == s.Total() / Width(Sent(built))
    ensures s.Total() % Width(Sent(built)) == 0 && AllValues(rows) == Delivered(s)
  {
    hide RowsFrom, Width, Delivered, AllValues;
    SentTakes(built);
    WholeRows(s, Sent(built));
    TableRows(s, Sent(built), rows);
  }

  lemma StoppedAtColumn(types: seq<TypeOutcome>, total: nat)
    ensures (exists vars :: IsPass(vars, types, total) && IsStopped(vars, types, total)) ==>
              exists c :: 0 <= c < |types| && types[c].Unsupported?
  {
  }

  /** The response is refused exactly when the column pass meets an unsupported column. Otherwise the client
      receives rows of as many cells as variables stand for columns, one after the other; the rows are complete
      exactly when they use the cells up. When the factory made an object of every column they are the counted
      rows, row r being the driver's r-th, with one driver fetch each. */
  method Respond(conn: OdbcConnector, count: Word, cols: Word, result: seq<Row>, types: seq<TypeOutcome>)
    returns (built: seq<Built>, d: Delivery)
    requires conn.Valid() && |types| == cols
    requires count < WORD / 2 && 0 < cols < 0x8000 && Rectangular(result, cols)
    modifies conn, conn.cursor
    ensures d.Refused? ==> !conn.ready
    ensures var total := RowStart(AtLeastOne(count), cols);
            if d.Refused? then exists vars :: IsPass(vars, types, total) && IsStopped(vars, types, total)
            else |built| == cols && IsPass(built, types, total)
    ensures d.Endless? <==> !d.Refused? && forall i :: 0 <= i < |built| ==> built[i].Placeholder?
    ensures d.Rows? ==>
              var s, k := Stream(result, count, cols, At(0)), Width(Sent(built));
              k > 0 && RowsFrom(Sent(built), d.rows, s, k) && |d.rows| == s.Total() / k && d.complete == (s.Total() % k == 0)
    ensures !d.Refused? ==> (Aligned(built, cols) <==> forall c :: 0 <= c < cols ==> types[c].Produced?)
    ensures (forall c :: 0 <= c < cols ==> types[c].Produced?) ==>
              d.Rows? && d.complete && AllValues(d.rows) == Delivered(Stream(result, count, cols, At(0)))
              && conn.fetches == AtLeastOne(count)
  {
    hide IsPass, IsStopped, Sent, Width, RowsFrom, AllValues, Delivered;
    conn.Query(count, cols, result);
    ghost var total := conn.cursor.Total();
    assert total == RowStart(AtLeastOne(count), cols);
    var vars := BuildColumns(conn, types);
    StoppedAtColumn(types, total);
    if vars.Failure? {
      return [], Refused;
    }
    built := vars.value;
    assert Aligned(built, cols) ==> built[0] == FromColumn(0);
    if forall i :: 0 <= i < |built| ==> built[i].Placeholder? {
      return built, Endless;
    }
    ghost var s := Stream(result, count, cols, At(0));
    var rows, complete := Deliver(conn, built, s);
    d := Rows(rows, complete);
    if Aligned(built, cols) {
      AllSent(s, built, rows);
    }
  }
}
