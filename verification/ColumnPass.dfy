/** Building one variable per column before anything is read (handler/SQLBuildDDS.h, handler/SQLBuildDATA.h,
    handler/connector/SQLNextTypeAction.h). */
module ColumnPass {
  import opened Prelude
  import opened Cursor
  import opened ResultStream

  datatype Built = FromColumn(col: nat) | Placeholder

  /** What the type factory makes of a column: an object, no object, or a fatal error. */
  datatype TypeOutcome = Produced | Missing | Unsupported

  datatype NextType = Object(built: Built) | NoObject | Fatal

  predicate Aligned(vars: seq<Built>, cols: nat)
  {
    |vars| == cols && forall i :: 0 <= i < cols ==> vars[i] == FromColumn(i)
  }

  // ----- which column each variable stands for

  function Misses(vars: seq<Built>): nat
  {
    if |vars| == 0 then 0
    else Misses(vars[..|vars| - 1]) + if vars[|vars| - 1].Placeholder? then 1 else 0
  }

  /** The flat index the cursor is at when variable i is built: every variable before moved it by one cell, and
      every placeholder by one more. */
  function CellOf(vars: seq<Built>, i: nat): nat
    requires i <= |vars|
  {
    i + Misses(vars[..i])
  }

  /** What can be built with the cursor at cell p of `total`: the object of the cell's column, or a placeholder when
      the factory makes none or the cursor is past the end. */
  predicate IsBuiltAt(v: Built, p: nat, types: seq<TypeOutcome>, total: nat)
    requires |types| > 0
  {
    if p < total && types[p % |types|].Produced? then v == FromColumn(p % |types|)
    else v == Placeholder && (p < total ==> types[p % |types|].Missing?)
  }

  /** The variables the pass makes, one after the other. */
  ghost predicate IsPass(vars: seq<Built>, types: seq<TypeOutcome>, total: nat)
  {
    |vars| <= |types| && forall i :: 0 <= i < |vars| ==> IsBuiltAt(vars[i], CellOf(vars, i), types, total)
  }

  /** The pass meets a column it cannot go on from. */
  ghost predicate IsStopped(vars: seq<Built>, types: seq<TypeOutcome>, total: nat)
  {
    && |vars| < |types|
    && var p := CellOf(vars, |vars|); p < total && types[p % |types|].Unsupported?
  }

  lemma BuiltIsUnique(v: Built, w: Built, p: nat, types: seq<TypeOutcome>, total: nat)
    requires |types| > 0 && IsBuiltAt(v, p, types, total)
    ensures IsBuiltAt(w, p, types, total) <==> v == w
    ensures !(p < total && types[p % |types|].Unsupported?)
  {
  }

  /** The column types determine the pass, and whether it is stopped. */
  lemma {:induction false} PassIsUnique(a: seq<Built>, b: seq<Built>, types: seq<TypeOutcome>, total: nat)
    requires IsPass(a, types, total) && IsPass(b, types, total) && |a| <= |b|
    ensures a == b[..|a|]
    ensures IsStopped(a, types, total) ==> a == b
  {
    hide IsBuiltAt, Misses;
    if |a| > 0 {
      var n := |a| - 1;
      PrefixIsPass(a, n, types, total);
      PassIsUnique(a[..n], b, types, total);
      assert a[..n] == b[..n];
      BuiltIsUnique(a[n], b[n], CellOf(a, n), types, total);
    }
    if |a| < |b| {
      assert a[..|a|] == b[..|a|];
      BuiltIsUnique(b[|a|], b[|a|], CellOf(b, |a|), types, total);
    }
  }

  lemma PrefixIsPass(vars: seq<Built>, n: nat, types: seq<TypeOutcome>, total: nat)
    requires IsPass(vars, types, total) && n <= |vars|
    ensures IsPass(vars[..n], types, total)
  {
    forall i | 0 <= i < n
      ensures CellOf(vars[..n], i) == CellOf(vars, i)
    {
      assert vars[..n][..i] == vars[..i];
    }
  }

  lemma {:induction false} NoMisses(vars: seq<Built>)
    ensures Misses(vars) == 0 <==> forall i :: 0 <= i < |vars| ==> vars[i].FromColumn?
  {
    if |vars| > 0 {
      NoMisses(vars[..|vars| - 1]);
    }
  }

  lemma BuiltInFirstRow(v: Built, p: nat, types: seq<TypeOutcome>, total: nat)
    requires p < |types| <= total
    ensures IsBuiltAt(v, p, types, total) <==> !types[p].Unsupported? && v == if types[p].Produced? then FromColumn(p) else Placeholder
  {
    DivideUnique(p, 0, p, |types|);
  }

  /** The first columns stand for themselves exactly as long as the factory makes objects of them. */
  lemma {:induction false} AlignedSoFar(vars: seq<Built>, n: nat, types: seq<TypeOutcome>, total: nat)
    requires IsPass(vars, types, total) && n <= |vars| && |types| <= total
    ensures (forall i :: 0 <= i < n ==> vars[i] == FromColumn(i)) <==> forall c :: 0 <= c < n ==> types[c].Produced?
    ensures (forall i :: 0 <= i < n ==> vars[i] == FromColumn(i)) ==> Misses(vars[..n]) == 0
  {
    hide IsBuiltAt, Misses;
    if n > 0 {
      AlignedSoFar(vars, n - 1, types, total);
      BuiltInFirstRow(vars[n - 1], n - 1, types, total);
    }
    NoMisses(vars[..n]);
  }

  /** After the first column c without an object, the next variable stands for the column after the next: column
      c + 1 is passed over. */
  lemma ColumnIsPassedOver(vars: seq<Built>, c: nat, types: seq<TypeOutcome>, total: nat)
    requires IsPass(vars, types, total) && |vars| == |types| <= total && c + 2 < |types|
    requires (forall i :: 0 <= i < c ==> types[i].Produced?) && types[c].Missing?
    ensures vars[c] == Placeholder
    ensures types[c + 2].Produced? ==> vars[c + 1] == FromColumn(c + 2)
    ensures types[c + 2].Missing? ==> vars[c + 1] == Placeholder
    ensures !types[c + 2].Unsupported?
  {
    hide IsBuiltAt;
    AlignedSoFar(vars, c, types, total);
    BuiltInFirstRow(vars[c], c, types, total);
    assert vars[..c + 1][..c] == vars[..c];
    BuiltInFirstRow(vars[c + 1], c + 2, types, total);
  }

  // ----- the pass

  /** The cursor was moved p cells from the first. */
  ghost predicate AtCell(cursor: TypeConnector, p: nat)
    reads cursor
  {
    && cursor.Valid() && cursor.cols > 0
    && if p < cursor.Total() then cursor.Pos() == At(p) else !cursor.notEnd && cursor.row == cursor.rows && cursor.col == cursor.cols
  }

  lemma ColumnAt(cursor: TypeConnector, p: nat)
    requires AtCell(cursor, p)
    ensures cursor.col == if p < cursor.Total() then p % cursor.cols else cursor.cols
  {
    if p < cursor.Total() {
      Locate(cursor.row, cursor.col, cursor.cols);
      RowMajor(p, cursor.cols);
    }
  }

  method MoveOn(cursor: TypeConnector, ghost p: nat)
    requires AtCell(cursor, p)
    modifies cursor
    ensures AtCell(cursor, p + 1) && cursor.rows == old(cursor.rows) && cursor.cols == old(cursor.cols)
  {
    var rows := cursor.SetNext(1);
  }

  /** Builds the object for the cursor's column, then moves to the next column. Past the last column the
      type lookup fails before the cursor is moved. */
  method BuildNext(conn: OdbcConnector, types: seq<TypeOutcome>, ghost p: nat) returns (r: NextType)
    requires conn.Valid() && conn.ready && |types| == conn.cursor.cols && AtCell(conn.cursor, p)
    modifies conn`ready, conn.cursor
    ensures conn.Valid() && conn.cursor.cols == old(conn.cursor.cols) && conn.cursor.rows == old(conn.cursor.rows)
    ensures r.Fatal? <==> !conn.ready
    ensures p >= conn.cursor.Total() ==> r == NoObject
    ensures p < conn.cursor.Total() ==>
              r == match types[p % |types|]
                   case Unsupported => Fatal
                   case Produced => Object(FromColumn(p % |types|))
                   case Missing => NoObject
    ensures !r.Fatal? ==> AtCell(conn.cursor, p + 1)
  {
    ColumnAt(conn.cursor, p);
    var col := conn.cursor.col;
    if col >= conn.cursor.cols {
      return NoObject;
    }
    if types[col].Unsupported? {
      conn.Close();
      return Fatal;
    }
    MoveOn(conn.cursor, p);
    return if types[col].Produced? then Object(FromColumn(col)) else NoObject;
  }

  lemma OneMoreBuilt(vars: seq<Built>, v: Built, types: seq<TypeOutcome>, total: nat)
    requires IsPass(vars, types, total) && |vars| < |types| && IsBuiltAt(v, CellOf(vars, |vars|), types, total)
    ensures IsPass(vars + [v], types, total)
    ensures CellOf(vars + [v], |vars| + 1) == CellOf(vars, |vars|) + if v.Placeholder? then 2 else 1
  {
    hide IsBuiltAt;
    var more := vars + [v];
    assert more[..|vars|] == vars[..|vars|] == vars && more[..|vars| + 1] == more;
    forall i | 0 <= i < |vars|
      ensures CellOf(more, i) == CellOf(vars, i)
    {
      assert more[..i] == vars[..i];
    }
  }

  lemma PassStep(vars: seq<Built>, types: seq<TypeOutcome>, total: nat)
    requires IsPass(vars, types, total) && |vars| < |types|
    ensures var p := CellOf(vars, |vars|);
            if p < total && types[p % |types|].Unsupported? then IsStopped(vars, types, total)
            else var v := if p < total && types[p % |types|].Produced? then FromColumn(p % |types|) else Placeholder;
                 && IsPass(vars + [v], types, total)
                 && CellOf(vars + [v], |vars| + 1) == p + if v.Placeholder? then 2 else 1
  {
    hide IsPass, CellOf;
    var p := CellOf(vars, |vars|);
    if !(p < total && types[p % |types|].Unsupported?) {
      var v := if p < total && types[p % |types|].Produced? then FromColumn(p % |types|) else Placeholder;
      OneMoreBuilt(vars, v, types, total);
    }
  }

  lemma EmptyPass(types: seq<TypeOutcome>, total: nat)
    ensures IsPass([], types, total) && CellOf([], 0) == 0
  {
  }

  lemma FirstCell(cursor: TypeConnector)
    requires cursor.Valid() && cursor.cols > 0 && cursor.Pos() == At(0)
    ensures AtCell(cursor, 0) && cursor.cols <= cursor.Total()
  {
    RowBound(0, 0, AtLeastOne(cursor.rows), cursor.cols);
  }

  lemma AlignedPass(vars: seq<Built>, types: seq<TypeOutcome>, total: nat)
    requires IsPass(vars, types, total) && |vars| == |types| <= total
    ensures Aligned(vars, |types|) <==> forall c :: 0 <= c < |types| ==> types[c].Produced?
  {
    hide IsPass;
    AlignedSoFar(vars, |types|, types, total);
  }

  /** The column loop, between two resets. It fails exactly when the pass meets an unsupported column. Variable i
      stands for column i for every i exactly when the factory produced an object for every column: a missing
      object moves the cursor twice. Whatever the factory did, the connector is left on the first cell with
      nothing fetched. */
  method BuildColumns(conn: OdbcConnector, types: seq<TypeOutcome>) returns (r: Result<seq<Built>>)
    requires conn.Valid() && conn.ready && |types| == conn.cursor.cols
    modifies conn`ready, conn.cursor
    ensures conn.Valid()
    ensures r.Success? <==> conn.ready
    ensures var total := old(conn.cursor.Total());
            if r.Success? then |r.value| == |types| && IsPass(r.value, types, total)
            else exists vars :: IsPass(vars, types, total) && IsStopped(vars, types, total)
    ensures r.Success? && Aligned(r.value, |types|) <==> forall c :: 0 <= c < |types| ==> types[c].Produced?
    ensures r.Success? ==> conn.Abs() == old(conn.Abs()).(pos := At(0))
    ensures r.Success? && conn.Untouched() ==> conn.InStep()
  {
    hide IsPass, IsStopped, IsBuiltAt, CellOf, RowStart;
    ghost var total := conn.cursor.Total();
    var vars := [];
    conn.Reset();
    FirstCell(conn.cursor);
    EmptyPass(types, total);
    var i := 0;
    while i < conn.cursor.cols
      invariant conn.Valid() && conn.ready && 0 <= i <= conn.cursor.cols == |types|
      invariant conn.cursor.rows == old(conn.cursor.rows)
      invariant |vars| == i && IsPass(vars, types, total) && AtCell(conn.cursor, CellOf(vars, i))
    {
      ghost var p := CellOf(vars, i);
      var bt := BuildNext(conn, types, p);
      PassStep(vars, types, total);
      match bt {
        case Object(built) =>
          vars := vars + [built];
        case NoObject =>
          MoveOn(conn.cursor, p + 1);
          vars := vars + [Placeholder];
        case Fatal =>
          assert IsPass(vars, types, total) && IsStopped(vars, types, total);
          return Failure;
      }
      i := i + 1;
    }
    AlignedPass(vars, types, total);
    conn.Reset();
    return Success(vars);
  }
}
