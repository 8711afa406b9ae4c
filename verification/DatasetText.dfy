/** Dataset files as their authors write them, with the tags and keys spelled out, and what reading them gives
    (container/SQLTextContainer.cc:464-474, container/SQLTextDefinitions.h:170-201). */
module DatasetText {
  import opened Prelude
  import opened TextMatch
  import opened Variables
  import opened Lines
  import Attribute
  import opened Query
  import opened Dataset
  import opened TextContainer
  import List = AttributeList

  /** One section. An optional key is left out by an empty value; the three texts are given by their rows. */
  datatype Description = Description(api: string, server: string, port: string, dbname: string, user: string, pass: string,
                                     select: seq<string>, from: seq<string>, where: seq<string>, other: seq<(string, string)>)

  function Line(key: string, value: string): seq<string>
  {
    if value == "" then [] else [key + "=" + value]
  }

  function OtherLines(other: seq<(string, string)>): seq<string>
  {
    seq(|other|, i requires 0 <= i < |other| => other[i].0 + "=" + other[i].1)
  }

  function Keys(d: Description): seq<string>
  {
    Line("api", d.api) + (Line("server", d.server) + (Line("port", d.port) + (Line("dbname", d.dbname)
    + (Line("user", d.user) + Line("pass", d.pass)))))
  }

  function Written(d: Description): seq<string>
  {
    ["[section]"] + (Keys(d) + (["[select]"] + (d.select + (["[from]"] + (d.from + (["[where]"] + (d.where
    + (["[other]"] + OtherLines(d.other)))))))))
  }

  function FileOf(ds: seq<Description>): seq<string>
  {
    if |ds| == 0 then [] else FileOf(ds[..|ds| - 1]) + Written(ds[|ds| - 1])
  }

  /** A value that reads as it is written: no leading blank, or one of the operators. */
  predicate IsValueText(v: string)
  {
    || (|v| > 0 && v[0] != ' ' && forall i :: 0 <= i < |v| ==> IsValChar(v[i]))
    || v in {"==", ">=", "<=", "~=", "!="}
  }

  predicate IsKeyText(k: string)
  {
    (forall i :: 0 <= i < |k| ==> IsVarChar(k[i])) || k in {"!=", "<=", ">=", "~=", "*"}
  }

  /** A row of a text: neither comment nor tag, and without variables. */
  predicate IsRow(row: string)
  {
    Classify(row).Content? && '$' !in row
  }

  /** The text of a part: each row after a blank. */
  function Glue(rows: seq<string>): string
  {
    if |rows| == 0 then "" else Glue(rows[..|rows| - 1]) + (" " + rows[|rows| - 1])
  }

  /** Its values, keys and rows read as they are written. */
  ghost predicate IsReadable(d: Description)
  {
    && (forall v :: v in [d.api, d.server, d.port, d.dbname, d.user, d.pass] ==> v == "" || IsValueText(v))
    && (forall row :: row in d.select || row in d.from || row in d.where ==> IsRow(row))
    && (forall o :: o in d.other ==> IsKeyText(o.0) && IsValueText(o.1))
  }

  /** It has all that a section needs, in texts that can be read. */
  ghost predicate IsComplete(d: Description, load: ConstraintLoader)
  {
    && d.api != "" && d.server != "" && d.select != [] && d.from != []
    && SetOf(List.Attributes(Glue(d.select))).Some? && SetOf(List.Attributes(Glue(d.select))).value != map[]
    && (d.where != [] ==> load(Glue(d.where)).Some?)
  }

  /** The section is what was written, field by field; of several optional entries under one key the first. */
  ghost predicate IsDescribed(s: Section, d: Description, load: ConstraintLoader)
  {
    && s.api == d.api && s.server == d.server && s.port == d.port && s.dbname == d.dbname && s.user == d.user && s.pass == d.pass
    && Some(s.select) == SetOf(List.Attributes(Glue(d.select)))
    && s.from == Glue(d.from)
    && (if d.where == [] then s.constraints == [] else Some(s.constraints) == load(Glue(d.where)))
    && (forall k :: k in s.other <==> IsKeyOf(d.other, k))
    && (forall i :: 0 <= i < |d.other| && (forall j :: 0 <= j < i ==> d.other[j].0 != d.other[i].0) ==>
          s.other[d.other[i].0] == d.other[i].1)
  }

  // ----- single lines

  lemma DefinitionHasDollar(row: string)
    requires Definition(row).Some?
    ensures '$' in row
  {
    var m := FindDefinition(row, 0).value;
    DefinitionAtSound(row, m.d);
    assert row[m.ks] in row;
  }

  /** What a line written as key=value looks like. */
  ghost predicate IsPair(row: string, k: string, v: string)
  {
    && |row| == |k| + 1 + |v| && row[|k|] == '='
    && (forall i :: 0 <= i < |k| ==> row[i] == k[i])
    && (forall i :: |k| < i < |row| ==> row[i] == v[i - |k| - 1])
  }

  lemma PairHasNoDollar(row: string, k: string, v: string)
    requires IsKeyText(k) && IsValueText(v) && IsPair(row, k, v)
    ensures '$' !in row
  {
    forall i | 0 <= i < |row|
      ensures row[i] != '$'
    {
      if i < |k| {
        assert k[i] != '$';
      } else if i > |k| {
        assert v[i - |k| - 1] != '$';
      }
    }
  }

  lemma PairStart(row: string, k: string, v: string)
    requires IsKeyText(k) && IsPair(row, k, v)
    ensures row != "" && !IsSpace(row[0]) && row[0] != '#'
    ensures RunEnd(row, 0, IsSpace) == 0 && RunEnd(row, |k|, IsSpace) == |k|
  {
    RunEndIs(row, |k|, |k|, IsSpace);
    if |k| > 0 {
      assert row[0] == k[0];
    }
    RunEndIs(row, 0, 0, IsSpace);
  }

  lemma PairKey(row: string, k: string, v: string)
    requires IsKeyText(k) && IsPair(row, k, v)
    ensures KeyEnd(row, 0) == |k| && TagOf(row).None?
  {
    PairStart(row, k, v);
    if forall i :: 0 <= i < |k| ==> IsVarChar(k[i]) {
      RunEndIs(row, 0, |k|, IsVarChar);
      assert |k| > 0 ==> row[0] == k[0];
    } else {
      assert row[0] == k[0];
      assert |k| == 2 ==> row[1] == k[1];
      RunEndIs(row, 0, 0, IsVarChar);
    }
  }

  lemma PairValue(row: string, k: string, v: string)
    requires IsValueText(v) && IsPair(row, k, v)
    ensures FindValue(row, |k| + 1) == Some((|k| + 1, |row|))
  {
    assert row[|k| + 1] == v[0];
    RunEndIs(row, |k| + 1, |k| + 1, IsSpace);
    if |v| > 0 && v[0] != ' ' && forall i :: 0 <= i < |v| ==> IsValChar(v[i]) {
      RunEndIs(row, |k| + 1, |row|, IsValChar);
      assert |v| > 1 ==> row[|k| + 2] == v[1];
    } else {
      assert row[|k| + 2] == v[1];
    }
  }

  /** A line written as key=value is read as that pair. */
  lemma PairIsRead(k: string, v: string, row: string)
    requires IsKeyText(k) && IsValueText(v) && row == k + "=" + v
    ensures IsRow(row) && KeyValue(row) == Some((k, v))
  {
    hide RunEnd, FindValue, KeyEnd, IsKeyText, IsValueText, Definition, TagOf;
    assert IsPair(row, k, v);
    PairHasNoDollar(row, k, v);
    if Definition(row).Some? {
      DefinitionHasDollar(row);
    }
    PairStart(row, k, v);
    PairKey(row, k, v);
    PairValue(row, k, v);
    assert row[..|k|] == k && row[|k| + 1..] == v;
    assert row[0..|k|] == k && row[|k| + 1..|row|] == v;
  }

  // ----- reading a text from any part on

  function NextPart(part: Part, line: string): Part
  {
    match Classify(line) case Tag(tag) => PartOfTag(tag, part) case _ => part
  }

  function PartAfter(part: Part, lines: seq<string>): Part
  {
    if |lines| == 0 then part else NextPart(PartAfter(part, lines[..|lines| - 1]), lines[|lines| - 1])
  }

  /** The items of lines without variables, read from a part on. */
  function ItemsFrom(part: Part, lines: seq<string>): (items: seq<Item>)
    ensures |items| == |lines|
  {
    if |lines| == 0 then [] else
      var n := |lines| - 1;
      ItemsFrom(part, lines[..n]) + [Item(PartAfter(part, lines[..n]), EventOf(map[], lines[n]))]
  }

  lemma {:induction false} FromAppends(part: Part, a: seq<string>, b: seq<string>)
    ensures PartAfter(part, a + b) == PartAfter(PartAfter(part, a), b)
    ensures ItemsFrom(part, a + b) == ItemsFrom(part, a) + ItemsFrom(PartAfter(part, a), b)
    decreases |b|
  {
    hide NextPart, EventOf;
    if |b| == 0 {
      assert a + b == a;
    } else {
      var n := |b| - 1;
      assert (a + b)[..|a| + n] == a + b[..n];
      FromAppends(part, a, b[..n]);
    }
  }

  predicate NoDefinitions(lines: seq<string>)
  {
    forall i :: 0 <= i < |lines| ==> !Classify(lines[i]).Define?
  }

  lemma {:induction false} BeforeIsFrom(lines: seq<string>, i: nat)
    requires i <= |lines| && NoDefinitions(lines)
    ensures VarsBefore(lines, i) == map[] && PartBefore(lines, i) == PartAfter(NoPart, lines[..i])
  {
    hide Classify;
    if i > 0 {
      BeforeIsFrom(lines, i - 1);
      assert lines[..i][..i - 1] == lines[..i - 1] && lines[..i][i - 1] == lines[i - 1];
    }
  }

  lemma {:induction false} FromAt(part: Part, lines: seq<string>, i: nat)
    requires i < |lines|
    ensures ItemsFrom(part, lines)[i] == Item(PartAfter(part, lines[..i]), EventOf(map[], lines[i]))
  {
    hide NextPart, EventOf;
    var n := |lines| - 1;
    if i < n {
      FromAt(part, lines[..n], i);
      assert lines[..n][..i] == lines[..i];
    }
  }

  lemma ItemsAreFrom(lines: seq<string>)
    requires NoDefinitions(lines)
    ensures Items(lines) == ItemsFrom(NoPart, lines)
  {
    hide EventOf, NoDefinitions, PartAfter, PartBefore;
    forall i | 0 <= i < |lines|
      ensures Items(lines)[i] == ItemsFrom(NoPart, lines)[i]
    {
      BeforeIsFrom(lines, i);
      FromAt(NoPart, lines, i);
    }
  }

  // ----- what a stretch of items adds up to

  lemma {:induction false} ValueAppends(a: seq<Item>, b: seq<Item>, key: string)
    ensures Value(a + b, key) == if Value(b, key).Some? then Value(b, key) else Value(a, key)
    decreases |b|
  {
    if |b| == 0 {
      assert a + b == a;
    } else {
      assert (a + b)[..|a| + |b| - 1] == a + b[..|b| - 1];
      ValueAppends(a, b[..|b| - 1], key);
    }
  }

  lemma {:induction false} TextAppends(a: seq<Item>, b: seq<Item>, part: Part)
    ensures Text(a + b, part) == Text(a, part) + Text(b, part)
    decreases |b|
  {
    if |b| == 0 {
      assert a + b == a;
    } else {
      assert (a + b)[..|a| + |b| - 1] == a + b[..|b| - 1];
      TextAppends(a, b[..|b| - 1], part);
    }
  }

  /** Without entries of the [other] part the optional keys are those of what follows. */
  lemma {:induction false} OtherAppends(a: seq<Item>, b: seq<Item>)
    requires Other(a) == map[]
    ensures Other(a + b) == Other(b)
    decreases |b|
  {
    if |b| == 0 {
      assert a + b == a;
    } else {
      assert (a + b)[..|a| + |b| - 1] == a + b[..|b| - 1];
      OtherAppends(a, b[..|b| - 1]);
    }
  }

  // ----- the lines of a section

  /** The items of rows: all of one part, each with its row. */
  ghost predicate AreRows(c: seq<Item>, part: Part, rows: seq<string>)
  {
    |c| == |rows| && forall i :: 0 <= i < |c| ==>
      c[i].part == part && (c[i].event.Pair? || c[i].event.Free?) && c[i].event.row == rows[i]
  }

  lemma RowIsRead(part: Part, row: string)
    requires IsRow(row)
    ensures NextPart(part, row) == part
    ensures var e := EventOf(map[], row); (e.Pair? || e.Free?) && e.row == row
    ensures !Classify(row).Define?
  {
    hide Classify, KeyValue;
    NoRefWithoutDollar(row);
  }

  lemma {:induction false} RowsAreRead(part: Part, rows: seq<string>)
    requires forall row :: row in rows ==> IsRow(row)
    ensures PartAfter(part, rows) == part && AreRows(ItemsFrom(part, rows), part, rows)
  {
    hide EventOf, NextPart, IsRow, Classify, AreRows;
    if |rows| > 0 {
      var n := |rows| - 1;
      assert rows[n] in rows && forall row :: row in rows[..n] ==> row in rows;
      RowsAreRead(part, rows[..n]);
      RowIsRead(part, rows[n]);
      OneMoreRow(ItemsFrom(part, rows[..n]), part, rows, Item(part, EventOf(map[], rows[n])));
    } else {
      NoRows(part);
    }
  }

  lemma NoRows(part: Part)
    ensures AreRows([], part, [])
  {
  }

  lemma OneMoreRow(c: seq<Item>, part: Part, rows: seq<string>, x: Item)
    requires |rows| > 0 && AreRows(c, part, rows[..|rows| - 1])
    requires x.part == part && (x.event.Pair? || x.event.Free?) && x.event.row == rows[|rows| - 1]
    ensures AreRows(c + [x], part, rows)
  {
  }

  lemma {:induction false} RowsAdd(c: seq<Item>, part: Part, rows: seq<string>)
    requires AreRows(c, part, rows) && part in {SelectPart, FromPart, WherePart, OtherPart}
    ensures Legal(c) && (forall x :: x in c ==> !x.event.NewSection?)
    ensures forall key :: Value(c, key) == None
    ensures forall q :: Text(c, q) == if q == part then Glue(rows) else ""
    ensures part != OtherPart ==> Other(c) == map[]
  {
    if |c| > 0 {
      var n := |c| - 1;
      RowsAdd(c[..n], part, rows[..n]);
      assert c == c[..n] + [c[n]];
      LegalStep(c[..n], c[n]);
    }
  }

  lemma TagLine(tag: string)
    requires |tag| >= 2 && tag[0] == '[' && tag[|tag| - 1] == ']' && forall i :: 0 < i < |tag| - 1 ==> IsVarChar(tag[i])
    ensures Classify(tag) == Tag(tag)
  {
    RunEndIs(tag, 0, 0, IsSpace);
    assert ReadsTag(tag, 0, |tag|);
    TagComplete(tag, 0, |tag|);
    assert tag[0..|tag|] == tag;
    if Definition(tag).Some? {
      DefinitionHasDollar(tag);
    }
  }

  lemma TagIsRead(part: Part, tag: string)
    requires tag in {"[section]", "[select]", "[from]", "[where]", "[other]"}
    ensures PartAfter(part, [tag]) == PartOfTag(tag, part)
    ensures ItemsFrom(part, [tag]) == [Item(part, if tag == "[section]" then NewSection else Nothing)]
    ensures !Classify(tag).Define?
  {
    TagLine(tag);
    assert [tag][..0] == [];
  }

  lemma PartsOfTags(part: Part)
    ensures PartOfTag("[section]", part) == SectionPart && PartOfTag("[select]", part) == SelectPart
    ensures PartOfTag("[from]", part) == FromPart && PartOfTag("[where]", part) == WherePart
    ensures PartOfTag("[other]", part) == OtherPart
  {
  }

  // ----- the [section] part

  ghost predicate ArePairs(c: seq<Item>)
  {
    forall x :: x in c ==> x.part == SectionPart && x.event.Pair? && x.event.key in RESERVED_KEYS
  }

  lemma ReservedKey(key: string)
    requires key in {"api", "server", "port", "dbname", "user", "pass"}
    ensures IsKeyText(key) && key in RESERVED_KEYS
  {
  }

  lemma OnePair(x: Item, k: string)
    requires x.part == SectionPart && x.event.Pair?
    ensures Value([x], k) == if x.event.key == k then Some(x.event.val) else None
  {
    assert [x][..0] == [];
  }

  lemma LineIsRead(key: string, value: string, k: string)
    requires key in {"api", "server", "port", "dbname", "user", "pass"} && (value == "" || IsValueText(value))
    ensures var c := ItemsFrom(SectionPart, Line(key, value));
            && PartAfter(SectionPart, Line(key, value)) == SectionPart && ArePairs(c)
            && Value(c, k) == if k == key && value != "" then Some(value) else None
  {
    hide IsValueText, IsKeyText, IsRow, KeyValue, NextPart, EventOf;
    ReservedKey(key);
    if value != "" {
      var row := key + "=" + value;
      PairIsRead(key, value, row);
      PairItem(SectionPart, key, value, row);
      OnePair(Item(SectionPart, Pair(key, value, row)), k);
    }
  }

  lemma PairItem(part: Part, key: string, value: string, row: string)
    requires IsRow(row) && KeyValue(row) == Some((key, value))
    ensures ItemsFrom(part, [row]) == [Item(part, Pair(key, value, row))] && PartAfter(part, [row]) == part
  {
    hide Classify, KeyValue;
    NoRefWithoutDollar(row);
    assert [row][..0] == [];
  }

  lemma PairsAppend(a: seq<Item>, b: seq<Item>)
    requires ArePairs(a) && ArePairs(b)
    ensures ArePairs(a + b)
  {
  }

  /** The key=value lines of a section, as they are read. */
  lemma KeysAreRead(d: Description, key: string)
    requires forall v :: v in [d.api, d.server, d.port, d.dbname, d.user, d.pass] ==> v == "" || IsValueText(v)
    ensures var c := ItemsFrom(SectionPart, Keys(d));
            && PartAfter(SectionPart, Keys(d)) == SectionPart && ArePairs(c)
            && Value(c, key) ==
               if key == "pass" && d.pass != "" then Some(d.pass)
               else if key == "user" && d.user != "" then Some(d.user)
               else if key == "dbname" && d.dbname != "" then Some(d.dbname)
               else if key == "port" && d.port != "" then Some(d.port)
               else if key == "server" && d.server != "" then Some(d.server)
               else if key == "api" && d.api != "" then Some(d.api) else None
  {
    hide IsValueText, ArePairs, Line, Value, ItemsFrom, PartAfter;
    var values := [d.api, d.server, d.port, d.dbname, d.user, d.pass];
    assert values[0] in values && values[1] in values && values[2] in values && values[3] in values && values[4] in values
           && values[5] in values;
    LineIsRead("pass", d.pass, key);
    LineFirst("user", d.user, Line("pass", d.pass), key);
    var l4 := Line("user", d.user) + Line("pass", d.pass);
    LineFirst("dbname", d.dbname, l4, key);
    var l3 := Line("dbname", d.dbname) + l4;
    LineFirst("port", d.port, l3, key);
    var l2 := Line("port", d.port) + l3;
    LineFirst("server", d.server, l2, key);
    LineFirst("api", d.api, Line("server", d.server) + l2, key);
  }

  /** One more line in front. */
  lemma LineFirst(key: string, value: string, rest: seq<string>, k: string)
    requires key in {"api", "server", "port", "dbname", "user", "pass"} && (value == "" || IsValueText(value))
    requires PartAfter(SectionPart, rest) == SectionPart && ArePairs(ItemsFrom(SectionPart, rest))
    ensures var c := ItemsFrom(SectionPart, Line(key, value) + rest);
            && PartAfter(SectionPart, Line(key, value) + rest) == SectionPart && ArePairs(c)
            && Value(c, k) ==
               if Value(ItemsFrom(SectionPart, rest), k).Some? then Value(ItemsFrom(SectionPart, rest), k)
               else if k == key && value != "" then Some(value) else None
  {
    hide IsValueText, ArePairs, Line, Value, ItemsFrom, PartAfter;
    LineIsRead(key, value, k);
    FromAppends(SectionPart, Line(key, value), rest);
    PairsAppend(ItemsFrom(SectionPart, Line(key, value)), ItemsFrom(SectionPart, rest));
    ValueAppends(ItemsFrom(SectionPart, Line(key, value)), ItemsFrom(SectionPart, rest), k);
  }

  lemma {:induction false} PairsAdd(c: seq<Item>)
    requires ArePairs(c)
    ensures Legal(c) && (forall x :: x in c ==> !x.event.NewSection?) && Other(c) == map[]
    ensures forall q :: q != SectionPart ==> Text(c, q) == ""
  {
    if |c| > 0 {
      var n := |c| - 1;
      assert c == c[..n] + [c[n]];
      PairsAdd(c[..n]);
    }
  }

  // ----- the [other] part

  ghost predicate ArePairsOf(c: seq<Item>, other: seq<(string, string)>)
  {
    |c| == |other| && forall i :: 0 <= i < |c| ==>
      c[i].part == OtherPart && c[i].event.Pair? && c[i].event.key == other[i].0 && c[i].event.val == other[i].1
  }

  lemma {:induction false} OtherLinesAreRead(other: seq<(string, string)>)
    requires forall o :: o in other ==> IsKeyText(o.0) && IsValueText(o.1)
    ensures var lines := OtherLines(other);
            && (forall row :: row in lines ==> IsRow(row))
            && ArePairsOf(ItemsFrom(OtherPart, lines), other)
  {
    hide IsKeyText, IsValueText, IsRow, KeyValue, ItemsFrom, PartAfter, AreRows;
    if |other| > 0 {
      var n := |other| - 1;
      var before, row := OtherLines(other[..n]), other[n].0 + "=" + other[n].1;
      assert other[n] in other && forall o :: o in other[..n] ==> o in other;
      OtherLinesAreRead(other[..n]);
      PairIsRead(other[n].0, other[n].1, row);
      RowsAreRead(OtherPart, before);
      assert OtherLines(other) == before + [row];
      FromAppends(OtherPart, before, [row]);
      PairItem(OtherPart, other[n].0, other[n].1, row);
    } else {
      NoItems(OtherPart, OtherLines(other));
    }
  }

  lemma NoItems(part: Part, lines: seq<string>)
    requires lines == []
    ensures ItemsFrom(part, lines) == [] && PartAfter(part, lines) == part
  {
  }

  ghost predicate IsKeyOf(other: seq<(string, string)>, k: string)
  {
    exists i :: 0 <= i < |other| && other[i].0 == k
  }

  lemma KeyOfOneMore(other: seq<(string, string)>, o: (string, string), k: string)
    ensures IsKeyOf(other + [o], k) <==> IsKeyOf(other, k) || o.0 == k
  {
    var more := other + [o];
    assert forall i :: 0 <= i < |other| ==> more[i] == other[i];
    assert more[|other|] == o;
    if IsKeyOf(other, k) {
      var i :| 0 <= i < |other| && other[i].0 == k;
      assert more[i].0 == k;
    }
  }

  /** The first entry of each key counts. */
  lemma {:induction false} FirstEntriesCount(c: seq<Item>, other: seq<(string, string)>)
    requires ArePairsOf(c, other)
    ensures forall k :: k in Other(c) <==> IsKeyOf(other, k)
    ensures forall i :: 0 <= i < |other| && (forall j :: 0 <= j < i ==> other[j].0 != other[i].0) ==>
              other[i].0 in Other(c) && Other(c)[other[i].0] == other[i].1
  {
    if |c| > 0 {
      var n := |c| - 1;
      var before := other[..n];
      assert other == before + [other[n]] && forall i :: 0 <= i < n ==> before[i] == other[i];
      FirstEntriesCount(c[..n], before);
      forall k
        ensures IsKeyOf(other, k) <==> IsKeyOf(before, k) || other[n].0 == k
      {
        KeyOfOneMore(before, other[n], k);
      }
    }
  }

  // ----- a whole section

  function Tagged(part: Part, rows: seq<Item>): seq<Item>
  {
    [Item(part, Nothing)] + rows
  }

  /** The items of a section after its [section] tag: keys, then the four tagged parts. */
  function Content(k: seq<Item>, s: seq<Item>, f: seq<Item>, w: seq<Item>, o: seq<Item>): seq<Item>
  {
    k + (Tagged(SectionPart, s) + (Tagged(SelectPart, f) + (Tagged(FromPart, w) + Tagged(WherePart, o))))
  }

  function ContentOfWritten(d: Description): seq<Item>
  {
    Content(ItemsFrom(SectionPart, Keys(d)), ItemsFrom(SelectPart, d.select), ItemsFrom(FromPart, d.from),
            ItemsFrom(WherePart, d.where), ItemsFrom(OtherPart, OtherLines(d.other)))
  }

  lemma TaggedIsRead(part: Part, tag: string, next: Part, rows: seq<string>, rest: seq<string>)
    requires tag in {"[select]", "[from]", "[where]", "[other]"} && PartOfTag(tag, part) == next
    requires forall row :: row in rows ==> IsRow(row)
    ensures ItemsFrom(part, [tag] + (rows + rest)) == Tagged(part, ItemsFrom(next, rows)) + ItemsFrom(next, rest)
    ensures PartAfter(part, [tag] + (rows + rest)) == PartAfter(next, rest)
  {
    hide IsRow, ItemsFrom, PartAfter, PartOfTag;
    TagIsRead(part, tag);
    RowsAreRead(next, rows);
    FromAppends(part, [tag], rows + rest);
    FromAppends(next, rows, rest);
  }

  lemma SectionIsRead(d: Description, part: Part)
    requires IsReadable(d)
    ensures ItemsFrom(part, Written(d)) == [Item(part, NewSection)] + ContentOfWritten(d)
    ensures PartAfter(part, Written(d)) == OtherPart
  {
    hide IsRow, ItemsFrom, PartAfter, PartOfTag, IsKeyText, IsValueText, Keys, OtherLines, Classify, Value, ArePairs, ArePairsOf;
    PartsOfTags(part);
    PartsOfTags(SectionPart);
    PartsOfTags(SelectPart);
    PartsOfTags(FromPart);
    PartsOfTags(WherePart);
    OtherLinesAreRead(d.other);
    var other := OtherLines(d.other);
    var l4 := ["[other]"] + other;
    var l3 := ["[where]"] + (d.where + l4);
    var l2 := ["[from]"] + (d.from + l3);
    var l1 := ["[select]"] + (d.select + l2);
    assert other + [] == other;
    TaggedIsRead(WherePart, "[other]", OtherPart, other, []);
    NoItems(OtherPart, []);
    TaggedIsRead(FromPart, "[where]", WherePart, d.where, l4);
    TaggedIsRead(SelectPart, "[from]", FromPart, d.from, l3);
    TaggedIsRead(SectionPart, "[select]", SelectPart, d.select, l2);
    KeysAreRead(d, "api");
    FromAppends(SectionPart, Keys(d), l1);
    TagIsRead(part, "[section]");
    FromAppends(part, ["[section]"], Keys(d) + l1);
  }

  // ----- what a written section adds up to

  lemma TaggedOther(now: Part, c: seq<Item>)
    ensures Other(Tagged(now, c)) == Other(c)
    ensures forall key :: Value(Tagged(now, c), key) == Value(c, key)
    ensures forall q :: Text(Tagged(now, c), q) == Text(c, q)
  {
    var tag := [Item(now, Nothing)];
    assert tag[..0] == [];
    OtherAppends(tag, c);
    forall key
      ensures Value(tag + c, key) == Value(c, key)
    {
      ValueAppends(tag, c, key);
    }
    forall q
      ensures Text(tag + c, q) == Text(c, q)
    {
      TextAppends(tag, c, q);
    }
  }

  lemma ContentValue(k: seq<Item>, s: seq<Item>, f: seq<Item>, w: seq<Item>, o: seq<Item>, key: string)
    requires Value(s, key) == Value(f, key) == Value(w, key) == Value(o, key) == None
    ensures Value(Content(k, s, f, w, o), key) == Value(k, key)
  {
    hide Value, Tagged;
    TaggedOther(SectionPart, s);
    TaggedOther(SelectPart, f);
    TaggedOther(FromPart, w);
    TaggedOther(WherePart, o);
    var l3 := Tagged(FromPart, w) + Tagged(WherePart, o);
    var l2 := Tagged(SelectPart, f) + l3;
    ValueAppends(Tagged(FromPart, w), Tagged(WherePart, o), key);
    ValueAppends(Tagged(SelectPart, f), l3, key);
    ValueAppends(Tagged(SectionPart, s), l2, key);
    ValueAppends(k, Tagged(SectionPart, s) + l2, key);
  }

  lemma ContentText(k: seq<Item>, s: seq<Item>, f: seq<Item>, w: seq<Item>, o: seq<Item>, q: Part)
    ensures Text(Content(k, s, f, w, o), q) == Text(k, q) + (Text(s, q) + (Text(f, q) + (Text(w, q) + Text(o, q))))
  {
    hide Text, Tagged;
    TaggedOther(SectionPart, s);
    TaggedOther(SelectPart, f);
    TaggedOther(FromPart, w);
    TaggedOther(WherePart, o);
    var l3 := Tagged(FromPart, w) + Tagged(WherePart, o);
    var l2 := Tagged(SelectPart, f) + l3;
    TextAppends(Tagged(FromPart, w), Tagged(WherePart, o), q);
    TextAppends(Tagged(SelectPart, f), l3, q);
    TextAppends(Tagged(SectionPart, s), l2, q);
    TextAppends(k, Tagged(SectionPart, s) + l2, q);
  }

  lemma ContentOther(k: seq<Item>, s: seq<Item>, f: seq<Item>, w: seq<Item>, o: seq<Item>)
    requires Other(k) == Other(s) == Other(f) == Other(w) == map[]
    ensures Other(Content(k, s, f, w, o)) == Other(o)
  {
    hide Other, Tagged;
    TaggedOther(SectionPart, s);
    TaggedOther(SelectPart, f);
    TaggedOther(FromPart, w);
    TaggedOther(WherePart, o);
    var l3 := Tagged(FromPart, w) + Tagged(WherePart, o);
    var l2 := Tagged(SelectPart, f) + l3;
    OtherAppends(Tagged(FromPart, w), Tagged(WherePart, o));
    OtherAppends(Tagged(SelectPart, f), l3);
    OtherAppends(Tagged(SectionPart, s), l2);
    OtherAppends(k, Tagged(SectionPart, s) + l2);
  }

  /** No item of the stretch is illegal or starts a section. */
  ghost predicate IsInner(c: seq<Item>)
  {
    forall x :: x in c ==> LegalItem(x) && !x.event.NewSection?
  }

  lemma ContentIsInner(k: seq<Item>, s: seq<Item>, f: seq<Item>, w: seq<Item>, o: seq<Item>)
    requires IsInner(k) && IsInner(s) && IsInner(f) && IsInner(w) && IsInner(o)
    ensures IsInner(Content(k, s, f, w, o))
  {
  }

  lemma RowsAreInner(c: seq<Item>, part: Part, rows: seq<string>)
    requires AreRows(c, part, rows) && part in {SelectPart, FromPart, WherePart, OtherPart}
    ensures IsInner(c)
  {
    RowsAdd(c, part, rows);
  }

  /** The items of a well-formed description add up to it. */
  lemma WrittenAddsUp(d: Description)
    requires IsReadable(d)
    ensures var c := ContentOfWritten(d);
            && IsInner(c)
            && OrEmpty(Value(c, "api")) == d.api && OrEmpty(Value(c, "server")) == d.server && OrEmpty(Value(c, "port")) == d.port
            && OrEmpty(Value(c, "dbname")) == d.dbname && OrEmpty(Value(c, "user")) == d.user && OrEmpty(Value(c, "pass")) == d.pass
            && Text(c, SelectPart) == Glue(d.select) && Text(c, FromPart) == Glue(d.from) && Text(c, WherePart) == Glue(d.where)
            && Other(c) == Other(ItemsFrom(OtherPart, OtherLines(d.other)))
  {
    hide IsReadable, ContentOfWritten, Value, Text, Other, ItemsFrom, OtherLines, Glue, IsInner;
    TextsAddUp(d);
    KeyIsKept(d, "api");
    KeyIsKept(d, "server");
    KeyIsKept(d, "port");
    KeyIsKept(d, "dbname");
    KeyIsKept(d, "user");
    KeyIsKept(d, "pass");
  }

  lemma TextsAddUp(d: Description)
    requires IsReadable(d)
    ensures var c := ContentOfWritten(d);
            && IsInner(c)
            && Text(c, SelectPart) == Glue(d.select) && Text(c, FromPart) == Glue(d.from) && Text(c, WherePart) == Glue(d.where)
            && Other(c) == Other(ItemsFrom(OtherPart, OtherLines(d.other)))
  {
    hide Value, Text, Other, ItemsFrom, PartAfter, LegalItem, IsRow, Keys, OtherLines, Glue, ArePairs, AreRows, Content, IsInner;
    var k, s := ItemsFrom(SectionPart, Keys(d)), ItemsFrom(SelectPart, d.select);
    var f, w, o := ItemsFrom(FromPart, d.from), ItemsFrom(WherePart, d.where), ItemsFrom(OtherPart, OtherLines(d.other));
    KeysAreRead(d, "api");
    PairsAdd(k);
    PairsAreInner(k);
    PartAdds(SelectPart, d.select);
    PartAdds(FromPart, d.from);
    PartAdds(WherePart, d.where);
    OtherLinesAreRead(d.other);
    PartAdds(OtherPart, OtherLines(d.other));
    ContentIsInner(k, s, f, w, o);
    ContentOther(k, s, f, w, o);
    ContentText(k, s, f, w, o, SelectPart);
    ContentText(k, s, f, w, o, FromPart);
    ContentText(k, s, f, w, o, WherePart);
  }

  lemma PairsAreInner(c: seq<Item>)
    requires ArePairs(c)
    ensures IsInner(c)
  {
  }

  lemma PartAdds(part: Part, rows: seq<string>)
    requires part in {SelectPart, FromPart, WherePart, OtherPart} && forall row :: row in rows ==> IsRow(row)
    ensures var c := ItemsFrom(part, rows);
            && IsInner(c) && (forall key :: Value(c, key) == None)
            && (forall q :: Text(c, q) == if q == part then Glue(rows) else "")
            && (part != OtherPart ==> Other(c) == map[])
  {
    hide Value, Text, Other, ItemsFrom, PartAfter, IsRow, Glue, AreRows, IsInner;
    RowsAreRead(part, rows);
    RowsAdd(ItemsFrom(part, rows), part, rows);
    RowsAreInner(ItemsFrom(part, rows), part, rows);
  }

  /** The value written for a key, and nothing for any other name. */
  function ValueOf(d: Description, key: string): string
  {
    if key == "pass" then d.pass else if key == "user" then d.user else if key == "dbname" then d.dbname
    else if key == "port" then d.port else if key == "server" then d.server else if key == "api" then d.api else ""
  }

  lemma KeyIsKept(d: Description, key: string)
    requires IsReadable(d)
    ensures OrEmpty(Value(ContentOfWritten(d), key)) == ValueOf(d, key)
    ensures ValueOf(d, key) != "" <==> Value(ContentOfWritten(d), key).Some?
  {
    hide Value, Text, Other, ItemsFrom, PartAfter, IsRow, Keys, OtherLines, Glue, ArePairs, AreRows, Content, IsInner;
    var k, s := ItemsFrom(SectionPart, Keys(d)), ItemsFrom(SelectPart, d.select);
    var f, w, o := ItemsFrom(FromPart, d.from), ItemsFrom(WherePart, d.where), ItemsFrom(OtherPart, OtherLines(d.other));
    KeysAreRead(d, key);
    PartAdds(SelectPart, d.select);
    PartAdds(FromPart, d.from);
    PartAdds(WherePart, d.where);
    OtherLinesAreRead(d.other);
    PartAdds(OtherPart, OtherLines(d.other));
    ContentValue(k, s, f, w, o, key);
  }

  lemma {:induction false} GlueIsNonEmpty(rows: seq<string>)
    ensures Glue(rows) == "" <==> rows == []
  {
  }

  /** A description is read as a complete section exactly when it is complete, and is then built as described. */
  lemma WrittenIsBuilt(d: Description, load: ConstraintLoader)
    requires IsReadable(d)
    ensures Complete(ContentOfWritten(d), load) <==> IsComplete(d, load)
    ensures IsComplete(d, load) ==> IsDescribed(Build(ContentOfWritten(d), load), d, load)
  {
    hide Value, Text, Other, ItemsFrom, PartAfter, IsRow, Keys, OtherLines, Glue, Content, ContentOfWritten, LegalItem,
         List.Attributes, SetOf, IsKeyOf, ArePairsOf, IsKeyText, IsValueText;
    WrittenAddsUp(d);
    KeyIsKept(d, "api");
    KeyIsKept(d, "server");
    GlueIsNonEmpty(d.select);
    GlueIsNonEmpty(d.from);
    GlueIsNonEmpty(d.where);
    OtherLinesAreRead(d.other);
    FirstEntriesCount(ItemsFrom(OtherPart, OtherLines(d.other)), d.other);
  }

  // ----- a whole file

  /** One more section after the items of others. */
  lemma SectionAppends(items: seq<Item>, part: Part, c: seq<Item>, s: nat)
    requires IsInner(c) && (Sections(items) > 0 || items == []) && s <= Sections(items)
    ensures var more := items + ([Item(part, NewSection)] + c);
            && Sections(more) == Sections(items) + 1
            && ContentOf(more, s) == if s == Sections(items) then c else ContentOf(items, s)
  {
    hide Sections, ContentOf, IsInner;
    var tag := Item(part, NewSection);
    if s == Sections(items) {
      NothingInNextSection(items);
    }
    ContentStep(items, tag, s);
    assert items + ([tag] + c) == items + [tag] + c;
    InnerAppends(items + [tag], c, s);
  }

  lemma NothingInNextSection(items: seq<Item>)
    requires Sections(items) > 0 || items == []
    ensures ContentOf(items, Sections(items)) == []
  {
    if Sections(items) > 0 {
      LaterSectionsAreEmpty(items, Sections(items));
    }
  }

  ghost predicate AppendsTo(items: seq<Item>, c: seq<Item>, s: nat)
  {
    && Sections(items + c) == Sections(items)
    && ContentOf(items + c, s) == if s == Current(items) then ContentOf(items, s) + c else ContentOf(items, s)
  }

  lemma OneMoreInner(items: seq<Item>, c: seq<Item>, x: Item, s: nat)
    requires AppendsTo(items, c, s) && !x.event.NewSection?
    ensures AppendsTo(items, c + [x], s)
  {
    hide Sections, ContentOf;
    assert items + (c + [x]) == items + c + [x];
    assert ContentOf(items, s) + c + [x] == ContentOf(items, s) + (c + [x]);
    ContentStep(items + c, x, s);
  }

  lemma {:induction false} InnerAppends(items: seq<Item>, c: seq<Item>, s: nat)
    requires IsInner(c)
    ensures AppendsTo(items, c, s)
    decreases |c|
  {
    hide LegalItem, Sections, ContentOf;
    if |c| == 0 {
      assert items + c == items;
    } else {
      hide AppendsTo;
      var n := |c| - 1;
      assert c[n] in c && c == c[..n] + [c[n]] && forall x :: x in c[..n] ==> x in c;
      InnerAppends(items, c[..n], s);
      OneMoreInner(items, c[..n], c[n], s);
    }
  }

  function PartsOfFile(n: nat): Part { if n == 0 then NoPart else OtherPart }

  /** The items are those of the descriptions, and the last line read is of part `after`. */
  ghost predicate AreWritten(items: seq<Item>, after: Part, ds: seq<Description>)
  {
    && after == PartsOfFile(|ds|)
    && Sections(items) == |ds| && (ds == [] ==> items == [])
    && Legal(items)
    && forall s: nat :: s < |ds| ==> ContentOf(items, s) == ContentOfWritten(ds[s])
  }

  lemma OneMoreSection(items: seq<Item>, after: Part, ds: seq<Description>, d: Description)
    requires AreWritten(items, after, ds) && IsInner(ContentOfWritten(d))
    ensures AreWritten(items + ([Item(after, NewSection)] + ContentOfWritten(d)), OtherPart, ds + [d])
  {
    hide ContentOfWritten, IsInner, Sections, ContentOf, LegalItem;
    forall s: nat | s <= |ds|
      ensures var more := items + ([Item(after, NewSection)] + ContentOfWritten(d));
              && Sections(more) == |ds| + 1
              && ContentOf(more, s) == if s == |ds| then ContentOfWritten(d) else ContentOf(items, s)
    {
      SectionAppends(items, after, ContentOfWritten(d), s);
    }
    SectionAppends(items, after, ContentOfWritten(d), 0);
    InnerIsLegal(items, after, ContentOfWritten(d));
  }

  lemma {:induction false} FileIsRead(ds: seq<Description>)
    requires forall d :: d in ds ==> IsReadable(d)
    ensures AreWritten(ItemsFrom(NoPart, FileOf(ds)), PartAfter(NoPart, FileOf(ds)), ds)
  {
    hide ItemsFrom, PartAfter, Written, ContentOfWritten, IsInner, IsReadable, AreWritten;
    if |ds| == 0 {
      NoItems(NoPart, []);
      NoSectionsYet();
    } else {
      var n := |ds| - 1;
      var d := ds[n];
      assert ds == ds[..n] + [d] && forall e :: e in ds[..n] ==> e in ds;
      FileIsRead(ds[..n]);
      var before, after := ItemsFrom(NoPart, FileOf(ds[..n])), PartAfter(NoPart, FileOf(ds[..n]));
      SectionIsRead(d, after);
      FromAppends(NoPart, FileOf(ds[..n]), Written(d));
      WrittenAddsUp(d);
      OneMoreSection(before, after, ds[..n], d);
    }
  }

  lemma NoSectionsYet()
    ensures AreWritten([], NoPart, [])
  {
  }

  lemma InnerIsLegal(items: seq<Item>, part: Part, c: seq<Item>)
    requires Legal(items) && IsInner(c)
    ensures Legal(items + ([Item(part, NewSection)] + c))
  {
  }

  predicate IsTagText(line: string)
  {
    line in {"[section]", "[select]", "[from]", "[where]", "[other]"}
  }

  ghost predicate RowsAndTags(lines: seq<string>)
  {
    forall i :: 0 <= i < |lines| ==> IsRow(lines[i]) || IsTagText(lines[i])
  }

  lemma RowsAndTagsAppend(a: seq<string>, b: seq<string>)
    requires RowsAndTags(a) && RowsAndTags(b)
    ensures RowsAndTags(a + b)
  {
    hide IsRow, IsTagText;
  }

  lemma RowsOnly(rows: seq<string>)
    requires forall row :: row in rows ==> IsRow(row)
    ensures RowsAndTags(rows)
  {
    hide IsRow, IsTagText;
  }

  lemma OneTag(tag: string)
    requires IsTagText(tag)
    ensures RowsAndTags([tag])
  {
  }

  lemma LineIsRow(key: string, value: string)
    requires key in {"api", "server", "port", "dbname", "user", "pass"} && (value == "" || IsValueText(value))
    ensures RowsAndTags(Line(key, value))
  {
    hide IsValueText, IsKeyText, IsRow, IsTagText;
    ReservedKey(key);
    if value != "" {
      PairIsRead(key, value, key + "=" + value);
    }
  }

  lemma KeysAreRows(d: Description)
    requires forall v :: v in [d.api, d.server, d.port, d.dbname, d.user, d.pass] ==> v == "" || IsValueText(v)
    ensures RowsAndTags(Keys(d))
  {
    hide IsValueText, RowsAndTags, Line;
    var values := [d.api, d.server, d.port, d.dbname, d.user, d.pass];
    assert values[0] in values && values[1] in values && values[2] in values && values[3] in values && values[4] in values
           && values[5] in values;
    LineIsRow("api", d.api);
    LineIsRow("server", d.server);
    LineIsRow("port", d.port);
    LineIsRow("dbname", d.dbname);
    LineIsRow("user", d.user);
    LineIsRow("pass", d.pass);
    var l1 := Line("user", d.user) + Line("pass", d.pass);
    var l2 := Line("dbname", d.dbname) + l1;
    var l3 := Line("port", d.port) + l2;
    RowsAndTagsAppend(Line("user", d.user), Line("pass", d.pass));
    RowsAndTagsAppend(Line("dbname", d.dbname), l1);
    RowsAndTagsAppend(Line("port", d.port), l2);
    RowsAndTagsAppend(Line("server", d.server), l3);
    RowsAndTagsAppend(Line("api", d.api), Line("server", d.server) + l3);
  }

  lemma WrittenIsRowsAndTags(d: Description)
    requires IsReadable(d)
    ensures RowsAndTags(Written(d)) && Written(d) != [] && Written(d)[0] == "[section]"
  {
    hide IsValueText, IsKeyText, IsRow, RowsAndTags, Keys, OtherLines;
    OtherLinesAreRead(d.other);
    var other := OtherLines(d.other);
    RowsOnly(other);
    RowsOnly(d.select);
    RowsOnly(d.from);
    RowsOnly(d.where);
    KeysAreRows(d);
    OneTag("[section]");
    OneTag("[select]");
    OneTag("[from]");
    OneTag("[where]");
    OneTag("[other]");
    RowsAndTagsAppend(["[other]"], other);
    var l4 := ["[other]"] + other;
    RowsAndTagsAppend(d.where, l4);
    RowsAndTagsAppend(["[where]"], d.where + l4);
    var l3 := ["[where]"] + (d.where + l4);
    RowsAndTagsAppend(d.from, l3);
    RowsAndTagsAppend(["[from]"], d.from + l3);
    var l2 := ["[from]"] + (d.from + l3);
    RowsAndTagsAppend(d.select, l2);
    RowsAndTagsAppend(["[select]"], d.select + l2);
    var l1 := ["[select]"] + (d.select + l2);
    RowsAndTagsAppend(Keys(d), l1);
    RowsAndTagsAppend(["[section]"], Keys(d) + l1);
  }

  lemma {:induction false} FileIsRowsAndTags(ds: seq<Description>)
    requires forall d :: d in ds ==> IsReadable(d)
    ensures RowsAndTags(FileOf(ds)) && (ds != [] ==> FileOf(ds) != [] && FileOf(ds)[0] == "[section]")
  {
    hide RowsAndTags, IsReadable, Written;
    if |ds| == 0 {
      RowsOnly([]);
    } else {
      var n := |ds| - 1;
      assert ds[n] in ds && forall e :: e in ds[..n] ==> e in ds;
      FileIsRowsAndTags(ds[..n]);
      WrittenIsRowsAndTags(ds[n]);
      RowsAndTagsAppend(FileOf(ds[..n]), Written(ds[n]));
    }
  }

  lemma NothingDefined(lines: seq<string>)
    requires RowsAndTags(lines)
    ensures NoDefinitions(lines)
  {
    forall i | 0 <= i < |lines|
      ensures !Classify(lines[i]).Define?
    {
      if IsTagText(lines[i]) {
        TagIsRead(NoPart, lines[i]);
      }
    }
  }

  lemma {:induction false} PartIsKept(part: Part, lines: seq<string>)
    requires part != NoPart
    ensures PartAfter(part, lines) != NoPart
  {
    hide Classify;
    if |lines| > 0 {
      PartIsKept(part, lines[..|lines| - 1]);
    }
  }

  lemma FileHasNoOrphans(ds: seq<Description>)
    requires forall d :: d in ds ==> IsReadable(d)
    ensures NoDefinitions(FileOf(ds)) && NoOrphans(FileOf(ds))
  {
    hide RowsAndTags, IsReadable, Written, NoDefinitions, PartAfter, PartBefore, IsTagText, IsRow, FileOf;
    var lines := FileOf(ds);
    FileIsRowsAndTags(ds);
    NothingDefined(lines);
    if |lines| == 0 {
      return;
    }
    EmptyFile(ds);
    TagLine("[section]");
    forall i | 0 < i < |lines|
      ensures !PartBefore(lines, i).NoPart?
    {
      BeforeIsFrom(lines, i);
      assert lines[..i] == ["[section]"] + lines[1..i];
      FromAppends(NoPart, ["[section]"], lines[1..i]);
      TagIsRead(NoPart, "[section]");
      PartsOfTags(NoPart);
      PartIsKept(SectionPart, lines[1..i]);
    }
  }

  lemma EmptyFile(ds: seq<Description>)
    ensures ds == [] ==> FileOf(ds) == []
  {
  }

  /** Reading what was written gives back the sections, field by field and in order; if one of them lacks
      something the file is rejected. */
  lemma WrittenIsRead(ds: seq<Description>, load: ConstraintLoader)
    requires ds != [] && forall d :: d in ds ==> IsReadable(d)
    ensures var r := Parse(FileOf(ds), load);
            if forall d :: d in ds ==> IsComplete(d, load) then
              && r.Loaded? && |r.sections| == |ds|
              && forall i :: 0 <= i < |ds| ==> IsDescribed(r.sections[i], ds[i], load)
            else r.Rejected?
  {
    hide IsReadable, IsComplete, FileOf, Build, Complete, IsDescribed, ContentOf, Sections, ItemsFrom, NoDefinitions, NoOrphans,
         LegalItem, ContentOfWritten;
    var items := Items(FileOf(ds));
    FileHasNoOrphans(ds);
    ItemsAreFrom(FileOf(ds));
    FileIsRead(ds);
    forall i | 0 <= i < |ds|
      ensures Complete(ContentOf(items, i), load) <==> IsComplete(ds[i], load)
      ensures IsComplete(ds[i], load) ==> IsDescribed(Built(items, |ds|, load)[i], ds[i], load)
    {
      WrittenIsBuilt(ds[i], load);
      BuiltAt(items, |ds|, load, i);
    }
  }

  /** The same of the container that reads the file. */
  method ReadWritten(c: SQLTextContainer, ds: seq<Description>, mtime: int, load: ConstraintLoader) returns (r: Reading)
    requires c.Valid() && ds != [] && forall d :: d in ds ==> IsReadable(d)
    modifies c
    ensures r == Finished(true) <==> forall d :: d in ds ==> IsComplete(d, load)
    ensures r == Finished(true) ==> c.isReady && c.Valid() && c.actual == 0 && |c.dataset| == |ds|
    ensures r == Finished(true) ==> forall i :: 0 <= i < |ds| ==> IsDescribed(c.dataset[i], ds[i], load)
  {
    hide IsReadable, IsComplete, FileOf, IsDescribed, Parse, NoOrphans;
    FileHasNoOrphans(ds);
    WrittenIsRead(ds, load);
    r := c.Setup(Some(File(mtime, FileOf(ds))), load);
  }

  lemma IllegalIsRejected(lines: seq<string>, i: nat, load: ConstraintLoader)
    requires i < |lines| && !LegalItem(ItemAt(lines, i))
    ensures Parse(lines, load).Rejected?
  {
    hide LegalItem, AllComplete, Built, FirstFault;
    assert Items(lines)[i] in Items(lines);
  }

  /** A section has no keys but the six. */
  lemma UnknownKeyIsRejected(lines: seq<string>, i: nat, key: string, value: string, load: ConstraintLoader)
    requires i < |lines| && PartBefore(lines, i) == SectionPart && lines[i] == key + "=" + value
    requires IsKeyText(key) && IsValueText(value) && key !in {"api", "server", "port", "dbname", "user", "pass"}
    ensures Parse(lines, load).Rejected?
  {
    hide IsKeyText, IsValueText, KeyValue, Classify, Parse, PartBefore, VarsBefore;
    PairIsRead(key, value, lines[i]);
    NoRefWithoutDollar(lines[i]);
    IllegalIsRejected(lines, i, load);
  }

  /** Nor has it rows of any other form. */
  lemma FreeRowIsRejected(lines: seq<string>, i: nat, load: ConstraintLoader)
    requires i < |lines| && PartBefore(lines, i) == SectionPart && IsRow(lines[i]) && '=' !in lines[i]
    ensures Parse(lines, load).Rejected?
  {
    hide KeyValue, Classify, Parse, PartBefore, VarsBefore;
    if KeyValue(lines[i]).Some? {
      PairHasSign(lines[i]);
    }
    NoRefWithoutDollar(lines[i]);
    IllegalIsRejected(lines, i, load);
  }

  lemma PairHasSign(row: string)
    requires KeyValue(row).Some?
    ensures '=' in row
  {
    FindKeyValueSound(row);
    var q: nat :| Reads(row, FindKeyValue(row).value, q);
    assert row[q] in row;
  }

  /** A select part of one row: attributes with commas between them are read as those attributes. */
  lemma AttributesAreRead(texts: seq<string>, names: seq<string>)
    requires 0 < |texts| == |names|
    requires forall i :: 0 <= i < |texts| ==>
               List.Listable(texts[i]) && Attribute.Load(texts[i], i).Some? && Attribute.Load(texts[i], i).value.name == names[i]
    requires forall i, j :: 0 <= i < j < |names| ==> names[i] != names[j]
    ensures Holds(SetOf(List.Attributes(Glue([List.Join(texts)]))), texts, names)
  {
    hide Attribute.Load;
    assert Glue([List.Join(texts)]) == " " + List.Join(texts) by {
      assert [List.Join(texts)][..0] == [];
    }
    List.SplitJoinAfterBlank(texts);
    DistinctNamesAreKept(texts, names);
  }

  /** A definition as it is written. */
  function Defining(name: string, value: string): string
  {
    "define $" + (name + ("$=" + value))
  }

  lemma DefiningIs(name: string, value: string)
    ensures var row := Defining(name, value);
            && |row| == 10 + |name| + |value| && row[0..6] == "define" && row[6] == ' ' && row[7] == '$'
            && row[8 + |name|] == '$' && row[9 + |name|] == '='
    ensures var row := Defining(name, value);
            && (forall k :: 8 <= k < 8 + |name| ==> row[k] == name[k - 8])
            && (forall k :: 10 + |name| <= k < |row| ==> row[k] == value[k - 10 - |name|])
    ensures var row := Defining(name, value);
            row[7..9 + |name|] == "$" + name + "$" && row[10 + |name|..] == value
  {
  }

  /** A line written as a definition defines the variable with that value. */
  lemma DefinitionIsRead(name: string, value: string)
    requires forall i :: 0 <= i < |name| ==> IsVarChar(name[i])
    requires |value| > 0 && value[0] != ' ' && forall i :: 0 <= i < |value| ==> IsDefChar(value[i])
    ensures Classify(Defining(name, value)) == Define("$" + name + "$", value)
  {
    hide Defining, Classify;
    DefiningIs(name, value);
    var row := Defining(name, value);
    DefinitionLine(row, 9 + |name|);
    DefinitionIsNoComment(row);
    RowDefines(row);
  }

  lemma RowDefines(row: string)
    requires Definition(row).Some? && !IsComment(row) && row != ""
    ensures Classify(row) == Define(Definition(row).value.0, Definition(row).value.1)
  {
    hide Definition, IsComment;
  }

  lemma DefinitionIsNoComment(row: string)
    requires |row| >= 6 && row[0..6] == "define"
    ensures !IsComment(row)
  {
    assert row[0] == row[0..6][0];
    RunEndIs(row, 0, 0, IsSpace);
  }

  lemma DefinitionLine(row: string, q: nat)
    requires 9 <= q < |row| - 1 && row[0..6] == "define" && row[6] == ' ' && row[7] == '$' && row[q - 1] == '$' && row[q] == '='
    requires forall k :: 8 <= k < q - 1 ==> IsVarChar(row[k])
    requires row[q + 1] != ' ' && forall k :: q < k < |row| ==> IsDefChar(row[k])
    ensures Definition(row) == Some((row[7..q], row[q + 1..]))
  {
    var n := Def(0, 7, q, q + 1, |row|);
    assert ReadsDefinition(row, n, 0, q);
    DefinitionComplete(row, n, 0, q);
    var m := FindDefinition(row, 0).value;
    DefinitionAtSound(row, m.d);
    var p: nat :| ReadsDefinition(row, m, m.d, p);
    assert p == q;
    assert m == n;
    assert row[q + 1..|row|] == row[q + 1..];
  }
}
