/** What a dataset file means, line by line and section by section (container/SQLTextContainer.cc,
    container/SQLTextDefinitions.h). The streaming parser of `TextContainer` is proved against this. */
module Dataset {
  import opened Prelude
  import opened Variables
  import opened Lines
  import opened Query
  import List = AttributeList

  /** A constraint of a WHERE predicate: attribute, comparator, value. */
  type Constraint = (string, string, string)

  /** How the text of a WHERE part is read; it fails, with an internal error, when a constraint's attribute does. */
  type ConstraintLoader = string -> Option<seq<Constraint>>

  datatype Section = Section(api: string, server: string, port: string, dbname: string, user: string, pass: string,
                             select: ByName, from: string, constraints: seq<Constraint>, other: map<string, string>)

  const EMPTY_SECTION := Section("", "", "", "", "", "", map[], "", [], map[])

  const API := "api"
  const SERVER := "server"
  const PORT := "port"
  const DBNAME := "dbname"
  const USER := "user"
  const PASS := "pass"
  const RESERVED_KEYS := {API, SERVER, PORT, DBNAME, USER, PASS}

  const SECTION_TAG := "[section]"

  /** The part of a section a line belongs to. `NoPart` is before the first tag, where the source's
      variable is not set. */
  datatype Part = NoPart | SectionPart | SelectPart | FromPart | WherePart | OtherPart

  function PartOfTag(tag: string, now: Part): Part
  {
    if tag == SECTION_TAG then SectionPart
    else if tag == "[select]" then SelectPart
    else if tag == "[from]" then FromPart
    else if tag == "[where]" then WherePart
    else if tag == "[other]" then OtherPart
    else now
  }

  // ----- what each line contributes

  /** The variables defined above line i; the first definition of a name counts. */
  function VarsBefore(lines: seq<string>, i: nat): (vars: map<string, string>)
    requires i <= |lines|
    ensures Clean(vars)
  {
    if i == 0 then map[] else
      var vars := VarsBefore(lines, i - 1);
      match Classify(lines[i - 1])
      case Define(name, value) => if name in vars then vars else vars[name := value]
      case _ => vars
  }

  predicate Defines(lines: seq<string>, j: nat, name: string)
    requires j < |lines|
  {
    Classify(lines[j]).Define? && Classify(lines[j]).name == name
  }

  /** A variable is defined if some line above defines it, with the value of the first such line. */
  lemma {:induction false} FirstDefinitionCounts(lines: seq<string>, i: nat, name: string)
    requires i <= |lines|
    ensures name in VarsBefore(lines, i) <==> exists j: nat :: j < i && Defines(lines, j, name)
    ensures forall j: nat :: j < i && Defines(lines, j, name) && (forall k: nat :: k < j ==> !Defines(lines, k, name)) ==>
              name in VarsBefore(lines, i) && VarsBefore(lines, i)[name] == Classify(lines[j]).value
  {
    hide Classify;
    if i > 0 {
      FirstDefinitionCounts(lines, i - 1, name);
      assert Defines(lines, i - 1, name) <==> Classify(lines[i - 1]).Define? && Classify(lines[i - 1]).name == name;
    }
  }

  /** The part named by the last tag above line i. */
  function PartBefore(lines: seq<string>, i: nat): Part
    requires i <= |lines|
  {
    if i == 0 then NoPart else
      match Classify(lines[i - 1])
      case Tag(tag) => PartOfTag(tag, PartBefore(lines, i - 1))
      case _ => PartBefore(lines, i - 1)
  }

  datatype Event = Nothing | NewSection | Pair(key: string, val: string, row: string) | Free(row: string) | Fault

  datatype Item = Item(part: Part, event: Event)

  function EventOf(vars: map<string, string>, line: string): Event
    requires Clean(vars)
  {
    match Classify(line)
    case Tag(tag) => if tag == SECTION_TAG then NewSection else Nothing
    case Content =>
      (match Expand(vars, line)
       case None => Fault
       case Some(row) => match KeyValue(row) case Some(kv) => Pair(kv.0, kv.1, row) case None => Free(row))
    case _ => Nothing
  }

  function ItemAt(lines: seq<string>, i: nat): Item
    requires i < |lines|
  {
    Item(PartBefore(lines, i), EventOf(VarsBefore(lines, i), lines[i]))
  }

  function Items(lines: seq<string>): (items: seq<Item>)
    ensures |items| == |lines|
  {
    seq(|lines|, i requires 0 <= i < |lines| => ItemAt(lines, i))
  }

  // ----- which section an item belongs to

  /** The number of [section] tags. */
  function Sections(items: seq<Item>): nat
  {
    if |items| == 0 then 0 else
      Sections(items[..|items| - 1]) + if items[|items| - 1].event.NewSection? then 1 else 0
  }

  /** The section being read after `items`: what stands before the first tag belongs to the first section. */
  function Current(items: seq<Item>): nat
  {
    if Sections(items) == 0 then 0 else Sections(items) - 1
  }

  /** The items of section s, in file order. A [section] tag is nobody's item. */
  function ContentOf(items: seq<Item>, s: nat): seq<Item>
  {
    if |items| == 0 then [] else
      var before, x := items[..|items| - 1], items[|items| - 1];
      if Current(before) == s && !x.event.NewSection? then ContentOf(before, s) + [x] else ContentOf(before, s)
  }

  // ----- what the items of one section add up to

  /** The value of a reserved key: the last one given. */
  function Value(c: seq<Item>, key: string): Option<string>
  {
    if |c| == 0 then None else
      var x := c[|c| - 1];
      if x.part.SectionPart? && x.event.Pair? && x.event.key == key then Some(x.event.val)
      else Value(c[..|c| - 1], key)
  }

  /** The optional keys: the first value given for each. */
  function Other(c: seq<Item>): map<string, string>
  {
    if |c| == 0 then map[] else
      var other, x := Other(c[..|c| - 1]), c[|c| - 1];
      if x.part.OtherPart? && x.event.Pair? && x.event.key !in other then other[x.event.key := x.event.val] else other
  }

  /** The text of a part: its rows, with or without the form key=value, each after a blank. */
  function Text(c: seq<Item>, part: Part): string
  {
    if |c| == 0 then "" else
      var x := c[|c| - 1];
      Text(c[..|c| - 1], part) + if x.part == part && (x.event.Pair? || x.event.Free?) then " " + x.event.row else ""
  }

  predicate LegalItem(x: Item)
  {
    && !x.event.Fault?
    && (x.part.SectionPart? ==> !x.event.Free? && (x.event.Pair? ==> x.event.key in RESERVED_KEYS))
  }

  ghost predicate Legal(c: seq<Item>)
  {
    forall x :: x in c ==> LegalItem(x)
  }

  function OrElse<T>(o: Option<T>, otherwise: T): T
  {
    match o case Some(v) => v case None => otherwise
  }

  function OrEmpty(s: Option<string>): string
  {
    OrElse(s, "")
  }

  /** A section has an api, a server, a FROM text, and a SELECT text with attributes; a WHERE text, if it
      has one, can be read. */
  ghost predicate Complete(c: seq<Item>, load: ConstraintLoader)
  {
    && Legal(c)
    && Value(c, API).Some? && Value(c, SERVER).Some?
    && Text(c, FromPart) != "" && Text(c, SelectPart) != ""
    && SetOf(List.Attributes(Text(c, SelectPart))).Some?
    && SetOf(List.Attributes(Text(c, SelectPart))).value != map[]
    && (Text(c, WherePart) != "" ==> load(Text(c, WherePart)).Some?)
  }

  /** The section that complete items describe. */
  ghost function Build(c: seq<Item>, load: ConstraintLoader): Section
  {
    Section(OrEmpty(Value(c, API)), OrEmpty(Value(c, SERVER)), OrEmpty(Value(c, PORT)), OrEmpty(Value(c, DBNAME)),
            OrEmpty(Value(c, USER)), OrEmpty(Value(c, PASS)),
            OrElse(SetOf(List.Attributes(Text(c, SelectPart))), map[]), Text(c, FromPart),
            if Text(c, WherePart) != "" then OrElse(load(Text(c, WherePart)), []) else [], Other(c))
  }

  // ----- what is wrong with a file

  /** The two classes of exceptions `read` throws: BESInternalError, and BESError itself for mistakes of the
      file's author. Callers may treat them differently. */
  datatype Error = Internal | Syntax

  function ItemFault(x: Item): Option<Error>
  {
    if LegalItem(x) then None else if x.event.Fault? then Some(Internal) else Some(Syntax)
  }

  /** A text that cannot be read is an internal error, a section that lacks something a mistake of its author. */
  ghost function SectionFault(c: seq<Item>, load: ConstraintLoader): Option<Error>
  {
    if Complete(c, load) then None
    else if (Text(c, WherePart) != "" && load(Text(c, WherePart)).None?)
            || (Text(c, SelectPart) != "" && SetOf(List.Attributes(Text(c, SelectPart))).None?) then Some(Internal)
    else Some(Syntax)
  }

  /** What was read so far of the section being read. */
  ghost function ReadSoFar(items: seq<Item>): seq<Item>
  {
    ContentOf(items, Current(items))
  }

  /** The fault found at x, after `items`; a [section] tag closes the section before it. */
  ghost function StepFault(items: seq<Item>, x: Item, load: ConstraintLoader): Option<Error>
  {
    if x.event.NewSection? && Sections(items) > 0 then SectionFault(ReadSoFar(items), load) else ItemFault(x)
  }

  /** The fault found at the end of the file. */
  ghost function EndFault(items: seq<Item>, load: ConstraintLoader): Option<Error>
  {
    if Sections(items) > 0 then SectionFault(ReadSoFar(items), load) else None
  }

  ghost function FaultAt(items: seq<Item>, n: nat, load: ConstraintLoader): Option<Error>
    requires n <= |items|
  {
    if n < |items| then StepFault(items[..n], items[n], load) else EndFault(items, load)
  }

  /** The first fault at or after n. */
  ghost function FirstFault(items: seq<Item>, n: nat, load: ConstraintLoader): Option<Error>
    requires n <= |items|
    decreases |items| - n
  {
    if FaultAt(items, n, load).Some? || n == |items| then FaultAt(items, n, load) else FirstFault(items, n + 1, load)
  }

  lemma {:induction false} FirstFaultIs(items: seq<Item>, n: nat, m: nat, load: ConstraintLoader)
    requires n <= m <= |items| && forall k :: n <= k < m ==> FaultAt(items, k, load).None?
    requires FaultAt(items, m, load).Some? || m == |items|
    ensures FirstFault(items, n, load) == FaultAt(items, m, load)
    decreases m - n
  {
    hide FaultAt;
    if n < m {
      FirstFaultIs(items, n + 1, m, load);
    }
  }

  lemma {:induction false} FirstFaultIsSome(items: seq<Item>, n: nat, load: ConstraintLoader)
    requires n <= |items| && FirstFault(items, n, load).Some?
    ensures exists k :: n <= k <= |items| && FaultAt(items, k, load).Some?
    decreases |items| - n
  {
    hide FaultAt;
    if FaultAt(items, n, load).None? {
      FirstFaultIsSome(items, n + 1, load);
    }
  }

  lemma {:induction false} FirstFaultIsNone(items: seq<Item>, n: nat, load: ConstraintLoader)
    requires n <= |items| && FirstFault(items, n, load).None?
    ensures forall k :: n <= k <= |items| ==> FaultAt(items, k, load).None?
    decreases |items| - n
  {
    hide FaultAt;
    if n < |items| {
      FirstFaultIsNone(items, n + 1, load);
    }
  }

  // ----- the whole file

  datatype Outcome = Loaded(sections: seq<Section>) | NoSections | Rejected(error: Error)

  ghost predicate AllComplete(items: seq<Item>, n: nat, load: ConstraintLoader)
  {
    forall s :: 0 <= s < n ==> Complete(ContentOf(items, s), load)
  }

  ghost function Built(items: seq<Item>, n: nat, load: ConstraintLoader): (sections: seq<Section>)
    ensures |sections| == n
  {
    if n == 0 then [] else Built(items, n - 1, load) + [Build(ContentOf(items, n - 1), load)]
  }

  lemma {:induction false} BuiltAt(items: seq<Item>, n: nat, load: ConstraintLoader, s: nat)
    requires s < n
    ensures Built(items, n, load)[s] == Build(ContentOf(items, s), load)
  {
    hide Build, ContentOf;
    if s < n - 1 {
      BuiltAt(items, n - 1, load, s);
    }
  }

  /** A file is accepted if its lines are legal and its sections complete. What it is rejected with is its
      first fault (`FirstFaultIff`: there is one exactly when it is rejected). */
  ghost function Parse(lines: seq<string>, load: ConstraintLoader): Outcome
  {
    var items := Items(lines);
    if !(Legal(items) && AllComplete(items, Sections(items), load)) then Rejected(OrElse(FirstFault(items, 0, load), Syntax))
    else if Sections(items) == 0 then NoSections
    else Loaded(Built(items, Sections(items), load))
  }

  /** No line with content stands before the first tag, where the source would read an unset variable. */
  ghost predicate NoOrphans(lines: seq<string>)
  {
    forall i :: 0 <= i < |lines| && Classify(lines[i]).Content? ==> !PartBefore(lines, i).NoPart?
  }

  // ----- reading one more item

  /** One more item changes only the section being read, or starts the next one. */
  lemma ContentStep(items: seq<Item>, x: Item, s: nat)
    ensures Sections(items + [x]) == Sections(items) + if x.event.NewSection? then 1 else 0
    ensures ContentOf(items + [x], s) ==
            if Current(items) == s && !x.event.NewSection? then ContentOf(items, s) + [x] else ContentOf(items, s)
  {
    assert (items + [x])[..|items|] == items;
  }

  /** Sections that were not reached yet have no items. */
  lemma {:induction false} LaterSectionsAreEmpty(items: seq<Item>, s: nat)
    requires s > Current(items)
    ensures ContentOf(items, s) == []
  {
    if |items| > 0 {
      LaterSectionsAreEmpty(items[..|items| - 1], s);
    }
  }

  /** What was read of a section stays as it is once the next one begins. */
  lemma {:induction false} ContentIsFinal(items: seq<Item>, n: nat, s: nat)
    requires n <= |items| && s < Current(items[..n])
    ensures ContentOf(items, s) == ContentOf(items[..n], s) && s < Current(items)
  {
    if n < |items| {
      var k := |items| - 1;
      assert items[..k][..n] == items[..n];
      ContentIsFinal(items[..k], n, s);
    } else {
      assert items[..n] == items;
    }
  }

  lemma LegalStep(c: seq<Item>, x: Item)
    ensures Legal(c + [x]) <==> Legal(c) && LegalItem(x)
  {
    assert x in c + [x];
    assert forall y :: y in c ==> y in c + [x];
  }

  lemma LegalSection(items: seq<Item>, s: nat)
    requires Legal(items)
    ensures Legal(ContentOf(items, s))
  {
    ContentIsFromLines(items, s);
  }

  /** Every item is some section's, so a file is legal when its sections are. */
  lemma {:induction false} LegalBySection(items: seq<Item>)
    ensures Legal(items) <==> forall s :: 0 <= s <= Current(items) ==> Legal(ContentOf(items, s))
  {
    if |items| == 0 {
      assert ContentOf(items, 0) == [];
    } else {
      var before, x := items[..|items| - 1], items[|items| - 1];
      assert items == before + [x];
      LegalBySection(before);
      LegalStep(before, x);
      ContentStep(before, x, Current(before));
      LegalStep(ContentOf(before, Current(before)), x);
      if Legal(items) {
        forall s: nat | s <= Current(items)
          ensures Legal(ContentOf(items, s))
        {
          LegalSection(items, s);
        }
      } else if x.event.NewSection? || !Legal(before) {
        var s :| 0 <= s <= Current(before) && !Legal(ContentOf(before, s));
        ContentStep(before, x, s);
        LegalStep(ContentOf(before, s), x);
        assert !Legal(ContentOf(items, s));
      } else {
        assert !Legal(ContentOf(items, Current(before)));
      }
    }
  }

  /** Adding one item to the content of a section. */
  lemma GatherStep(c: seq<Item>, x: Item)
    ensures forall key :: Value(c + [x], key) ==
              if x.part.SectionPart? && x.event.Pair? && x.event.key == key then Some(x.event.val) else Value(c, key)
    ensures Other(c + [x]) ==
            if x.part.OtherPart? && x.event.Pair? && x.event.key !in Other(c) then Other(c)[x.event.key := x.event.val] else Other(c)
    ensures forall part :: Text(c + [x], part) ==
              Text(c, part) + if x.part == part && (x.event.Pair? || x.event.Free?) then " " + x.event.row else ""
    ensures Legal(c + [x]) <==> Legal(c) && LegalItem(x)
  {
    LegalStep(c, x);
    assert (c + [x])[..|c|] == c;
  }

  /** The value of a reserved key is not empty, since no line yields an empty value. */
  lemma ValuesAreNonEmpty(lines: seq<string>, s: nat, key: string)
    requires Value(ContentOf(Items(lines), s), key).Some?
    ensures Value(ContentOf(Items(lines), s), key).value != ""
  {
    hide Classify, KeyValue;
    ContentIsFromLines(Items(lines), s);
    ValueIsAnItems(ContentOf(Items(lines), s), key);
  }

  lemma {:induction false} ContentIsFromLines(items: seq<Item>, s: nat)
    ensures forall x :: x in ContentOf(items, s) ==> x in items
  {
    if |items| > 0 {
      ContentIsFromLines(items[..|items| - 1], s);
    }
  }

  lemma {:induction false} ValueIsAnItems(c: seq<Item>, key: string)
    requires Value(c, key).Some?
    ensures exists x :: x in c && x.event.Pair? && x.event.val == Value(c, key).value
  {
    var x := c[|c| - 1];
    if !(x.part.SectionPart? && x.event.Pair? && x.event.key == key) {
      ValueIsAnItems(c[..|c| - 1], key);
    }
  }

  /** Every section a file yields has a non-empty api and something to select. */
  lemma SectionsAreUsable(lines: seq<string>, load: ConstraintLoader)
    ensures var r := Parse(lines, load);
            r.Loaded? ==> r.sections != [] && forall s :: 0 <= s < |r.sections| ==>
              r.sections[s].api != "" && r.sections[s].server != "" && r.sections[s].select != map[] && WellKept(r.sections[s].select)
  {
    var r := Parse(lines, load);
    var items := Items(lines);
    if r.Loaded? {
      forall s | 0 <= s < |r.sections|
        ensures r.sections[s].api != "" && r.sections[s].server != "" && r.sections[s].select != map[]
        ensures WellKept(r.sections[s].select)
      {
        var c := ContentOf(items, s);
        BuiltAt(items, Sections(items), load, s);
        ValuesAreNonEmpty(lines, s, API);
        ValuesAreNonEmpty(lines, s, SERVER);
        var texts := List.Attributes(Text(c, SelectPart));
        assert texts[..|texts|] == texts;
        LoadedIsWellKept(Text(c, SelectPart), |texts|, r.sections[s].select);
      }
    }
  }
}
