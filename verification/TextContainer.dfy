/** A dataset held in a text file: the streaming parser and the section cursor
    (container/SQLTextContainer.cc, container/SQLTextContainer.h, container/SQLContainer.h). */
module TextContainer {
  import opened Prelude
  import opened Variables
  import opened Lines
  import opened Query
  import opened Dataset
  import List = AttributeList

  /** The completion diary: one bit for each thing a section can have. */
  datatype Bit = SectionBit | ApiBit | ServerBit | PortBit | DbnameBit | UserBit | PassBit
               | SelectBit | FromBit | WhereBit | OtherBit

  const REQUIRED := {SectionBit, ApiBit, ServerBit, SelectBit, FromBit}

  predicate MeetsRequirements(complete: set<Bit>): (meets: bool)
    ensures meets <==> SectionBit in complete && ApiBit in complete && ServerBit in complete && SelectBit in complete
                       && FromBit in complete
  {
    REQUIRED <= complete
  }

  /** The locals of the reading loop. */
  datatype Scan = Scan(start: bool, part: Part, vars: map<string, string>, section: Section, complete: set<Bit>)

  /** A file as it is found on disk. */
  datatype File = File(mtime: int, lines: seq<string>)

  /** The diary, the section under construction and the two side buffers say what `c` adds up to. */
  ghost predicate Gathered(c: seq<Item>, section: Section, complete: set<Bit>, attributeBuf: string, whereBuf: string)
  {
    && section.api == OrEmpty(Value(c, API)) && section.server == OrEmpty(Value(c, SERVER))
    && section.port == OrEmpty(Value(c, PORT)) && section.dbname == OrEmpty(Value(c, DBNAME))
    && section.user == OrEmpty(Value(c, USER)) && section.pass == OrEmpty(Value(c, PASS))
    && section.from == Text(c, FromPart) && section.other == Other(c)
    && section.select == map[] && section.constraints == []
    && attributeBuf == Text(c, SelectPart) && whereBuf == Text(c, WherePart)
    && (ApiBit in complete <==> Value(c, API).Some?)
    && (ServerBit in complete <==> Value(c, SERVER).Some?)
    && (SectionBit in complete <==> ApiBit in complete && ServerBit in complete)
    && (SelectBit in complete <==> attributeBuf != "")
    && (FromBit in complete <==> section.from != "")
    && (WhereBit in complete <==> whereBuf != "")
  }

  /** What `read` reports: whether there is a dataset, or an exception. */
  datatype Reading = Finished(found: bool) | Threw(error: Error)

  function Verdict(outcome: Outcome): Reading
  {
    match outcome case Loaded(_) => Finished(true) case NoSections => Finished(false) case Rejected(e) => Threw(e)
  }

  // ----- one line more

  /** Texts that agree on their first n sections build the same sections. */
  lemma {:induction false} SameBuilt(items: seq<Item>, more: seq<Item>, n: nat, load: ConstraintLoader)
    requires forall s: nat :: s < n ==> ContentOf(more, s) == ContentOf(items, s)
    ensures Built(more, n, load) == Built(items, n, load)
  {
    hide Build;
    if n > 0 {
      SameBuilt(items, more, n - 1, load);
    }
  }

  /** Within a section, what is stored stands for the same sections of the longer text. */
  lemma SameSection(items: seq<Item>, x: Item, load: ConstraintLoader)
    requires !x.event.NewSection? || Sections(items) == 0
    requires AllComplete(items, Current(items), load)
    ensures Current(items + [x]) == Current(items)
    ensures AllComplete(items + [x], Current(items), load)
    ensures Built(items + [x], Current(items), load) == Built(items, Current(items), load)
  {
    forall s: nat | s < Current(items)
      ensures ContentOf(items + [x], s) == ContentOf(items, s)
    {
      ContentStep(items, x, s);
    }
    ContentStep(items, x, 0);
    SameBuilt(items, items + [x], Current(items), load);
  }

  /** A [section] tag after the first: the section read so far is built, the next one is empty. */
  lemma NextSection(items: seq<Item>, x: Item, load: ConstraintLoader)
    requires x.event.NewSection? && Sections(items) > 0
    requires AllComplete(items, Sections(items), load)
    ensures Current(items + [x]) == Sections(items)
    ensures AllComplete(items + [x], Sections(items), load)
    ensures Built(items + [x], Sections(items), load) == Built(items, Sections(items), load)
    ensures ContentOf(items + [x], Sections(items)) == []
  {
    forall s: nat
      ensures ContentOf(items + [x], s) == ContentOf(items, s)
    {
      ContentStep(items, x, s);
    }
    ContentStep(items, x, 0);
    LaterSectionsAreEmpty(items, Sections(items));
    SameBuilt(items, items + [x], Sections(items), load);
  }

  /** After the lines that gave `items`: the sections before the current one are stored, what was read of the
      current one is gathered, and everything so far was legal. */
  ghost predicate Follows(items: seq<Item>, load: ConstraintLoader, scan: Scan, stored: seq<Section>,
                          attributeBuf: string, whereBuf: string)
  {
    && Legal(items)
    && scan.start == (Sections(items) == 0)
    && AllComplete(items, Current(items), load)
    && stored == Built(items, Current(items), load)
    && Gathered(ReadSoFar(items), scan.section, scan.complete, attributeBuf, whereBuf)
  }

  /** A line that stays within the section. */
  lemma FollowsWithin(items: seq<Item>, x: Item, load: ConstraintLoader, scan: Scan, next: Scan,
                      stored: seq<Section>, a: string, w: string, a': string, w': string)
    requires Follows(items, load, scan, stored, a, w)
    requires !x.event.NewSection? && LegalItem(x) && next.start == scan.start
    requires Gathered(ReadSoFar(items) + [x], next.section, next.complete, a', w')
    ensures Follows(items + [x], load, next, stored, a', w')
  {
    LegalStep(items, x);
    ContentStep(items, x, Current(items));
    SameSection(items, x, load);
  }

  /** A line that gives nothing to a section. */
  lemma FollowsNothing(items: seq<Item>, x: Item, load: ConstraintLoader, scan: Scan, next: Scan,
                       stored: seq<Section>, a: string, w: string)
    requires Follows(items, load, scan, stored, a, w)
    requires x.event.Nothing? && next == scan.(vars := next.vars)
    ensures Follows(items + [x], load, next, stored, a, w)
  {
    GatherStep(ReadSoFar(items), x);
    FollowsWithin(items, x, load, scan, next, stored, a, w, a, w);
  }

  /** The first [section] tag. */
  lemma FollowsFirst(items: seq<Item>, x: Item, load: ConstraintLoader, scan: Scan, next: Scan,
                     stored: seq<Section>, a: string, w: string)
    requires Follows(items, load, scan, stored, a, w)
    requires x.event.NewSection? && scan.start && next == scan.(start := false, part := SectionPart)
    ensures Follows(items + [x], load, next, stored, a, w)
  {
    LegalStep(items, x);
    ContentStep(items, x, Current(items));
    SameSection(items, x, load);
  }

  /** Any later [section] tag. */
  lemma FollowsNext(items: seq<Item>, x: Item, load: ConstraintLoader, scan: Scan, next: Scan,
                    stored: seq<Section>, a: string, w: string, a': string, w': string)
    requires Follows(items, load, scan, stored, a, w)
    requires x.event.NewSection? && !scan.start && !next.start
    requires Complete(ReadSoFar(items), load)
    requires Gathered([], next.section, next.complete, a', w')
    ensures Follows(items + [x], load, next, stored + [Build(ReadSoFar(items), load)], a', w')
  {
    hide Complete, Build, Gathered, Legal, ContentOf;
    LegalStep(items, x);
    ContentStep(items, x, 0);
    NextSection(items, x, load);
    assert ReadSoFar(items + [x]) == [];
  }

  lemma ItemsStep(lines: seq<string>, n: nat)
    requires n < |lines|
    ensures Items(lines)[..n + 1] == Items(lines)[..n] + [ItemAt(lines, n)]
  {
  }

  // ----- faults

  ghost predicate NoFaultBefore(items: seq<Item>, n: nat, load: ConstraintLoader)
    requires n <= |items|
  {
    forall k :: 0 <= k < n ==> FaultAt(items, k, load).None?
  }

  /** A section that is over and not complete fails the whole file, whatever follows. */
  lemma IncompleteIsRejected(items: seq<Item>, n: nat, s: nat, load: ConstraintLoader)
    requires n <= |items| && !Complete(ContentOf(items[..n], s), load)
    requires s < Current(items[..n]) || (n == |items| && s < Sections(items))
    ensures !AllComplete(items, Sections(items), load)
  {
    if n == |items| {
      assert items[..n] == items;
    } else {
      ContentIsFinal(items, n, s);
    }
  }

  lemma SectionFaultIff(c: seq<Item>, load: ConstraintLoader)
    ensures SectionFault(c, load).None? <==> Complete(c, load)
  {
    hide Complete;
  }

  /** A fault anywhere means that the file is illegal or some section is not complete. */
  lemma FaultIsRejection(items: seq<Item>, n: nat, load: ConstraintLoader)
    requires n <= |items| && FaultAt(items, n, load).Some?
    ensures !(Legal(items) && AllComplete(items, Sections(items), load))
  {
    hide Complete, LegalItem, Build, SectionFault, AllComplete;
    var before := items[..n];
    SectionFaultIff(ReadSoFar(before), load);
    if n == |items| {
      assert before == items;
      IncompleteIsRejected(items, n, Current(before), load);
    } else if items[n].event.NewSection? && Sections(before) > 0 {
      assert items[..n + 1] == before + [items[n]];
      ContentStep(before, items[n], Current(before));
      IncompleteIsRejected(items, n + 1, Current(before), load);
    } else {
      assert items[n] in items;
    }
  }

  /** Without a fault everything so far is legal and every section before the current one complete. */
  lemma {:induction false} NoFaultIsSound(items: seq<Item>, n: nat, load: ConstraintLoader)
    requires n <= |items| && NoFaultBefore(items, n, load)
    ensures Legal(items[..n]) && AllComplete(items[..n], Current(items[..n]), load)
  {
    hide Complete, Build;
    if n > 0 {
      var before, x := items[..n - 1], items[n - 1];
      NoFaultIsSound(items, n - 1, load);
      assert items[..n] == before + [x];
      assert FaultAt(items, n - 1, load) == StepFault(before, x, load) == None;
      LegalStep(before, x);
      if x.event.NewSection? && Sections(before) > 0 {
        NextSection(before, x, load);
      } else {
        SameSection(before, x, load);
      }
    }
  }

  /** A file has a fault exactly when it is rejected. */
  lemma FirstFaultIff(items: seq<Item>, load: ConstraintLoader)
    ensures FirstFault(items, 0, load).None? <==> Legal(items) && AllComplete(items, Sections(items), load)
  {
    hide Complete, LegalItem, Build, StepFault;
    if FirstFault(items, 0, load).None? {
      FirstFaultIsNone(items, 0, load);
      NoFaultIsSound(items, |items|, load);
      assert items[..|items|] == items;
      assert FaultAt(items, |items|, load) == EndFault(items, load);
    } else {
      FirstFaultIsSome(items, 0, load);
      var k :| 0 <= k <= |items| && FaultAt(items, k, load).Some?;
      FaultIsRejection(items, k, load);
    }
  }

  /** The first fault is the verdict on the whole file. */
  lemma FaultIsVerdict(lines: seq<string>, n: nat, load: ConstraintLoader, e: Error)
    requires n <= |lines| && NoFaultBefore(Items(lines), n, load) && FaultAt(Items(lines), n, load) == Some(e)
    ensures Parse(lines, load) == Rejected(e)
  {
    hide FaultAt, Legal, AllComplete;
    FaultIsRejection(Items(lines), n, load);
    FirstFaultIs(Items(lines), 0, n, load);
  }

  /** The two keys every section needs; the [section] part is complete with both. */
  method AddRequired(section: Section, complete: set<Bit>, key: string, val: string, row: string,
                     ghost c: seq<Item>, ghost attributeBuf: string, ghost whereBuf: string)
    returns (section': Section, complete': set<Bit>)
    requires Gathered(c, section, complete, attributeBuf, whereBuf)
    requires key == API || key == SERVER
    ensures Gathered(c + [Item(SectionPart, Pair(key, val, row))], section', complete', attributeBuf, whereBuf)
  {
    GatherStep(c, Item(SectionPart, Pair(key, val, row)));
    if key == API {
      section', complete' := section.(api := val), complete + {ApiBit};
      if ServerBit in complete' {
        complete' := complete' + {SectionBit};
      }
    } else {
      section', complete' := section.(server := val), complete + {ServerBit};
      if ApiBit in complete' {
        complete' := complete' + {SectionBit};
      }
    }
  }

  method AddOptional(section: Section, complete: set<Bit>, key: string, val: string, row: string,
                     ghost c: seq<Item>, ghost attributeBuf: string, ghost whereBuf: string)
    returns (section': Section, complete': set<Bit>)
    requires Gathered(c, section, complete, attributeBuf, whereBuf)
    requires key == PORT || key == DBNAME || key == USER || key == PASS
    ensures Gathered(c + [Item(SectionPart, Pair(key, val, row))], section', complete', attributeBuf, whereBuf)
  {
    GatherStep(c, Item(SectionPart, Pair(key, val, row)));
    if key == PORT {
      section', complete' := section.(port := val), complete + {PortBit};
    } else if key == DBNAME {
      section', complete' := section.(dbname := val), complete + {DbnameBit};
    } else if key == USER {
      section', complete' := section.(user := val), complete + {UserBit};
    } else {
      section', complete' := section.(pass := val), complete + {PassBit};
    }
  }

  /** A key of the [section] part, where only the reserved ones are allowed. */
  method AddReserved(section: Section, complete: set<Bit>, key: string, val: string, row: string,
                     ghost c: seq<Item>, ghost attributeBuf: string, ghost whereBuf: string)
    returns (fault: Option<Error>, section': Section, complete': set<Bit>)
    requires Gathered(c, section, complete, attributeBuf, whereBuf)
    ensures fault == if key in RESERVED_KEYS then None else Some(Syntax)
    ensures fault.None? ==> Gathered(c + [Item(SectionPart, Pair(key, val, row))], section', complete', attributeBuf, whereBuf)
  {
    if key == API || key == SERVER {
      section', complete' := AddRequired(section, complete, key, val, row, c, attributeBuf, whereBuf);
      return None, section', complete';
    } else if key == PORT || key == DBNAME || key == USER || key == PASS {
      section', complete' := AddOptional(section, complete, key, val, row, c, attributeBuf, whereBuf);
      return None, section', complete';
    }
    return Some(Syntax), section, complete;
  }

  class SQLTextContainer {
    var dataset: seq<Section>
    /** The section cursor: an index, or the number of sections for the end of the list. */
    var actual: nat
    var attributeBuf: string
    var whereBuf: string
    var time: int
    var isReady: bool

    ghost predicate Valid()
      reads this
    {
      actual <= |dataset| && attributeBuf == "" && whereBuf == ""
    }

    constructor ()
      ensures Valid() && !isReady && dataset == []
    {
      dataset, actual := [], 0;
      attributeBuf, whereBuf := "", "";
      time, isReady := 0, false;
    }

    /** A copy is ready only if the original is and its time is not too far from the file's. Its cursor is on
        the first section and its buffers are its own. */
    constructor Copy(c: SQLTextContainer, upToDate: bool)
      ensures Valid() && isReady == (c.isReady && upToDate)
      ensures dataset == c.dataset && time == c.time && actual == 0
    {
      dataset, actual := c.dataset, 0;
      attributeBuf, whereBuf := "", "";
      time, isReady := c.time, c.isReady && upToDate;
    }

    // ----- the section cursor

    method Reset()
      requires Valid()
      modifies `actual
      ensures Valid() && actual == 0
    {
      actual := 0;
    }

    method Clear()
      requires Valid()
      modifies `dataset, `actual
      ensures Valid() && dataset == []
    {
      dataset, actual := [], 0;
    }

    predicate End()
      reads this
    {
      actual == |dataset|
    }

    /** Once at the end the cursor stays there. */
    method SetNext() returns (more: bool)
      requires Valid()
      modifies `actual
      ensures Valid()
      ensures actual == if old(End()) then old(actual) else old(actual) + 1
      ensures more <==> old(actual) + 1 < |dataset|
    {
      if End() {
        return false;
      }
      actual := actual + 1;
      more := !End();
    }

    // ----- reading

    /** A row of a [select], [from] or [where] part. */
    method Append(part: Part, section: Section, complete: set<Bit>, row: string, ghost c: seq<Item>, ghost x: Item)
      returns (section': Section, complete': set<Bit>)
      requires part.SelectPart? || part.FromPart? || part.WherePart?
      requires x.part == part && (x.event.Pair? || x.event.Free?) && x.event.row == row
      requires Gathered(c, section, complete, attributeBuf, whereBuf)
      modifies `attributeBuf, `whereBuf
      ensures Gathered(c + [x], section', complete', attributeBuf, whereBuf)
    {
      section', complete' := section, complete;
      GatherStep(c, x);
      if part.SelectPart? {
        attributeBuf := attributeBuf + (" " + row);
        complete' := complete' + {SelectBit};
      } else if part.FromPart? {
        section' := section'.(from := section'.from + (" " + row));
        complete' := complete' + {FromBit};
      } else {
        whereBuf := whereBuf + (" " + row);
        complete' := complete' + {WhereBit};
      }
    }

    method AddKeyValue(part: Part, section: Section, complete: set<Bit>, key: string, val: string, row: string,
                       ghost c: seq<Item>)
      returns (fault: Option<Error>, section': Section, complete': set<Bit>)
      requires Gathered(c, section, complete, attributeBuf, whereBuf)
      modifies `attributeBuf, `whereBuf
      ensures fault == ItemFault(Item(part, Pair(key, val, row)))
      ensures fault.None? ==> Gathered(c + [Item(part, Pair(key, val, row))], section', complete', attributeBuf, whereBuf)
    {
      ghost var x := Item(part, Pair(key, val, row));
      section', complete' := section, complete;
      fault := None;
      if part.SectionPart? {
        fault, section', complete' := AddReserved(section, complete, key, val, row, c, attributeBuf, whereBuf);
      } else if part.OtherPart? {
        GatherStep(c, x);
        if key !in section'.other {
          section' := section'.(other := section'.other[key := val]);
        }
        complete' := complete' + {OtherBit};
      } else if !part.NoPart? {
        section', complete' := Append(part, section, complete, row, c, x);
      } else {
        GatherStep(c, x);
      }
    }

    method AddFreeForm(part: Part, section: Section, complete: set<Bit>, row: string, ghost c: seq<Item>)
      returns (fault: Option<Error>, section': Section, complete': set<Bit>)
      requires Gathered(c, section, complete, attributeBuf, whereBuf)
      modifies `attributeBuf, `whereBuf
      ensures fault == ItemFault(Item(part, Free(row)))
      ensures fault.None? ==> Gathered(c + [Item(part, Free(row))], section', complete', attributeBuf, whereBuf)
    {
      ghost var x := Item(part, Free(row));
      section', complete' := section, complete;
      fault := None;
      if part.SectionPart? {
        fault := Some(Syntax);
      } else if part.OtherPart? || part.NoPart? {
        GatherStep(c, x);
      } else {
        section', complete' := Append(part, section, complete, row, c, x);
      }
    }

    /** Reads the text of the [where] part, if there is one; without a constraint the part is not complete. */
    method LoadWhere(section: Section, complete: set<Bit>, load: ConstraintLoader)
      returns (fault: Option<Error>, section': Section, complete': set<Bit>)
      requires WhereBit in complete <==> whereBuf != ""
      requires section.constraints == []
      modifies `whereBuf
      ensures fault == if old(whereBuf) == "" || load(old(whereBuf)).Some? then None else Some(Internal)
      ensures fault.None? ==> whereBuf == ""
      ensures fault.None? ==> section' == section.(constraints := if old(whereBuf) == "" then [] else load(old(whereBuf)).value)
      ensures fault.None? ==> (complete' == if section'.constraints == [] then complete - {WhereBit} else complete)
    {
      if WhereBit !in complete {
        assert complete - {WhereBit} == complete;
        return None, section, complete;
      }
      var constraints := load(whereBuf);
      if constraints.None? {
        return Some(Internal), section, complete;
      }
      whereBuf := "";
      section' := section.(constraints := constraints.value);
      return None, section', if section'.constraints == [] then complete - {WhereBit} else complete;
    }

    /** Reads the text of the [select] part, if there is one; without an attribute the part is not complete. */
    method LoadSelect(section: Section, complete: set<Bit>)
      returns (fault: Option<Error>, section': Section, complete': set<Bit>)
      requires SelectBit in complete <==> attributeBuf != ""
      requires section.select == map[]
      modifies `attributeBuf
      ensures fault == if old(attributeBuf) == "" || SetOf(List.Attributes(old(attributeBuf))).Some? then None else Some(Internal)
      ensures fault.None? ==> attributeBuf == ""
      ensures fault.None? ==> section' == section.(select := if old(attributeBuf) == "" then map[]
                                                    else SetOf(List.Attributes(old(attributeBuf))).value)
      ensures fault.None? ==> (complete' == if section'.select == map[] then complete - {SelectBit} else complete)
    {
      if SelectBit !in complete {
        assert complete - {SelectBit} == complete;
        return None, section, complete;
      }
      var attributes := LoadAttributes(attributeBuf);
      if attributes.None? {
        return Some(Internal), section, complete;
      }
      attributeBuf := "";
      section' := section.(select := attributes.value);
      return None, section', if section'.select == map[] then complete - {SelectBit} else complete;
    }

    /** Checks what the section was given against what is required of it and stores it. Neither side buffer
        leaks into the next section. */
    method AddNewSection(section: Section, complete: set<Bit>, load: ConstraintLoader, ghost c: seq<Item>)
      returns (fault: Option<Error>)
      requires Gathered(c, section, complete, attributeBuf, whereBuf) && Legal(c) && actual <= |dataset|
      modifies `dataset, `actual, `attributeBuf, `whereBuf
      ensures fault == SectionFault(c, load)
      ensures fault.None? ==> dataset == old(dataset) + [Build(c, load)] && attributeBuf == "" && whereBuf == ""
      ensures fault.Some? ==> dataset == old(dataset)
      ensures actual == (if old(actual == |dataset|) then |dataset| else old(actual)) && actual <= |dataset|
    {
      hide List.Attributes, SetOf;
      var section', complete' := section, complete;
      fault, section', complete' := LoadWhere(section, complete, load);
      if fault.Some? {
        return;
      }
      fault, section', complete' := LoadSelect(section', complete');
      if fault.Some? {
        return;
      }
      if !MeetsRequirements(complete') {
        return Some(Syntax);
      }
      actual := if actual == |dataset| then actual + 1 else actual;
      dataset := dataset + [section'];
    }

    /** A tag line: [section] closes the section before it. */
    method PartTracking(scan: Scan, tag: string, load: ConstraintLoader, ghost c: seq<Item>)
      returns (fault: Option<Error>, next: Scan)
      requires Gathered(c, scan.section, scan.complete, attributeBuf, whereBuf) && Legal(c) && actual <= |dataset|
      modifies `dataset, `actual, `attributeBuf, `whereBuf
      ensures actual == (if old(actual == |dataset|) then |dataset| else old(actual)) && actual <= |dataset|
      ensures next.part == PartOfTag(tag, scan.part) && next.vars == scan.vars
      ensures tag != SECTION_TAG ==> next.start == scan.start
      ensures tag != SECTION_TAG || scan.start ==>
                fault.None? && next.section == scan.section && next.complete == scan.complete && dataset == old(dataset)
                && attributeBuf == old(attributeBuf) && whereBuf == old(whereBuf)
      ensures tag == SECTION_TAG ==> !next.start
      ensures tag == SECTION_TAG && !scan.start ==> fault == SectionFault(c, load)
      ensures tag == SECTION_TAG && !scan.start && fault.None? ==>
                dataset == old(dataset) + [Build(c, load)] && Gathered([], next.section, next.complete, attributeBuf, whereBuf)
    {
      next := scan.(part := PartOfTag(tag, scan.part));
      fault := None;
      if tag == SECTION_TAG {
        if scan.start {
          next := next.(start := false);
        } else {
          fault := AddNewSection(scan.section, scan.complete, load, c);
          next := next.(complete := {}, section := EMPTY_SECTION);
        }
      }
    }

    /** A line that is neither a comment, a definition nor a tag. */
    method TakeContent(scan: Scan, row: string, load: ConstraintLoader, ghost items: seq<Item>, ghost stored: seq<Section>)
      returns (fault: Option<Error>, next: Scan, ghost x: Item)
      requires Follows(items, load, scan, stored, attributeBuf, whereBuf) && Clean(scan.vars) && Classify(row).Content?
      modifies `attributeBuf, `whereBuf
      ensures x == Item(scan.part, EventOf(scan.vars, row))
      ensures fault == ItemFault(x)
      ensures fault.None? ==> Follows(items + [x], load, next, stored, attributeBuf, whereBuf)
      ensures next == scan.(section := next.section, complete := next.complete)
    {
      x := Item(scan.part, EventOf(scan.vars, row));
      var expanded := ExpandVariables(scan.vars, row);
      if expanded.None? {
        return Some(Internal), scan, x;
      }
      var kv := KeyValue(expanded.value);
      var section, complete;
      if kv.Some? {
        fault, section, complete := AddKeyValue(scan.part, scan.section, scan.complete, kv.value.0, kv.value.1, expanded.value,
                                                ReadSoFar(items));
      } else {
        fault, section, complete := AddFreeForm(scan.part, scan.section, scan.complete, expanded.value, ReadSoFar(items));
      }
      next := scan.(section := section, complete := complete);
      if fault.None? {
        FollowsWithin(items, x, load, scan, next, stored, old(attributeBuf), old(whereBuf), attributeBuf, whereBuf);
      }
    }

    method TakeTag(scan: Scan, tag: string, load: ConstraintLoader, ghost before: seq<Section>, ghost items: seq<Item>, ghost x: Item)
      returns (fault: Option<Error>, next: Scan)
      requires before <= dataset && actual <= |dataset|
      requires Follows(items, load, scan, dataset[|before|..], attributeBuf, whereBuf)
      requires x.event == if tag == SECTION_TAG then NewSection else Nothing
      modifies `dataset, `actual, `attributeBuf, `whereBuf
      ensures fault.None? ==> before <= dataset && Follows(items + [x], load, next, dataset[|before|..], attributeBuf, whereBuf)
      ensures fault == StepFault(items, x, load)
      ensures actual == (if old(actual == |dataset|) then |dataset| else old(actual)) && actual <= |dataset|
      ensures next.part == PartOfTag(tag, scan.part) && next.vars == scan.vars
    {
      hide Complete, Build;
      ghost var c, stored := ReadSoFar(items), dataset[|before|..];
      LegalSection(items, Current(items));
      fault, next := PartTracking(scan, tag, load, c);
      if tag != SECTION_TAG {
        GatherStep(c, x);
        FollowsWithin(items, x, load, scan, next, stored, old(attributeBuf), old(whereBuf), attributeBuf, whereBuf);
      } else if scan.start {
        FollowsFirst(items, x, load, scan, next, stored, attributeBuf, whereBuf);
      } else if fault.None? {
        FollowsNext(items, x, load, scan, next, stored, old(attributeBuf), old(whereBuf), attributeBuf, whereBuf);
        assert dataset[|before|..] == stored + [Build(c, load)];
      }
    }

    /** One line of the file. */
    method TakeRow(scan: Scan, row: string, load: ConstraintLoader,
                   ghost before: seq<Section>, ghost lines: seq<string>, ghost n: nat)
      returns (fault: Option<Error>, next: Scan)
      requires n < |lines| && row == lines[n] && (Classify(row).Content? ==> !scan.part.NoPart?)
      requires scan.part == PartBefore(lines, n) && scan.vars == VarsBefore(lines, n)
      requires before <= dataset && actual <= |dataset|
      requires Follows(Items(lines)[..n], load, scan, dataset[|before|..], attributeBuf, whereBuf)
      modifies `dataset, `actual, `attributeBuf, `whereBuf
      ensures fault == FaultAt(Items(lines), n, load)
      ensures fault.None? ==> next.part == PartBefore(lines, n + 1) && next.vars == VarsBefore(lines, n + 1)
      ensures fault.None? ==>
                before <= dataset && Follows(Items(lines)[..n + 1], load, next, dataset[|before|..], attributeBuf, whereBuf)
      ensures actual == (if old(actual == |dataset|) then |dataset| else old(actual)) && actual <= |dataset|
    {
      hide Complete, Build, Follows, SectionFault, Expand, Definition, TagOf, IsComment, KeyValue, ContentOf, Sections;
      ghost var items, x := Items(lines)[..n], ItemAt(lines, n);
      ItemsStep(lines, n);
      assert Items(lines)[n] == x;
      match Classify(row)
      case Skipped =>
        fault, next := None, scan;
        FollowsNothing(items, x, load, scan, next, dataset[|before|..], attributeBuf, whereBuf);
      case Define(name, value) =>
        fault, next := None, if name in scan.vars then scan else scan.(vars := scan.vars[name := value]);
        FollowsNothing(items, x, load, scan, next, dataset[|before|..], attributeBuf, whereBuf);
      case Tag(tag) =>
        fault, next := TakeTag(scan, tag, load, before, items, x);
      case Content =>
        ghost var y;
        fault, next, y := TakeContent(scan, row, load, items, dataset[|before|..]);
        assert y == x;
    }

    /** The end of the file closes the last section; a file without a section is an empty dataset. */
    method Finish(scan: Scan, load: ConstraintLoader, ghost before: seq<Section>, ghost lines: seq<string>)
      returns (r: Reading)
      requires before <= dataset && actual <= |dataset| && NoFaultBefore(Items(lines), |lines|, load)
      requires Follows(Items(lines), load, scan, dataset[|before|..], attributeBuf, whereBuf)
      modifies `dataset, `actual, `attributeBuf, `whereBuf
      ensures r == Verdict(Parse(lines, load))
      ensures Parse(lines, load).Loaded? ==> dataset == before + Parse(lines, load).sections && attributeBuf == "" && whereBuf == ""
      ensures Parse(lines, load).NoSections? ==> dataset == before
      ensures actual == (if old(actual == |dataset|) then |dataset| else old(actual)) && actual <= |dataset|
    {
      hide Complete, Build, ItemAt, StepFault, FirstFault;
      ghost var items := Items(lines);
      if scan.start {
        return Finished(false);
      }
      LegalSection(items, Current(items));
      var fault := AddNewSection(scan.section, scan.complete, load, ReadSoFar(items));
      if fault.Some? {
        FaultIsVerdict(lines, |lines|, load, fault.value);
        return Threw(fault.value);
      }
      return Finished(true);
    }

    /** Reads the file. The two side buffers are empty before, and after a file that is accepted. */
    method Read(lines: seq<string>, load: ConstraintLoader) returns (r: Reading)
      requires Valid() && NoOrphans(lines)
      modifies `dataset, `actual, `attributeBuf, `whereBuf
      ensures r == Verdict(Parse(lines, load))
      ensures Parse(lines, load).Loaded? ==>
                dataset == old(dataset) + Parse(lines, load).sections && attributeBuf == "" && whereBuf == ""
      ensures Parse(lines, load).NoSections? ==> dataset == old(dataset)
      ensures actual == (if old(actual == |dataset|) then |dataset| else old(actual)) && actual <= |dataset|
    {
      hide Complete, Build, Classify, ItemAt, Parse, FaultAt;
      var scan := Scan(true, NoPart, map[], EMPTY_SECTION, {});
      var n := 0;
      ghost var items, before := Items(lines), dataset;
      while n < |lines|
        invariant n <= |lines| && before <= dataset && actual <= |dataset|
        invariant scan.part == PartBefore(lines, n) && scan.vars == VarsBefore(lines, n)
        invariant Follows(items[..n], load, scan, dataset[|before|..], attributeBuf, whereBuf)
        invariant NoFaultBefore(items, n, load)
        invariant actual == if old(actual == |dataset|) then |dataset| else old(actual)
      {
        var fault;
        fault, scan := TakeRow(scan, lines[n], load, before, lines, n);
        if fault.Some? {
          FaultIsVerdict(lines, n, load, fault.value);
          return Threw(fault.value);
        }
        n := n + 1;
      }
      assert items[..n] == items;
      r := Finish(scan, load, before, lines);
    }

    /** Replaces what the container holds by what the file says. The time stamp is the file's; an exception
        leaves readiness as it was. A file without a section, like one that is rejected, may leave text in the
        side buffers; every caller gives such a container up. */
    method Setup(file: Option<File>, load: ConstraintLoader) returns (r: Reading)
      requires Valid() && (file.Some? ==> NoOrphans(file.value.lines))
      modifies this
      ensures r == if file.None? then Threw(Internal) else Verdict(Parse(file.value.lines, load))
      ensures r.Finished? ==> isReady == r.found
      ensures r == Finished(true) ==> dataset == Parse(file.value.lines, load).sections && time == file.value.mtime && actual == 0 && Valid()
      ensures r == Finished(false) ==> dataset == []
      ensures r.Threw? ==> isReady == old(isReady) && time == old(time)
    {
      hide Parse;
      if dataset != [] {
        Clear();
      }
      if file.None? {
        return Threw(Internal);
      }
      assert dataset == [] && forall sections: seq<Section> :: [] + sections == sections;
      r := Read(file.value.lines, load);
      if r.Finished? {
        isReady := r.found;
        if r.found {
          time := file.value.mtime;
          Reset();
        }
      }
    }
  }
}
