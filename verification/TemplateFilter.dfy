/** The filter that turns the plugin templates into sources (bin/filter.awk). */
module TemplateFilter {
  import opened Prelude

  datatype Marker = Das | Dds | Data | Complete | Simple

  predicate TagAt(line: string, tag: string, i: nat)
  {
    i + |tag| <= |line| && line[i..i + |tag|] == tag
  }

  predicate Contains(line: string, tag: string)
  {
    exists i :: 0 <= i <= |line| && TagAt(line, tag, i)
  }

  /** A line counts as the first marker, in the order of the script's patterns, that it contains. */
  function MarkerOf(line: string): Option<Marker>
  {
    if Contains(line, "#DAS#") then Some(Das)
    else if Contains(line, "#DDS#") then Some(Dds)
    else if Contains(line, "#DATA#") then Some(Data)
    else if Contains(line, "#COMPLETE#") then Some(Complete)
    else if Contains(line, "#SIMPLE#") then Some(Simple)
    else None
  }

  predicate IsResponse(m: Marker)
  {
    m.Das? || m.Dds? || m.Data?
  }

  /** What the script is asked for; `mode` is "complete", "simple" or anything else. */
  datatype Options = Options(das: bool, dds: bool, data: bool, mode: string)
  {
    predicate Wants(m: Marker)
    {
      match m
      case Das => das
      case Dds => dds
      case Data => data
      case Complete => mode == "complete"
      case Simple => mode == "simple"
    }
  }

  // ----- what is printed of any text

  function Count(seen: seq<string>, m: Marker): nat
  {
    if |seen| == 0 then 0 else
      Count(seen[..|seen| - 1], m) + if MarkerOf(seen[|seen| - 1]) == Some(m) then 1 else 0
  }

  function Responses(seen: seq<string>): nat
  {
    Count(seen, Das) + Count(seen, Dds) + Count(seen, Data)
  }

  function LastResponse(seen: seq<string>): (m: Option<Marker>)
    ensures m.None? <==> Responses(seen) == 0
    ensures m.Some? ==> IsResponse(m.value)
  {
    if |seen| == 0 then None else
      var m := MarkerOf(seen[|seen| - 1]);
      if m.Some? && IsResponse(m.value) then m else LastResponse(seen[..|seen| - 1])
  }

  /** Where a line stands: the response block it is in, if any, and whether it is in a block of either mode. A
      block is open after an odd number of its markers; any response marker closes any response block. */
  datatype Place = Place(response: Option<Marker>, complete: bool, simple: bool)

  function PlaceAfter(seen: seq<string>): Place
  {
    Place(if Responses(seen) % 2 == 1 then LastResponse(seen) else None,
          Count(seen, Complete) % 2 == 1, Count(seen, Simple) % 2 == 1)
  }

  predicate Shown(options: Options, place: Place)
  {
    && (place.response.Some? ==> options.Wants(place.response.value))
    && (if place.complete then options.Wants(Complete) else place.simple ==> options.Wants(Simple))
  }

  /** The lines printed for `lines` when `seen` came before. */
  function Printed(options: Options, subst: string -> string, seen: seq<string>, lines: seq<string>): seq<string>
    decreases |lines|
  {
    if |lines| == 0 then [] else
      var line := lines[0];
      (if MarkerOf(line).None? && Shown(options, PlaceAfter(seen)) then [subst(line)] else [])
      + Printed(options, subst, seen + [line], lines[1..])
  }

  /** A marker toggles its block; anything else leaves the place as it is. */
  function Toggled(place: Place, m: Option<Marker>): Place
  {
    match m
    case None => place
    case Some(Complete) => place.(complete := !place.complete)
    case Some(Simple) => place.(simple := !place.simple)
    case Some(r) => place.(response := if place.response.Some? then None else m)
  }

  lemma PlaceStep(seen: seq<string>, line: string)
    ensures PlaceAfter(seen + [line]) == Toggled(PlaceAfter(seen), MarkerOf(line))
  {
    assert (seen + [line])[..|seen|] == seen;
  }

  lemma {:induction false} PrintedSplit(options: Options, subst: string -> string, seen: seq<string>, a: seq<string>, b: seq<string>)
    ensures Printed(options, subst, seen, a + b) == Printed(options, subst, seen, a) + Printed(options, subst, seen + a, b)
    decreases |a|
  {
    if |a| == 0 {
      assert a + b == b && seen + a == seen;
    } else {
      assert (a + b)[1..] == a[1..] + b;
      assert seen + [a[0]] + a[1..] == seen + a;
      PrintedSplit(options, subst, seen + [a[0]], a[1..], b);
    }
  }

  lemma PrintedOne(options: Options, subst: string -> string, seen: seq<string>, line: string)
    ensures Printed(options, subst, seen, [line]) ==
            if MarkerOf(line).None? && Shown(options, PlaceAfter(seen)) then [subst(line)] else []
  {
    assert [line][1..] == [];
  }

  // ----- the script

  class Filter {
    const options: Options
    const subst: string -> string
    var rest: bool
    var das: bool
    var dds: bool
    var data: bool
    var complete: bool
    var simple: bool

    constructor (options: Options, subst: string -> string)
      ensures this.options == options && this.subst == subst && Tracks([])
    {
      this.options, this.subst := options, subst;
      rest, das, dds, data, complete, simple := true, false, false, false, false, false;
    }

    /** Outside response blocks the three response flags do not matter. */
    ghost predicate Tracks(seen: seq<string>)
      reads this
    {
      && rest == PlaceAfter(seen).response.None?
      && complete == PlaceAfter(seen).complete && simple == PlaceAfter(seen).simple
      && (!rest ==> (das || dds || data) == options.Wants(PlaceAfter(seen).response.value))
    }

    method Toggle(m: Marker)
      requires IsResponse(m)
      modifies `rest, `das, `dds, `data
      ensures rest == !old(rest)
      ensures !rest ==> (das || dds || data) == options.Wants(m)
    {
      if !rest {
        rest := true;
        match m
        case Das => das := false;
        case Dds => dds := false;
        case Data => data := false;
      } else {
        das := m.Das? && options.das;
        dds := m.Dds? && options.dds;
        data := m.Data? && options.data;
        rest := false;
      }
    }

    method Row(line: string, ghost seen: seq<string>) returns (out: Option<string>)
      requires Tracks(seen)
      modifies this
      ensures Tracks(seen + [line])
      ensures out == if MarkerOf(line).None? && Shown(options, PlaceAfter(seen)) then Some(subst(line)) else None
    {
      PlaceStep(seen, line);
      match MarkerOf(line)
      case Some(Complete) =>
        complete := !complete;
        return None;
      case Some(Simple) =>
        simple := !simple;
        return None;
      case Some(m) =>
        Toggle(m);
        return None;
      case None =>
        if rest || das || dds || data {
          if complete {
            if options.mode == "complete" {
              return Some(subst(line));
            }
          } else if simple {
            if options.mode == "simple" {
              return Some(subst(line));
            }
          } else {
            return Some(subst(line));
          }
        }
        return None;
    }

    method Run(lines: seq<string>) returns (out: seq<string>)
      requires Tracks([])
      modifies this
      ensures Tracks(lines)
      ensures out == Printed(options, subst, [], lines)
    {
      out := [];
      var i := 0;
      while i < |lines|
        invariant i <= |lines|
        invariant Tracks(lines[..i])
        invariant out == Printed(options, subst, [], lines[..i])
      {
        hide PlaceAfter, MarkerOf, Shown;
        assert lines[..i + 1] == lines[..i] + [lines[i]];
        PrintedSplit(options, subst, [], lines[..i], [lines[i]]);
        assert [] + lines[..i] == lines[..i];
        PrintedOne(options, subst, lines[..i], lines[i]);
        var row := Row(lines[i], lines[..i]);
        if row.Some? {
          out := out + [row.value];
        }
        i := i + 1;
      }
      assert lines[..i] == lines;
    }
  }

  // ----- documents made of blocks

  /** A piece of a template: a line without markers, a response block, or a block of one mode. A response block
      may be closed by the marker of another response. */
  datatype Piece = Text(line: string)
                 | Response(first: string, response: Marker, body: seq<Piece>, last: string)
                 | Mode(first: string, mode: Marker, body: seq<Piece>, last: string)

  /** The markers are where they should be, response blocks do not nest in each other, nor do mode blocks. */
  predicate WellFormed(doc: seq<Piece>, inResponse: bool, inMode: bool)
  {
    forall i :: 0 <= i < |doc| ==> WellFormedPiece(doc[i], inResponse, inMode)
  }

  predicate WellFormedPiece(p: Piece, inResponse: bool, inMode: bool)
  {
    match p
    case Text(line) => MarkerOf(line).None?
    case Response(first, m, body, last) =>
      && !inResponse && IsResponse(m) && MarkerOf(first) == Some(m)
      && MarkerOf(last).Some? && IsResponse(MarkerOf(last).value)
      && WellFormed(body, true, inMode)
    case Mode(first, m, body, last) =>
      && !inMode && !IsResponse(m) && MarkerOf(first) == Some(m) == MarkerOf(last)
      && WellFormed(body, inResponse, true)
  }

  function Lines(doc: seq<Piece>): seq<string>
  {
    if |doc| == 0 then [] else LinesOf(doc[0]) + Lines(doc[1..])
  }

  function LinesOf(p: Piece): seq<string>
  {
    match p
    case Text(line) => [line]
    case Response(first, _, body, last) => [first] + Lines(body) + [last]
    case Mode(first, _, body, last) => [first] + Lines(body) + [last]
  }

  /** What a document is meant to print: the lines of the blocks that are asked for. */
  function Selected(options: Options, subst: string -> string, doc: seq<Piece>): seq<string>
  {
    if |doc| == 0 then [] else SelectedOf(options, subst, doc[0]) + Selected(options, subst, doc[1..])
  }

  function SelectedOf(options: Options, subst: string -> string, p: Piece): seq<string>
  {
    match p
    case Text(line) => [subst(line)]
    case Response(_, m, body, _) => if options.Wants(m) then Selected(options, subst, body) else []
    case Mode(_, m, body, _) => if options.Wants(m) then Selected(options, subst, body) else []
  }

  /** Only what is between two markers prints. */
  lemma PrintedBlock(options: Options, subst: string -> string, seen: seq<string>, first: string,
                     inner: seq<string>, last: string)
    requires MarkerOf(first).Some? && MarkerOf(last).Some?
    ensures Printed(options, subst, seen, [first] + inner + [last]) == Printed(options, subst, seen + [first], inner)
  {
    hide PlaceAfter, Shown, MarkerOf, Printed;
    PrintedSplit(options, subst, seen, [first] + inner, [last]);
    PrintedSplit(options, subst, seen, [first], inner);
    PrintedOne(options, subst, seen, first);
    PrintedOne(options, subst, seen + ([first] + inner), last);
  }

  /** What a document prints at a place: its selected lines where the place is shown, nothing otherwise. Either
      way the place after it is the place before it. */
  lemma {:induction false} DocumentPrints(options: Options, subst: string -> string, seen: seq<string>, doc: seq<Piece>)
    requires var place := PlaceAfter(seen);
             WellFormed(doc, place.response.Some?, place.complete || place.simple)
    ensures PlaceAfter(seen + Lines(doc)) == PlaceAfter(seen)
    ensures Printed(options, subst, seen, Lines(doc)) ==
            if Shown(options, PlaceAfter(seen)) then Selected(options, subst, doc) else []
    decreases doc, 0
  {
    hide PlaceAfter, Shown, MarkerOf;
    if |doc| == 0 {
      assert seen + [] == seen;
    } else {
      PiecePrints(options, subst, seen, doc[0]);
      DocumentPrints(options, subst, seen + LinesOf(doc[0]), doc[1..]);
      PrintedSplit(options, subst, seen, LinesOf(doc[0]), Lines(doc[1..]));
      assert seen + LinesOf(doc[0]) + Lines(doc[1..]) == seen + Lines(doc);
    }
  }

  lemma {:induction false} PiecePrints(options: Options, subst: string -> string, seen: seq<string>, p: Piece)
    requires var place := PlaceAfter(seen);
             WellFormedPiece(p, place.response.Some?, place.complete || place.simple)
    ensures PlaceAfter(seen + LinesOf(p)) == PlaceAfter(seen)
    ensures Printed(options, subst, seen, LinesOf(p)) ==
            if Shown(options, PlaceAfter(seen)) then SelectedOf(options, subst, p) else []
    decreases p, 1
  {
    hide PlaceAfter, MarkerOf;
    match p
    case Text(line) =>
      PlaceStep(seen, line);
      PrintedOne(options, subst, seen, line);
    case _ =>
      PlaceStep(seen, p.first);
      BlockPrints(options, subst, seen, p.first, p.body, p.last);
  }

  lemma {:induction false} BlockPrints(options: Options, subst: string -> string, seen: seq<string>, first: string,
                                       body: seq<Piece>, last: string)
    requires MarkerOf(first).Some? && MarkerOf(last).Some?
    requires var place := PlaceAfter(seen + [first]);
             WellFormed(body, place.response.Some?, place.complete || place.simple)
    ensures Printed(options, subst, seen, [first] + Lines(body) + [last]) ==
            if Shown(options, PlaceAfter(seen + [first])) then Selected(options, subst, body) else []
    ensures PlaceAfter(seen + ([first] + Lines(body) + [last])) == Toggled(PlaceAfter(seen + [first]), MarkerOf(last))
    decreases body, 1
  {
    hide PlaceAfter, Shown, MarkerOf, Toggled, Printed, Selected, WellFormed, Lines;
    var inner := Lines(body);
    DocumentPrints(options, subst, seen + [first], body);
    PrintedBlock(options, subst, seen, first, inner, last);
    PlaceStep(seen + [first] + inner, last);
    assert seen + ([first] + inner + [last]) == seen + [first] + inner + [last];
  }

  /** For a well-formed document the script prints what the document is meant to print. */
  lemma WholeDocument(options: Options, subst: string -> string, doc: seq<Piece>)
    requires WellFormed(doc, false, false)
    ensures Printed(options, subst, [], Lines(doc)) == Selected(options, subst, doc)
    ensures PlaceAfter(Lines(doc)) == PlaceAfter([])
  {
    assert [] + Lines(doc) == Lines(doc);
    DocumentPrints(options, subst, [], doc);
  }

  // ----- the markers as they are written

  /** A hash on either side and none between. */
  predicate IsTag(tag: string)
  {
    |tag| >= 2 && tag[0] == '#' == tag[|tag| - 1] && forall i :: 0 < i < |tag| - 1 ==> tag[i] != '#'
  }

  lemma OnlyTag(before: string, tag: string, after: string, other: string)
    requires '#' !in before && '#' !in after && IsTag(tag) && IsTag(other)
    ensures Contains(before + (tag + after), other) <==> tag == other
  {
    var line, n := before + (tag + after), |before|;
    assert line[n..n + |tag|] == tag;
    assert TagAt(line, tag, n);
    assert forall k :: 0 <= k < n ==> line[k] == before[k];
    assert forall k :: n <= k < n + |tag| ==> line[k] == tag[k - n];
    assert forall k :: n + |tag| <= k < |line| ==> line[k] == after[k - n - |tag|];
    forall i | 0 <= i <= |line| && TagAt(line, other, i)
      ensures tag == other
    {
      assert line[i] == other[0] && line[i + |other| - 1] == other[|other| - 1];
    }
  }

  /** The five markers, whatever else without a hash is on their line. */
  lemma MarkersAre(before: string, after: string)
    requires '#' !in before && '#' !in after
    ensures MarkerOf(before + ("#DAS#" + after)) == Some(Das)
    ensures MarkerOf(before + ("#DDS#" + after)) == Some(Dds)
    ensures MarkerOf(before + ("#DATA#" + after)) == Some(Data)
    ensures MarkerOf(before + ("#COMPLETE#" + after)) == Some(Complete)
    ensures MarkerOf(before + ("#SIMPLE#" + after)) == Some(Simple)
  {
    hide Contains;
    var tags := ["#DAS#", "#DDS#", "#DATA#", "#COMPLETE#", "#SIMPLE#"];
    forall i, j | 0 <= i < 5 && 0 <= j < 5
      ensures Contains(before + (tags[i] + after), tags[j]) <==> i == j
    {
      assert IsTag(tags[i]) && IsTag(tags[j]) && (tags[i] == tags[j] ==> i == j) by {
        TagsDiffer(tags, i, j);
      }
      OnlyTag(before, tags[i], after, tags[j]);
    }
    assert tags[0] == "#DAS#" && tags[1] == "#DDS#" && tags[2] == "#DATA#" && tags[3] == "#COMPLETE#" && tags[4] == "#SIMPLE#";
  }

  lemma TagsDiffer(tags: seq<string>, i: nat, j: nat)
    requires tags == ["#DAS#", "#DDS#", "#DATA#", "#COMPLETE#", "#SIMPLE#"] && i < 5 && j < 5
    ensures IsTag(tags[i]) && (tags[i] == tags[j] ==> i == j)
  {
    assert "#DAS#"[2] != "#DDS#"[2] && |"#COMPLETE#"| == 10 && |"#SIMPLE#"| == 8 && |"#DATA#"| == 6;
  }

  lemma NoMarker(line: string)
    requires '#' !in line
    ensures MarkerOf(line) == None
  {
    forall tag: string, i | |tag| > 0 && tag[0] == '#' && 0 <= i <= |line|
      ensures !TagAt(line, tag, i)
    {
      assert i + |tag| <= |line| ==> line[i..i + |tag|][0] == line[i];
    }
  }

  function Texts(lines: seq<string>): (doc: seq<Piece>)
    ensures |doc| == |lines|
  {
    seq(|lines|, i requires 0 <= i < |lines| => Text(lines[i]))
  }

  function Substituted(subst: string -> string, lines: seq<string>): seq<string>
  {
    seq(|lines|, i requires 0 <= i < |lines| => subst(lines[i]))
  }

  lemma {:induction false} TextsAre(options: Options, subst: string -> string, lines: seq<string>)
    ensures Lines(Texts(lines)) == lines && Selected(options, subst, Texts(lines)) == Substituted(subst, lines)
  {
    if |lines| > 0 {
      assert Texts(lines)[1..] == Texts(lines[1..]);
      TextsAre(options, subst, lines[1..]);
    }
  }

  lemma TextsAreWellFormed(lines: seq<string>, inResponse: bool, inMode: bool)
    requires forall line :: line in lines ==> '#' !in line
    ensures WellFormed(Texts(lines), inResponse, inMode)
  {
    forall i | 0 <= i < |lines|
      ensures MarkerOf(lines[i]) == None
    {
      NoMarker(lines[i]);
    }
  }

  /** One block of a marker, written out. */
  function Block(marker: string, body: seq<string>): seq<string>
  {
    [marker] + body + [marker]
  }

  function AllBlocks(das: seq<string>, dds: seq<string>, data: seq<string>, complete: seq<string>, simple: seq<string>): seq<string>
  {
    Block("#DAS#", das) + (Block("#DDS#", dds) + (Block("#DATA#", data)
    + (Block("#COMPLETE#", complete) + Block("#SIMPLE#", simple))))
  }

  function If(wanted: bool, lines: seq<string>): seq<string>
  {
    if wanted then lines else []
  }

  lemma BlockIs(options: Options, subst: string -> string, p: Piece, marker: string, body: seq<string>)
    requires !p.Text? && p.first == marker == p.last && p.body == Texts(body)
    ensures LinesOf(p) == Block(marker, body)
    ensures SelectedOf(options, subst, p) ==
            If(options.Wants(if p.Response? then p.response else p.mode), Substituted(subst, body))
  {
    TextsAre(options, subst, body);
  }

  lemma LiteralMarkers()
    ensures MarkerOf("#DAS#") == Some(Das) && MarkerOf("#DDS#") == Some(Dds) && MarkerOf("#DATA#") == Some(Data)
    ensures MarkerOf("#COMPLETE#") == Some(Complete) && MarkerOf("#SIMPLE#") == Some(Simple)
  {
    hide MarkerOf;
    MarkersAre("", "");
    assert "" + ("#DAS#" + "") == "#DAS#" && "" + ("#DDS#" + "") == "#DDS#" && "" + ("#DATA#" + "") == "#DATA#";
    assert "" + ("#COMPLETE#" + "") == "#COMPLETE#" && "" + ("#SIMPLE#" + "") == "#SIMPLE#";
  }

  lemma FivePieces(options: Options, subst: string -> string, doc: seq<Piece>)
    requires |doc| == 5
    ensures Lines(doc) == LinesOf(doc[0]) + (LinesOf(doc[1]) + (LinesOf(doc[2]) + (LinesOf(doc[3]) + LinesOf(doc[4]))))
    ensures Selected(options, subst, doc) ==
            SelectedOf(options, subst, doc[0]) + (SelectedOf(options, subst, doc[1]) + (SelectedOf(options, subst, doc[2])
            + (SelectedOf(options, subst, doc[3]) + SelectedOf(options, subst, doc[4]))))
  {
    hide LinesOf, SelectedOf;
    var d1, d2, d3, d4 := doc[1..], doc[2..], doc[3..], doc[4..];
    assert d1[1..] == d2 && d2[1..] == d3 && d3[1..] == d4 && d4[1..] == [];
    assert Lines(d4) == LinesOf(doc[4]) && Selected(options, subst, d4) == SelectedOf(options, subst, doc[4]);
    assert Lines(d2) == LinesOf(doc[2]) + (LinesOf(doc[3]) + Lines(d4));
    assert Selected(options, subst, d2)
        == SelectedOf(options, subst, doc[2]) + (SelectedOf(options, subst, doc[3]) + Selected(options, subst, d4));
  }

  /** A block of each marker prints its lines exactly when it is asked for. */
  method RunBlocks(options: Options, subst: string -> string, das: seq<string>, dds: seq<string>, data: seq<string>,
                   complete: seq<string>, simple: seq<string>)
    returns (out: seq<string>)
    requires forall line :: line in das + dds + data + complete + simple ==> '#' !in line
    ensures out == If(options.das, Substituted(subst, das)) + (If(options.dds, Substituted(subst, dds))
                   + (If(options.data, Substituted(subst, data))
                   + (If(options.mode == "complete", Substituted(subst, complete))
                   + If(options.mode == "simple", Substituted(subst, simple)))))
  {
    hide PlaceAfter, Shown, MarkerOf, Printed, Selected, WellFormed, Lines, Texts, Substituted, If;
    BlocksSelect(options, subst, das, dds, data, complete, simple);
    var filter := new Filter(options, subst);
    out := filter.Run(AllBlocks(das, dds, data, complete, simple));
  }

  lemma BlocksSelect(options: Options, subst: string -> string, das: seq<string>, dds: seq<string>, data: seq<string>,
                     complete: seq<string>, simple: seq<string>)
    requires forall line :: line in das + dds + data + complete + simple ==> '#' !in line
    ensures Printed(options, subst, [], AllBlocks(das, dds, data, complete, simple)) ==
            If(options.das, Substituted(subst, das)) + (If(options.dds, Substituted(subst, dds))
            + (If(options.data, Substituted(subst, data))
            + (If(options.mode == "complete", Substituted(subst, complete))
            + If(options.mode == "simple", Substituted(subst, simple)))))
  {
    var doc := [Response("#DAS#", Das, Texts(das), "#DAS#"), Response("#DDS#", Dds, Texts(dds), "#DDS#"),
                Response("#DATA#", Data, Texts(data), "#DATA#"), Mode("#COMPLETE#", Complete, Texts(complete), "#COMPLETE#"),
                Mode("#SIMPLE#", Simple, Texts(simple), "#SIMPLE#")];
    TextsAreWellFormed(das, true, false);
    TextsAreWellFormed(dds, true, false);
    TextsAreWellFormed(data, true, false);
    TextsAreWellFormed(complete, false, true);
    TextsAreWellFormed(simple, false, true);
    LiteralMarkers();
    hide PlaceAfter, Shown, MarkerOf, Printed, Selected, SelectedOf, LinesOf, Lines, Texts, Substituted, If, Block;
    assert WellFormed(doc, false, false);
    hide WellFormed, WellFormedPiece;
    WholeDocument(options, subst, doc);
    FivePieces(options, subst, doc);
    BlockIs(options, subst, doc[0], "#DAS#", das);
    BlockIs(options, subst, doc[1], "#DDS#", dds);
    BlockIs(options, subst, doc[2], "#DATA#", data);
    BlockIs(options, subst, doc[3], "#COMPLETE#", complete);
    BlockIs(options, subst, doc[4], "#SIMPLE#", simple);
  }
}
