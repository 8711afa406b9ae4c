/** Projection: the attributes of a dataset, the ones a client asks for, and the SELECT list built from
    both (container/SQLQuery.cc, container/SQLTextContainer.cc). */
module Query {
  import opened Prelude
  import opened TextMatch
  import opened Attribute
  import List = AttributeList

  /** std::set ordered by name: one attribute per name. Its iteration order does not matter here, since
      every loop over it below may take the names in any order. */
  type ByName = map<string, Attribute>

  /** What holds of every set of attributes the source loads. */
  ghost predicate WellKept(m: ByName)
  {
    && (forall n :: n in m ==> m[n].name == n && Load(m[n].text, m[n].position) == Some(m[n]) && List.Listable(m[n].text))
    && (forall n, k :: n in m && k in m && n != k ==> m[n].position != m[k].position)
  }

  /** Inserting into a std::set keeps the element that is there. */
  function InsertByName(m: ByName, a: Attribute): ByName
  {
    if a.name in m then m else m[a.name := a]
  }

  /** The attributes of the given texts, the i-th with position i; the first text of a name wins. Any text
      that is not an attribute fails the whole list. */
  function SetOf(texts: seq<string>): Option<ByName>
  {
    if |texts| == 0 then Some(map[]) else
      var i := |texts| - 1;
      match (SetOf(texts[..i]), Load(texts[i], i))
      case (Some(m), Some(a)) => Some(InsertByName(m, a))
      case _ => None
  }

  lemma {:induction false} SetOfPrefix(texts: seq<string>, i: nat)
    requires i <= |texts| && SetOf(texts).Some?
    ensures SetOf(texts[..i]).Some?
  {
    if i < |texts| {
      var n := |texts| - 1;
      assert texts[..n][..i] == texts[..i];
      SetOfPrefix(texts[..n], i);
    } else {
      assert texts[..i] == texts;
    }
  }

  /** The i-th text is an attribute of that name. */
  predicate IsNamed(texts: seq<string>, i: nat, name: string)
    requires i < |texts|
  {
    Load(texts[i], i).Some? && Load(texts[i], i).value.name == name
  }

  /** The names are those of the texts, and each has the attribute of the first text that bears it. */
  ghost predicate FirstOfEachName(m: ByName, texts: seq<string>)
  {
    && (forall n :: n in m ==> exists i: nat :: i < |texts| && IsNamed(texts, i, n))
    && (forall i: nat, n :: i < |texts| && IsNamed(texts, i, n) ==> n in m)
    && (forall i: nat, n :: i < |texts| && IsNamed(texts, i, n) && (forall j: nat :: j < i ==> !IsNamed(texts, j, n)) ==>
          n in m && m[n] == Load(texts[i], i).value)
  }

  lemma {:induction false} SetOfSucceedsIff(texts: seq<string>)
    ensures SetOf(texts).Some? <==> forall i :: 0 <= i < |texts| ==> Load(texts[i], i).Some?
  {
    hide Load;
    if |texts| > 0 {
      var k := |texts| - 1;
      assert forall i :: 0 <= i < k ==> texts[..k][i] == texts[i];
      SetOfSucceedsIff(texts[..k]);
    }
  }

  lemma {:induction false} SetOfIsFirstOfEachName(texts: seq<string>)
    requires SetOf(texts).Some?
    ensures FirstOfEachName(SetOf(texts).value, texts)
  {
    hide Load, FirstOfEachName;
    if |texts| > 0 {
      var k := |texts| - 1;
      SetOfIsFirstOfEachName(texts[..k]);
      OneMoreOfEachName(SetOf(texts[..k]).value, texts);
    } else {
      NoNames(texts);
    }
  }

  lemma NoNames(texts: seq<string>)
    requires |texts| == 0
    ensures FirstOfEachName(map[], texts)
  {
  }

  lemma OneMoreOfEachName(m: ByName, texts: seq<string>)
    requires |texts| > 0 && FirstOfEachName(m, texts[..|texts| - 1]) && Load(texts[|texts| - 1], |texts| - 1).Some?
    ensures FirstOfEachName(InsertByName(m, Load(texts[|texts| - 1], |texts| - 1).value), texts)
  {
    hide Load;
    var k := |texts| - 1;
    var before, a := texts[..k], Load(texts[k], k).value;
    forall i: nat, n | i < k
      ensures IsNamed(before, i, n) <==> IsNamed(texts, i, n)
    {
    }
    assert IsNamed(texts, k, a.name);
    forall n | n in m
      ensures exists i: nat :: i < |texts| && IsNamed(texts, i, n)
    {
      var i: nat :| i < |before| && IsNamed(before, i, n);
      assert IsNamed(texts, i, n);
    }
  }

  method LoadAttributes(text: string) returns (r: Option<ByName>)
    ensures r == SetOf(List.Attributes(text))
    ensures r.Some? <==> forall i :: 0 <= i < |List.Attributes(text)| ==> Load(List.Attributes(text)[i], i).Some?
    ensures r.Some? ==> WellKept(r.value) && FirstOfEachName(r.value, List.Attributes(text))
  {
    var texts, rest := List.MatchAll(text);
    var m: ByName := map[];
    var i := 0;
    while i < |texts|
      invariant 0 <= i <= |texts|
      invariant SetOf(texts[..i]) == Some(m)
    {
      hide Load, FirstOfEachName, WellKept;
      assert texts[..i + 1][..i] == texts[..i];
      var a := LoadAttribute(texts[i], i);
      if a.None? {
        if SetOf(texts).Some? {
          SetOfPrefix(texts, i + 1);
        }
        SetOfSucceedsIff(texts);
        return None;
      }
      m := InsertByName(m, a.value);
      i := i + 1;
    }
    assert texts[..i] == texts;
    LoadedIsWellKept(text, |texts|, m);
    SetOfSucceedsIff(texts);
    SetOfIsFirstOfEachName(texts);
    return Some(m);
  }

  lemma InsertKeepsWell(m: ByName, a: Attribute, i: nat)
    requires WellKept(m) && forall n :: n in m ==> m[n].position < i
    requires Load(a.text, i) == Some(a) && List.Listable(a.text)
    ensures WellKept(InsertByName(m, a))
    ensures forall n :: n in InsertByName(m, a) ==> InsertByName(m, a)[n].position < i + 1
  {
  }

  lemma {:induction false} LoadedIsWellKept(text: string, i: nat, m: ByName)
    requires i <= |List.Attributes(text)| && SetOf(List.Attributes(text)[..i]) == Some(m)
    ensures WellKept(m) && forall n :: n in m ==> m[n].position < i
  {
    var texts := List.Attributes(text);
    if i > 0 {
      var k := i - 1;
      assert texts[..i][..k] == texts[..k] && texts[..i][k] == texts[k];
      LoadedIsWellKept(text, k, SetOf(texts[..k]).value);
      List.AttributesAreListable(text, k);
      OneBlankIsNoAttribute();
      InsertKeepsWell(SetOf(texts[..k]).value, Load(texts[k], k).value, k);
    }
  }

  lemma OneBlankIsNoAttribute()
    ensures Parse(" ").None?
  {
    RunEndIs(" ", 0, 1, IsSpace);
    assert RunEnd("", 0, IsWord) == 0;
    assert " "[1..1] == "";
  }

  /** Joining attribute texts with commas, as the SELECT list does, and loading the result gives the same
      attributes back, the i-th with position i. */
  lemma LoadJoin(texts: seq<string>, names: seq<string>)
    requires |names| == |texts|
    requires forall i :: 0 <= i < |texts| ==>
               List.Listable(texts[i]) && Load(texts[i], i).Some? && Load(texts[i], i).value.name == names[i]
    requires forall i, j :: 0 <= i < j < |names| ==> names[i] != names[j]
    ensures Holds(SetOf(List.Attributes(List.Join(texts))), texts, names)
  {
    List.SplitJoin(texts);
    DistinctNamesAreKept(texts, names);
  }

  /** `r` holds the attribute of every text under its name, and nothing else. */
  ghost predicate Holds(r: Option<ByName>, texts: seq<string>, names: seq<string>)
    requires |names| == |texts|
  {
    && r.Some?
    && (forall n :: n in r.value <==> n in names)
    && (forall i :: 0 <= i < |texts| ==> names[i] in r.value && Some(r.value[names[i]]) == Load(texts[i], i))
  }

  lemma {:induction false} DistinctNamesAreKept(texts: seq<string>, names: seq<string>)
    requires |names| == |texts|
    requires forall i :: 0 <= i < |texts| ==> Load(texts[i], i).Some? && Load(texts[i], i).value.name == names[i]
    requires forall i, j :: 0 <= i < j < |names| ==> names[i] != names[j]
    ensures Holds(SetOf(texts), texts, names)
  {
    if |texts| > 0 {
      var k := |texts| - 1;
      DistinctNamesAreKept(texts[..k], names[..k]);
      HoldsOneMore(SetOf(texts[..k]), texts, names, Load(texts[k], k).value);
    }
  }

  lemma HoldsOneMore(r: Option<ByName>, texts: seq<string>, names: seq<string>, a: Attribute)
    requires 0 < |names| == |texts|
    requires var k := |texts| - 1; Holds(r, texts[..k], names[..k]) && Load(texts[k], k) == Some(a) && a.name == names[k]
    requires forall i, j :: 0 <= i < j < |names| ==> names[i] != names[j]
    ensures Holds(Some(InsertByName(r.value, a)), texts, names)
  {
    var k := |texts| - 1;
    assert names == names[..k] + [names[k]];
    assert names[k] !in names[..k];
    forall i | 0 <= i < k
      ensures names[i] in r.value && Some(r.value[names[i]]) == Load(texts[i], i)
    {
      assert names[..k][i] == names[i] && texts[..k][i] == texts[i];
    }
  }

  // ----- std::set ordered by position

  ghost predicate ByPosition(s: seq<Attribute>)
  {
    forall i, j :: 0 <= i < j < |s| ==> s[i].position < s[j].position
  }

  function InsertByPosition(s: seq<Attribute>, a: Attribute): seq<Attribute>
  {
    if |s| == 0 || a.position < s[0].position then [a] + s
    else if a.position == s[0].position then s
    else [s[0]] + InsertByPosition(s[1..], a)
  }

  lemma {:induction false} InsertKeepsOrder(s: seq<Attribute>, a: Attribute)
    requires ByPosition(s) && forall x :: x in s ==> x.position != a.position
    ensures ByPosition(InsertByPosition(s, a))
    ensures forall x :: x in InsertByPosition(s, a) <==> x in s || x == a
  {
    if |s| > 0 && a.position > s[0].position {
      InsertKeepsOrder(s[1..], a);
      assert s == [s[0]] + s[1..];
      var t := InsertByPosition(s[1..], a);
      forall x | x in t
        ensures s[0].position < x.position
      {
      }
    }
  }

  lemma TailMembers(s: seq<Attribute>)
    requires |s| > 0 && ByPosition(s)
    ensures forall x :: x in s[1..] <==> x in s && x != s[0]
  {
    assert s == [s[0]] + s[1..];
  }

  /** The order by position leaves no choice: two ordered sequences with the same elements are equal. */
  lemma {:induction false} OrderedIsUnique(s: seq<Attribute>, t: seq<Attribute>)
    requires ByPosition(s) && ByPosition(t) && forall x :: x in s <==> x in t
    ensures s == t
  {
    assert |s| > 0 ==> s[0] in t;
    assert |t| > 0 ==> t[0] in s;
    if |s| > 0 && |t| > 0 {
      assert s[0] == t[0];
      TailMembers(s);
      TailMembers(t);
      OrderedIsUnique(s[1..], t[1..]);
    }
  }

  // ----- the projection

  /** An attribute without what stands before its name: what a star in the dataset lets through. */
  function Bare(a: Attribute): Option<Attribute>
  {
    Load(a.name, a.position)
  }

  /** A name with nothing before or after it; the star has no full name. */
  function NameAlone(n: string, position: nat): Attribute
  {
    Attribute(n, if n == "*" then "" else n, n, position)
  }

  lemma {:induction false} LastPartIsWord(full: string)
    requires IsDotted(full)
    ensures IsNonEmptyWord(LastPart(full))
  {
    var e := RunEnd(full, 0, IsWord);
    if e < |full| {
      LastPartIsWord(full[e + 1..]);
    }
  }

  lemma WordIsPlain(w: string)
    requires IsNonEmptyWord(w)
    ensures Parse(w) == Some(Plain(w)) && LastPart(w) == w && List.Listable(w)
  {
    assert w == "" + (w + "");
    assert Denotes(w, "", Plain(w), "");
    ParseComplete(w, "", Plain(w), "");
  }

  /** The name of a loaded attribute is itself an attribute, with that name. */
  lemma BareKeepsName(a: Attribute)
    requires Load(a.text, a.position) == Some(a)
    ensures Bare(a) == Some(NameAlone(a.name, a.position)) && List.Listable(a.name)
  {
    ParseSound(a.text);
    var before: string, after: string :| Denotes(a.text, before, Parse(a.text).value, after);
    match Parse(a.text).value
    case Plain(full) =>
      LastPartIsWord(full);
      WordIsPlain(a.name);
    case Aliased(_, _, alias) =>
      WordIsPlain(alias);
    case Star =>
      assert "*" == "" + ("*" + "");
      assert Denotes("*", "", Star, "");
      ParseComplete("*", "", Star, "");
  }

  /** What the name n, which the client asked for, selects. */
  function Selected(dataset: ByName, asked: ByName, n: string): Option<Attribute>
    requires n in asked
  {
    if "*" in dataset then Bare(asked[n])
    else if n in dataset then Some(dataset[n]) else None
  }

  /** x is chosen by the client's list: a dataset with a star lets every name through, bare; any other only the
      names it has, as it has them. */
  ghost predicate Chosen(dataset: ByName, asked: ByName, x: Attribute)
  {
    && x.name in asked
    && if "*" in dataset then x == NameAlone(x.name, asked[x.name].position)
       else x.name in dataset && x == dataset[x.name]
  }

  /** What the projection returns: what is chosen, or the whole dataset if that is nothing. */
  ghost predicate Projects(dataset: ByName, asked: ByName, x: Attribute)
  {
    if asked != map[] && ("*" in dataset || exists n :: n in asked && n in dataset) then Chosen(dataset, asked, x)
    else x.name in dataset && x == dataset[x.name]
  }

  lemma SelectedPositions(dataset: ByName, asked: ByName, n: string, k: string)
    requires WellKept(dataset) && WellKept(asked) && n in asked && k in asked && n != k
    requires Selected(dataset, asked, n).Some? && Selected(dataset, asked, k).Some?
    ensures Selected(dataset, asked, n).value.position != Selected(dataset, asked, k).value.position
  {
    BareKeepsName(asked[n]);
    BareKeepsName(asked[k]);
  }

  /** The loop over the names the client asked for. */
  method Select(dataset: ByName, asked: ByName) returns (attr: seq<Attribute>)
    requires WellKept(dataset) && WellKept(asked)
    ensures ByPosition(attr)
    ensures forall x :: x in attr <==> Chosen(dataset, asked, x)
  {
    hide WellKept, ByPosition, Selected, SelectedAmong, InsertByPosition;
    attr := [];
    var names := asked.Keys;
    NothingSelectedYet(dataset, asked);
    while names != {}
      invariant names <= asked.Keys && ByPosition(attr)
      invariant forall x :: x in attr <==> SelectedAmong(dataset, asked, asked.Keys - names, x)
      decreases |names|
    {
      var n :| n in names;
      var found := Selected(dataset, asked, n);
      if found.Some? {
        NewPosition(dataset, asked, asked.Keys - names, n, attr);
        InsertKeepsOrder(attr, found.value);
        attr := InsertByPosition(attr, found.value);
      }
      OneMoreName(dataset, asked, asked.Keys - names, n);
      assert asked.Keys - (names - {n}) == asked.Keys - names + {n};
      names := names - {n};
    }
    AllSelected(dataset, asked);
  }

  /** What is selected next has a position of its own. */
  lemma NewPosition(dataset: ByName, asked: ByName, done: set<string>, n: string, attr: seq<Attribute>)
    requires WellKept(dataset) && WellKept(asked) && n in asked && n !in done && Selected(dataset, asked, n).Some?
    requires forall x :: x in attr <==> SelectedAmong(dataset, asked, done, x)
    ensures forall x :: x in attr ==> x.position != Selected(dataset, asked, n).value.position
  {
    hide WellKept, Selected;
    forall x | x in attr
      ensures x.position != Selected(dataset, asked, n).value.position
    {
      var k :| k in asked && k in done && Selected(dataset, asked, k) == Some(x);
      SelectedPositions(dataset, asked, n, k);
    }
  }

  lemma NothingSelectedYet(dataset: ByName, asked: ByName)
    ensures ByPosition([]) && forall x :: !SelectedAmong(dataset, asked, asked.Keys - asked.Keys, x)
  {
  }

  lemma AllSelected(dataset: ByName, asked: ByName)
    requires WellKept(dataset) && WellKept(asked)
    ensures forall x :: SelectedAmong(dataset, asked, asked.Keys - {}, x) <==> Chosen(dataset, asked, x)
  {
    hide Bare;
    forall n | n in asked
      ensures Bare(asked[n]) == Some(NameAlone(n, asked[n].position))
    {
      BareKeepsName(asked[n]);
    }
    forall x | Chosen(dataset, asked, x)
      ensures SelectedAmong(dataset, asked, asked.Keys - {}, x)
    {
      assert Selected(dataset, asked, x.name) == Some(x);
    }
  }

  ghost predicate SelectedAmong(dataset: ByName, asked: ByName, names: set<string>, x: Attribute)
  {
    exists n :: n in asked && n in names && Selected(dataset, asked, n) == Some(x)
  }

  lemma OneMoreName(dataset: ByName, asked: ByName, names: set<string>, n: string)
    requires n in asked
    ensures forall x :: SelectedAmong(dataset, asked, names + {n}, x) <==>
              SelectedAmong(dataset, asked, names, x) || Selected(dataset, asked, n) == Some(x)
  {
  }

  /** The fallback: every attribute of the dataset. */
  method SelectAll(dataset: ByName) returns (attr: seq<Attribute>)
    requires WellKept(dataset)
    ensures ByPosition(attr)
    ensures forall x :: x in attr <==> x.name in dataset && x == dataset[x.name]
  {
    attr := [];
    var names := dataset.Keys;
    while names != {}
      invariant names <= dataset.Keys && ByPosition(attr)
      invariant forall x :: x in attr <==> x.name in dataset.Keys - names && x == dataset[x.name]
      decreases |names|
    {
      var n :| n in names;
      InsertKeepsOrder(attr, dataset[n]);
      attr := InsertByPosition(attr, dataset[n]);
      names := names - {n};
    }
  }

  lemma SomethingChosenIff(dataset: ByName, asked: ByName)
    requires WellKept(dataset)
    ensures (exists x :: Chosen(dataset, asked, x)) <==>
            asked != map[] && ("*" in dataset || exists n :: n in asked && n in dataset)
  {
    if n :| n in asked && "*" in dataset {
      assert Chosen(dataset, asked, NameAlone(n, asked[n].position));
    }
    if n :| n in asked && "*" !in dataset && n in dataset {
      assert Chosen(dataset, asked, dataset[n]);
    }
  }

  method AttrToSelect(dataset: ByName, onTheFly: string) returns (r: Option<seq<Attribute>>)
    requires WellKept(dataset)
    ensures r.Some? <==> SetOf(List.Attributes(onTheFly)).Some?
    ensures r.Some? ==>
              && ByPosition(r.value)
              && forall x :: x in r.value <==> Projects(dataset, SetOf(List.Attributes(onTheFly)).value, x)
  {
    var asked := LoadAttributes(onTheFly);
    if asked.None? {
      return None;
    }
    var attr := Select(dataset, asked.value);
    SomethingChosenIff(dataset, asked.value);
    if attr == [] {
      attr := SelectAll(dataset);
    } else {
      assert Chosen(dataset, asked.value, attr[0]);
    }
    return Some(attr);
  }

  /** A projection is never empty unless the dataset is, and without a star it is part of the dataset. */
  lemma ProjectionIsNonEmptySubset(dataset: ByName, asked: ByName, attr: seq<Attribute>)
    requires WellKept(dataset) && WellKept(asked) && dataset != map[]
    requires forall x :: x in attr <==> Projects(dataset, asked, x)
    ensures attr != []
    ensures "*" !in dataset ==> forall x :: x in attr ==> x.name in dataset && x == dataset[x.name]
  {
    SomethingChosenIff(dataset, asked);
    if y :| Chosen(dataset, asked, y) {
      assert y in attr;
    } else {
      var n :| n in dataset;
      assert Projects(dataset, asked, dataset[n]);
    }
  }

  // ----- the SELECT list

  function Texts(attr: seq<Attribute>): seq<string>
  {
    seq(|attr|, i requires 0 <= i < |attr| => attr[i].text)
  }

  /** The loop that joins the attributes. */
  method SelectList(attr: seq<Attribute>) returns (buf: string)
    ensures buf == List.Join(Texts(attr))
  {
    buf := "";
    if attr != [] {
      buf := attr[0].text;
      var i := 1;
      assert Texts(attr)[..1] == [attr[0].text];
      while i < |attr|
        invariant 1 <= i <= |attr|
        invariant buf == List.Join(Texts(attr)[..i])
      {
        assert Texts(attr)[..i + 1] == Texts(attr)[..i] + [attr[i].text];
        List.JoinOneMore(Texts(attr)[..i], attr[i].text);
        buf := buf + "," + attr[i].text;
        i := i + 1;
      }
      assert Texts(attr)[..i] == Texts(attr);
    }
  }

  function Names(attr: seq<Attribute>): seq<string>
  {
    seq(|attr|, i requires 0 <= i < |attr| => attr[i].name)
  }

  /** An attribute of a projection can be listed and loaded again, and its name is its own. */
  lemma ProjectedIsLoadable(dataset: ByName, asked: ByName, x: Attribute, y: Attribute)
    requires WellKept(dataset) && WellKept(asked)
    requires Projects(dataset, asked, x) && Projects(dataset, asked, y)
    ensures Load(x.text, x.position) == Some(x) && List.Listable(x.text)
    ensures x.name == y.name ==> x == y
  {
    if x.name in asked {
      BareKeepsName(asked[x.name]);
    }
  }

  /** Reading the SELECT list back gives the projection: its texts in order, and its names. */
  lemma ProjectionReloads(dataset: ByName, asked: ByName, attr: seq<Attribute>)
    requires WellKept(dataset) && WellKept(asked) && ByPosition(attr)
    requires forall x :: x in attr ==> Projects(dataset, asked, x)
    ensures List.Attributes(List.Join(Texts(attr))) == Texts(attr)
    ensures Holds(SetOf(List.Attributes(List.Join(Texts(attr)))), Texts(attr), Names(attr))
  {
    forall i, j | 0 <= i < |attr| && 0 <= j < |attr|
      ensures List.Listable(attr[i].text)
      ensures Load(attr[i].text, i).Some? && Load(attr[i].text, i).value.name == attr[i].name
      ensures i < j ==> attr[i].name != attr[j].name
    {
      ProjectedIsLoadable(dataset, asked, attr[i], attr[j]);
    }
    LoadJoin(Texts(attr), Names(attr));
    List.SplitJoin(Texts(attr));
  }

  /** The part of a constraint expression before its first '&': the attributes the client asks for. */
  function AttributePart(constraint: string): (a: string)
  {
    var split := RunEnd(constraint, 0, c => c != '&');
    constraint[..split]
  }

  /** What the client asks for ends where the first constraint begins. */
  lemma AttributePartIs(a: string, c: string)
    requires '&' !in a
    ensures AttributePart(a) == a && AttributePart(a + "&" + c) == a
  {
    var p := c => c != '&';
    var row := a + "&" + c;
    assert row[|a|] == '&' && row[..|a|] == a && a[..|a|] == a;
    assert forall i :: 0 <= i < |a| ==> row[i] == a[i] && a[i] in a;
    RunEndIs(a, 0, |a|, p);
    RunEndIs(row, 0, |a|, p);
  }

  /** The SELECT clause of a query. For a dataset with attributes it fails only when the client's own list
      does: the source's "unable to build a correct SELECT clause" cannot happen. */
  method BuildSelect(dataset: ByName, constraint: string) returns (r: Option<string>, ghost attr: seq<Attribute>)
    requires WellKept(dataset)
    ensures dataset != map[] ==> (r.Some? <==> SetOf(List.Attributes(AttributePart(constraint))).Some?)
    ensures r.Some? ==>
              && SetOf(List.Attributes(AttributePart(constraint))).Some?
              && r.value == "SELECT " + List.Join(Texts(attr)) && attr != []
              && ByPosition(attr)
              && (forall x :: x in attr <==> Projects(dataset, SetOf(List.Attributes(AttributePart(constraint))).value, x))
              && List.Attributes(List.Join(Texts(attr))) == Texts(attr)
  {
    attr := [];
    var attrs := AttrToSelect(dataset, AttributePart(constraint));
    if attrs.None? {
      return None, [];
    }
    attr := attrs.value;
    var buf := SelectList(attrs.value);
    ghost var asked := SetOf(List.Attributes(AttributePart(constraint))).value;
    LoadedIsWellKept(AttributePart(constraint), |List.Attributes(AttributePart(constraint))|, asked) by {
      var texts := List.Attributes(AttributePart(constraint));
      assert texts[..|texts|] == texts;
    }
    ProjectionReloads(dataset, asked, attr);
    if dataset != map[] {
      ProjectionIsNonEmptySubset(dataset, asked, attr);
      JoinIsNonEmpty(dataset, asked, attr);
    }
    if buf == "" {
      return None, attr;
    }
    return Some("SELECT " + buf), attr;
  }

  lemma JoinIsNonEmpty(dataset: ByName, asked: ByName, attr: seq<Attribute>)
    requires WellKept(dataset) && WellKept(asked) && attr != []
    requires forall x :: x in attr ==> Projects(dataset, asked, x)
    ensures List.Join(Texts(attr)) != ""
  {
    ProjectedIsLoadable(dataset, asked, attr[0], attr[0]);
    assert Texts(attr)[0] == attr[0].text;
  }
}
