/** Splitting a list of attributes (utils/StringMatch.cc, container/SQLQueryDefinitions.h).

    The source matches one attribute with a regular expression, erases the match from the text, and
    starts over. The expression is (^|,)[ ]*([A-z0-9\_\. ]+|[\*])[ ]*(,|$), group 2 being the attribute. */
module AttributeList {
  import opened Prelude
  import opened TextMatch

  /** [A-z0-9\_\. ] */
  predicate IsListChar(c: char) { IsWord(c) || c == '.' || c == ' ' }

  /** The match is row[so..eo], group 2 is row[gso..geo]. */
  datatype Match = Match(so: nat, gso: nat, geo: nat, eo: nat)

  // ----- the expression, as written

  /** One way to read the expression: the body starts at b, and the closing comma or the end is at x. */
  ghost predicate Reads(row: string, m: Match, b: nat, x: nat)
  {
    && m.so <= b <= m.gso < m.geo <= x <= m.eo <= |row|
    && (if b == m.so then m.so == 0 else b == m.so + 1 && row[m.so] == ',')
    && (forall k :: b <= k < m.gso ==> IsSpace(row[k]))
    && ((forall k :: m.gso <= k < m.geo ==> IsListChar(row[k])) || (m.geo == m.gso + 1 && row[m.gso] == '*'))
    && (forall k :: m.geo <= k < x ==> IsSpace(row[k]))
    && (if x < |row| then row[x] == ',' && m.eo == x + 1 else m.eo == x)
  }

  ghost predicate Matches(row: string, m: Match)
  {
    exists b: nat, x: nat :: Reads(row, m, b, x)
  }

  /** The order in which section 9.1 of IEEE Std 1003.1 (XBD) prefers matches: leftmost, then longest,
      then the longest run of leading blanks, then the longest group. */
  ghost predicate Preferred(m: Match, n: Match)
  {
    || m.so < n.so
    || (m.so == n.so && n.eo < m.eo)
    || (m.so == n.so && m.eo == n.eo && n.gso < m.gso)
    || (m.so == n.so && m.eo == n.eo && m.gso == n.gso && n.geo <= m.geo)
  }

  // ----- the matcher

  function MatchBody(row: string, so: nat, b: nat): (m: Option<Match>)
    requires so <= b <= |row|
    ensures m.Some? ==> m.value.so == so && b <= m.value.gso < m.value.geo <= m.value.eo <= |row|
  {
    var s := RunEnd(row, b, IsSpace);
    var star := s < |row| && row[s] == '*';
    var e := if star then RunEnd(row, s + 1, IsSpace) else RunEnd(row, b, IsListChar);
    if e == b || (e < |row| && row[e] != ',') then None
    else
      var eo := if e < |row| then e + 1 else e;
      if star then Some(Match(so, s, s + 1, eo))
      else Some(Match(so, if s < e then s else e - 1, e, eo))
  }

  function MatchAt(row: string, so: nat): (m: Option<Match>)
    requires so <= |row|
    ensures m.Some? ==> so == m.value.so <= m.value.gso < m.value.geo <= m.value.eo <= |row|
  {
    if so < |row| && row[so] == ',' then MatchBody(row, so, so + 1)
    else if so == 0 then MatchBody(row, 0, 0)
    else None
  }

  function Find(row: string, from: nat): (m: Option<Match>)
    requires from <= |row|
    ensures m.Some? ==> from <= m.value.so <= m.value.gso < m.value.geo <= m.value.eo <= |row|
    decreases |row| - from
  {
    var m := MatchAt(row, from);
    if m.Some? || from == |row| then m else Find(row, from + 1)
  }

  // ----- the matcher finds what the expression prefers

  lemma MatchBodySound(row: string, so: nat, b: nat)
    requires so <= b <= |row|
    requires if b == so then so == 0 else b == so + 1 && row[so] == ','
    requires MatchBody(row, so, b).Some?
    ensures Matches(row, MatchBody(row, so, b).value)
  {
    var m := MatchBody(row, so, b).value;
    var x := if m.eo == |row| && (m.eo == m.geo || row[m.eo - 1] != ',') then m.eo else m.eo - 1;
    assert Reads(row, m, b, x);
  }

  lemma MatchBodyComplete(row: string, n: Match, b: nat, x: nat)
    requires Reads(row, n, b, x)
    ensures MatchBody(row, n.so, b).Some?
    ensures Preferred(MatchBody(row, n.so, b).value, n)
  {
    var s := RunEnd(row, b, IsSpace);
    if row[n.gso] == '*' {
      RunEndIs(row, b, n.gso, IsSpace);
      RunEndIs(row, n.geo, x, IsSpace);
    } else {
      RunEndIs(row, b, x, IsListChar);
      assert s <= x;
      assert s < |row| ==> row[s] != '*';
    }
  }

  lemma {:induction false} FindIsPreferred(row: string, from: nat)
    requires from <= |row|
    ensures var m := Find(row, from);
            && (m.Some? ==> Matches(row, m.value))
            && forall n: Match :: Matches(row, n) && from <= n.so ==> m.Some? && Preferred(m.value, n)
    decreases |row| - from
  {
    var m := Find(row, from);
    var here := MatchAt(row, from);
    if here.Some? {
      MatchBodySound(row, from, if row[from..] != [] && row[from] == ',' then from + 1 else from);
    } else if from < |row| {
      FindIsPreferred(row, from + 1);
    }
    forall n: Match | Matches(row, n) && from <= n.so
      ensures m.Some? && Preferred(m.value, n)
    {
      if n.so == from {
        MatchAtComplete(row, n);
      }
    }
  }

  lemma MatchAtComplete(row: string, n: Match)
    requires Matches(row, n)
    ensures n.so <= |row| && MatchAt(row, n.so).Some? && Preferred(MatchAt(row, n.so).value, n)
  {
    var b: nat, x: nat :| Reads(row, n, b, x);
    MatchBodyComplete(row, n, b, x);
    if b == 0 {
      StartsNoComma(row, n, x);
    }
  }

  /** A body at the very start cannot begin with a comma. */
  lemma StartsNoComma(row: string, n: Match, x: nat)
    requires Reads(row, n, 0, x)
    ensures row[0] != ','
  {
    if n.gso > 0 {
      assert IsSpace(row[0]);
    }
  }

  // ----- match and erase

  /** What is left keeps its order: the characters before the match, then those after it. */
  function Erase(row: string, m: Match): (rest: string)
    requires m.so <= m.eo <= |row|
    ensures |rest| == |row| - (m.eo - m.so)
    ensures forall i :: 0 <= i < m.so ==> rest[i] == row[i]
    ensures forall i :: m.so <= i < |rest| ==> rest[i] == row[i + (m.eo - m.so)]
  {
    row[..m.so] + row[m.eo..]
  }

  /** The attributes of a list, in order. Every match is non-empty, so erasing terminates. */
  function Attributes(row: string): seq<string>
    decreases |row|
  {
    var m := Find(row, 0);
    if m.None? then [] else [row[m.value.gso..m.value.geo]] + Attributes(Erase(row, m.value))
  }

  /** The loop of `StringMatch::match` for the one group the callers ask for. */
  method MatchAll(text: string) returns (res: seq<string>, row: string)
    ensures res == Attributes(text)
    ensures Find(row, 0).None?
  {
    row := text;
    res := [];
    ghost var todo := Attributes(row);
    var m := Find(row, 0);
    while m.Some?
      invariant m == Find(row, 0)
      invariant todo == Attributes(row) && Attributes(text) == res + todo
      decreases |row|
    {
      var group := row[m.value.gso..m.value.geo];
      var rest := Erase(row, m.value);
      assert todo == [group] + Attributes(rest);
      Reassociate(res, group, Attributes(rest));
      row, todo := rest, Attributes(rest);
      res := res + [group];
      m := Find(row, 0);
    }
    assert todo == [];
  }

  lemma Reassociate(a: seq<string>, x: string, b: seq<string>)
    ensures a + ([x] + b) == a + [x] + b
  {
  }

  /** The text `MatchAll` leaves holds no attribute. */
  lemma NothingLeft(row: string)
    requires Find(row, 0).None?
    ensures forall m: Match :: !Matches(row, m)
  {
    FindIsPreferred(row, 0);
  }

  // ----- joining and splitting

  /** An attribute text that survives a list: the star, or list characters that do not start with a blank. */
  ghost predicate Listable(t: string)
  {
    t == "*" || (|t| > 0 && All(t, IsListChar) && t[0] != ' ')
  }

  function Join(texts: seq<string>): string
  {
    if |texts| == 0 then ""
    else if |texts| == 1 then texts[0]
    else texts[0] + "," + Join(texts[1..])
  }

  lemma {:induction false} JoinOneMore(texts: seq<string>, t: string)
    requires |texts| > 0
    ensures Join(texts + [t]) == Join(texts) + "," + t
  {
    if |texts| > 1 {
      assert (texts + [t])[1..] == texts[1..] + [t];
      JoinOneMore(texts[1..], t);
      assert texts[0] + "," + (Join(texts[1..]) + "," + t) == texts[0] + "," + Join(texts[1..]) + "," + t;
    }
  }

  lemma FirstAttribute(b: string, t: string, rest: string)
    requires b == "" || b == " "
    requires Listable(t) && (rest == "" || rest[0] == ',')
    ensures Find(b + (t + rest), 0) == Some(Match(0, |b|, |b| + |t|, |b| + |t| + if rest == "" then 0 else 1))
  {
    var row, n := b + (t + rest), |b| + |t|;
    assert row[|b|] == t[0];
    RunEndIs(row, 0, |b|, IsSpace);
    if t == "*" {
      RunEndIs(row, n, n, IsSpace);
    } else {
      RunEndIs(row, 0, n, IsListChar);
    }
  }

  lemma FirstOfList(b: string, t: string, rest: string, tail: string)
    requires b == "" || b == " "
    requires Listable(t) && (if rest == "" then tail == "" else rest == "," + tail)
    ensures Attributes(b + (t + rest)) == [t] + Attributes(tail)
  {
    hide Find, Listable;
    FirstAttribute(b, t, rest);
    var row := b + (t + rest);
    assert row[|b|..|b| + |t|] == t;
    assert Erase(row, Find(row, 0).value) == tail;
  }

  lemma JoinStarts(b: string, texts: seq<string>)
    requires (b == "" || b == " ") && |texts| > 0 && Listable(texts[0])
    ensures Attributes(b + Join(texts)) == [texts[0]] + Attributes(Join(texts[1..]))
  {
    hide Listable, Attributes;
    if |texts| == 1 {
      assert Join(texts) == texts[0] + "";
      FirstOfList(b, texts[0], "", "");
    } else {
      var tail := Join(texts[1..]);
      assert Join(texts) == texts[0] + ("," + tail);
      FirstOfList(b, texts[0], "," + tail, tail);
    }
  }

  /** Joining with commas and splitting again is the identity. */
  lemma {:induction false} SplitJoin(texts: seq<string>)
    requires forall t :: t in texts ==> Listable(t)
    ensures Attributes(Join(texts)) == texts
  {
    hide Listable, Find;
    if |texts| == 0 {
      NothingListed();
    } else {
      JoinStarts("", texts);
      assert "" + Join(texts) == Join(texts);
      SplitJoin(texts[1..]);
    }
  }

  lemma NothingListed()
    ensures Attributes("") == []
  {
    assert Find("", 0).None?;
  }

  /** A blank before the list makes no difference. */
  lemma SplitJoinAfterBlank(texts: seq<string>)
    requires |texts| > 0 && forall t :: t in texts ==> Listable(t)
    ensures Attributes(" " + Join(texts)) == texts
  {
    hide Listable, Attributes, Join;
    JoinStarts(" ", texts);
    SplitJoin(texts[1..]);
  }

  /** What a list yields is the star, list characters that do not start with a blank, or one blank. */
  lemma {:induction false} AttributesAreListable(row: string, i: nat)
    requires i < |Attributes(row)|
    ensures Listable(Attributes(row)[i]) || Attributes(row)[i] == " "
    decreases |row|
  {
    var m := Find(row, 0).value;
    if i > 0 {
      AttributesAreListable(Erase(row, m), i - 1);
    } else {
      GroupIsListable(row, 0);
    }
  }

  lemma {:induction false} GroupIsListable(row: string, from: nat)
    requires from <= |row| && Find(row, from).Some?
    ensures var m := Find(row, from).value; var t := row[m.gso..m.geo]; Listable(t) || t == " "
    decreases |row| - from
  {
    var here := MatchAt(row, from);
    if here.Some? {
      var m := here.value;
      var b := if from < |row| && row[from] == ',' then from + 1 else 0;
      var s := RunEnd(row, b, IsSpace);
      var t := row[m.gso..m.geo];
      assert t[0] == row[m.gso];
    } else {
      GroupIsListable(row, from + 1);
    }
  }
}
