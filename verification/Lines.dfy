/** Recognising the lines of a dataset file (container/SQLTextDefinitions.h, container/SQLTextContainer.cc:561-605).

    Each function below is one of the source's regular expressions, written out as the deterministic
    search it amounts to; where an expression leaves a choice, it is the one of section 9.1 of
    IEEE Std 1003.1 (XBD). */
module Lines {
  import opened Prelude
  import opened TextMatch
  import opened Variables

  /** [A-z,0-9,\',\", ,\,] */
  predicate IsDefChar(c: char) { IsVarChar(c) || c == '\'' || c == '\"' || c == ' ' }

  /** [A-z,0-9,\',\", ,\,,\*,\%,<,>,!,~] */
  predicate IsValChar(c: char) { IsDefChar(c) || c in "*%<>!~" }

  /** [ ]*(C+) at v, for a class C that has the blank: the blanks before the group are as many as leave it
      something to match. */
  function ClassValue(row: string, v: nat, p: char -> bool): (r: Option<(nat, nat)>)
    requires v <= |row|
    ensures r.Some? ==> v <= r.value.0 < r.value.1 <= |row| && forall i :: r.value.0 <= i < r.value.1 ==> p(row[i])
  {
    var s, e := RunEnd(row, v, IsSpace), RunEnd(row, v, p);
    if e == v then None else Some((if s < e then s else e - 1, e))
  }

  // ----- comments, tags, definitions

  /** ^[ ]*# */
  ghost predicate ReadsComment(row: string, i: nat)
  {
    i < |row| && row[i] == '#' && forall k :: 0 <= k < i ==> IsSpace(row[k])
  }

  predicate IsComment(row: string)
  {
    var i := RunEnd(row, 0, IsSpace);
    i < |row| && row[i] == '#'
  }

  lemma CommentIff(row: string)
    ensures IsComment(row) <==> exists i: nat :: ReadsComment(row, i)
  {
    if IsComment(row) {
      assert ReadsComment(row, RunEnd(row, 0, IsSpace));
    } else if i: nat :| ReadsComment(row, i) {
      RunEndIs(row, 0, i, IsSpace);
    }
  }

  /** ^[ ]*(\[[A-z,0-9,_]*\])[ ]*$, the tag being row[s..e] */
  ghost predicate ReadsTag(row: string, s: nat, e: nat)
  {
    && s + 2 <= e <= |row| && row[s] == '[' && row[e - 1] == ']'
    && (forall k :: 0 <= k < s ==> IsSpace(row[k]))
    && (forall k :: s < k < e - 1 ==> IsVarChar(row[k]))
    && (forall k :: e <= k < |row| ==> IsSpace(row[k]))
  }

  /** The class has the brackets, so the tag reaches to the last one. */
  function TagOf(row: string): Option<string>
  {
    var i := RunEnd(row, 0, IsSpace);
    var e := RunEnd(row, i, IsVarChar);
    if e < i + 2 || row[i] != '[' || row[e - 1] != ']' || RunEnd(row, e, IsSpace) != |row| then None
    else Some(row[i..e])
  }

  /** There is one way to read a tag line, if any. */
  lemma TagComplete(row: string, s: nat, e: nat)
    requires ReadsTag(row, s, e)
    ensures TagOf(row) == Some(row[s..e])
  {
    RunEndIs(row, 0, s, IsSpace);
    RunEndIs(row, s, e, IsVarChar);
    RunEndIs(row, e, |row|, IsSpace);
  }

  lemma TagSound(row: string)
    requires TagOf(row).Some?
    ensures exists s: nat, e: nat :: ReadsTag(row, s, e) && TagOf(row).value == row[s..e]
  {
    var i := RunEnd(row, 0, IsSpace);
    assert ReadsTag(row, i, RunEnd(row, i, IsVarChar));
  }

  /** A definition starts with its keyword at d; its name is row[ks..ke], its value row[vs..ve]. */
  datatype Def = Def(d: nat, ks: nat, ke: nat, vs: nat, ve: nat)

  predicate KeywordAt(row: string, d: nat)
  {
    d + 6 <= |row| && row[d..d + 6] == "define"
  }

  /** [ ]*define[ ]+(\$[A-z,0-9,_]*\$)[ ]*=[ ]*([A-z,0-9,\',\", ,\,]+), from so on and with the sign at q */
  ghost predicate ReadsDefinition(row: string, m: Def, so: nat, q: nat)
  {
    && so <= m.d && KeywordAt(row, m.d) && m.d + 6 < m.ks && IsRef(row, m.ks, m.ke)
    && m.ke <= q < m.vs < m.ve <= |row| && row[q] == '='
    && (forall k :: so <= k < m.d ==> IsSpace(row[k]))
    && (forall k :: m.d + 6 <= k < m.ks ==> IsSpace(row[k]))
    && (forall k :: m.ke <= k < q ==> IsSpace(row[k]))
    && (forall k :: q < k < m.vs ==> IsSpace(row[k]))
    && (forall k :: m.vs <= k < m.ve ==> IsDefChar(row[k]))
  }

  function DefinitionAt(row: string, d: nat): (r: Option<Def>)
    ensures r.Some? ==> r.value.d == d && r.value.ks + 2 <= r.value.ke < r.value.vs < r.value.ve <= |row|
  {
    if !KeywordAt(row, d) then None else
      var s := RunEnd(row, d + 6, IsSpace);
      if s == d + 6 || s == |row| || RefAt(row, s).None? then None else
        var eo := RefAt(row, s).value.eo;
        var q := RunEnd(row, eo, IsSpace);
        if q == |row| || row[q] != '=' then None else
          match ClassValue(row, q + 1, IsDefChar)
          case None => None
          case Some(v) => Some(Def(d, s, eo, v.0, v.1))
  }

  /** The leftmost definition: the expression is not tied to the start of the line. */
  function FindDefinition(row: string, d: nat): (r: Option<Def>)
    requires d <= |row|
    ensures r.Some? ==> d <= r.value.d && DefinitionAt(row, r.value.d) == r
    ensures forall e :: d <= e <= |row| && DefinitionAt(row, e).Some? ==> r.Some? && r.value.d <= e
    decreases |row| - d
  {
    var r := DefinitionAt(row, d);
    if r.Some? || d == |row| then r else FindDefinition(row, d + 1)
  }

  lemma DefinitionAtSound(row: string, d: nat)
    requires DefinitionAt(row, d).Some?
    ensures var m := DefinitionAt(row, d).value; exists q: nat :: ReadsDefinition(row, m, m.d, q)
  {
    var m := DefinitionAt(row, d).value;
    assert ReadsDefinition(row, m, d, RunEnd(row, m.ke, IsSpace));
  }

  /** Whenever the expression matches from so on, the search finds a definition: one further left, or the same
      with a value at least as preferred, that is, longer, or as long with no fewer blanks before it. */
  lemma DefinitionComplete(row: string, n: Def, so: nat, q: nat)
    requires ReadsDefinition(row, n, so, q)
    ensures var m := FindDefinition(row, 0);
            && m.Some?
            && (m.value.d < so
                || (m.value.d == n.d && m.value.ks == n.ks && m.value.ke == n.ke
                    && (n.ve < m.value.ve || (n.ve == m.value.ve && n.vs <= m.value.vs))))
  {
    DefinitionAtComplete(row, n, so, q);
    KeywordIsNoBlank(row, FindDefinition(row, 0).value.d);
  }

  lemma KeywordIsNoBlank(row: string, d: nat)
    requires KeywordAt(row, d)
    ensures !IsSpace(row[d])
  {
    assert row[d] == row[d..d + 6][0];
  }

  lemma DefinitionAtComplete(row: string, n: Def, so: nat, q: nat)
    requires ReadsDefinition(row, n, so, q)
    ensures var m := DefinitionAt(row, n.d);
            m.Some? && m.value.ks == n.ks && m.value.ke == n.ke
            && (n.ve < m.value.ve || (n.ve == m.value.ve && n.vs <= m.value.vs))
  {
    RunEndIs(row, n.d + 6, n.ks, IsSpace);
    RefEndIsUnique(row, n.ks, n.ke, RefAt(row, n.ks).value.eo);
    RunEndIs(row, n.ke, q, IsSpace);
    RunReaches(row, q + 1, n.ve, IsDefChar);
  }

  /** The name and the value of a definition. */
  function Definition(row: string): (r: Option<(string, string)>)
    ensures r.Some? ==> |r.value.0| >= 2 && r.value.0[0] == '$'
    ensures r.Some? ==> |r.value.1| > 0 && '$' !in r.value.1
  {
    match FindDefinition(row, 0)
    case None => None
    case Some(m) =>
      DefinitionAtSound(row, m.d);
      Some((row[m.ks..m.ke], row[m.vs..m.ve]))
  }

  datatype Line = Skipped | Define(name: string, value: string) | Tag(text: string) | Content

  /** The order in which the source tries its expressions. */
  function Classify(row: string): (l: Line)
    ensures l.Define? ==> |l.value| > 0 && '$' !in l.value && l.name != l.value
  {
    if row == "" || IsComment(row) then Skipped
    else match Definition(row)
      case Some(d) =>
        assert d.0[0] in d.0;
        Define(d.0, d.1)
      case None =>
        match TagOf(row)
        case Some(t) => Tag(t)
        case None => Content
  }

  /** What each kind of line is, in terms of the expressions alone and of the order in which they are tried. */
  lemma ClassifyIff(row: string)
    ensures Classify(row).Skipped? <==> row == "" || exists i: nat :: ReadsComment(row, i)
    ensures Classify(row).Define? <==> !Classify(row).Skipped? && exists m: Def, so: nat, q: nat :: ReadsDefinition(row, m, so, q)
    ensures Classify(row).Tag? <==>
            !Classify(row).Skipped? && !Classify(row).Define? && exists s: nat, e: nat :: ReadsTag(row, s, e)
    ensures forall s: nat, e: nat :: Classify(row).Tag? && ReadsTag(row, s, e) ==> Classify(row).text == row[s..e]
  {
    CommentIff(row);
    if Definition(row).Some? {
      DefinitionAtSound(row, FindDefinition(row, 0).value.d);
    } else {
      forall m: Def, so: nat, q: nat
        ensures !ReadsDefinition(row, m, so, q)
      {
        if ReadsDefinition(row, m, so, q) {
          DefinitionComplete(row, m, so, q);
        }
      }
    }
    if TagOf(row).Some? {
      TagSound(row);
    }
    forall s: nat, e: nat | ReadsTag(row, s, e)
      ensures TagOf(row) == Some(row[s..e])
    {
      TagComplete(row, s, e);
    }
  }

  // ----- key = value

  datatype Span = Span(ks: nat, ke: nat, vs: nat, ve: nat)

  predicate IsOperator(row: string, i: nat)
  {
    i + 2 <= |row| && row[i] in "=<>~!" && row[i + 1] == '='
  }

  ghost predicate IsKey(row: string, ks: nat, ke: nat)
    requires ks <= ke <= |row|
  {
    || (forall k :: ks <= k < ke ==> IsVarChar(row[k]))
    || (ke == ks + 2 && IsOperator(row, ks) && row[ks] != '=')
    || (ke == ks + 1 && row[ks] == '*')
  }

  ghost predicate IsValue(row: string, vs: nat, ve: nat)
    requires vs <= ve <= |row|
  {
    || (vs < ve && forall k :: vs <= k < ve ==> IsValChar(row[k]))
    || (ve == vs + 2 && IsOperator(row, vs))
  }

  /** ^[ ]*([A-z,0-9,_]*|!=|<=|>=|~=|\*)[ ]*=[ ]*(==|>=|<=|~=|!=|[A-z,0-9,\',\", ,\,,\*,\%,<,>,!,~]+) */
  ghost predicate Reads(row: string, m: Span, q: nat)
  {
    && m.ks <= m.ke <= q < m.vs <= m.ve <= |row|
    && (forall k :: 0 <= k < m.ks ==> IsSpace(row[k]))
    && IsKey(row, m.ks, m.ke)
    && (forall k :: m.ke <= k < q ==> IsSpace(row[k]))
    && row[q] == '='
    && (forall k :: q < k < m.vs ==> IsSpace(row[k]))
    && IsValue(row, m.vs, m.ve)
  }

  ghost predicate Preferred(m: Span, n: Span)
  {
    || n.ve < m.ve
    || (n.ve == m.ve && n.ks < m.ks)
    || (n.ve == m.ve && n.ks == m.ks && n.ke < m.ke)
    || (n.ve == m.ve && n.ks == m.ks && n.ke == m.ke && n.vs <= m.vs)
  }

  function FindValue(row: string, v: nat): (r: Option<(nat, nat)>)
    requires v <= |row|
    ensures r.Some? ==> v <= r.value.0 < r.value.1 <= |row|
  {
    var s, e := RunEnd(row, v, IsSpace), RunEnd(row, v, IsValChar);
    if IsOperator(row, s) then Some((s, s + 2))
    else if e == v then None
    else Some((if s < e then s else e - 1, e))
  }

  function KeyEnd(row: string, ks: nat): (ke: nat)
    requires ks <= |row|
    ensures ks <= ke <= |row|
  {
    if IsOperator(row, ks) && row[ks] != '=' then ks + 2
    else if ks < |row| && row[ks] == '*' then ks + 1
    else RunEnd(row, ks, IsVarChar)
  }

  function FindKeyValue(row: string): (m: Option<Span>)
    ensures m.Some? ==> m.value.ks <= m.value.ke < m.value.vs < m.value.ve <= |row|
  {
    var ks := RunEnd(row, 0, IsSpace);
    var ke := KeyEnd(row, ks);
    var q := RunEnd(row, ke, IsSpace);
    if q == |row| || row[q] != '=' then None else
      match FindValue(row, q + 1)
      case None => None
      case Some(v) => Some(Span(ks, ke, v.0, v.1))
  }

  /** The key and the value of a line, if it has the form of one. The value is never empty. */
  function KeyValue(row: string): (r: Option<(string, string)>)
    ensures r.Some? ==> r.value.1 != ""
  {
    match FindKeyValue(row)
    case None => None
    case Some(m) => Some((row[m.ks..m.ke], row[m.vs..m.ve]))
  }

  lemma FindValueComplete(row: string, q: nat, vs: nat, ve: nat)
    requires q < vs <= ve <= |row| && IsValue(row, vs, ve)
    requires forall k :: q < k < vs ==> IsSpace(row[k])
    ensures var r := FindValue(row, q + 1);
            r.Some? && (ve < r.value.1 || (ve == r.value.1 && vs <= r.value.0))
  {
    var s, e := RunEnd(row, q + 1, IsSpace), RunEnd(row, q + 1, IsValChar);
    if IsOperator(row, vs) && ve == vs + 2 {
      RunEndIs(row, q + 1, vs, IsSpace);
    } else {
      RunReaches(row, q + 1, ve, IsValChar);
    }
  }

  /** A run of class characters is no longer than the longest one. */
  lemma RunReaches(row: string, i: nat, n: nat, p: char -> bool)
    requires i <= n <= |row| && forall k :: i <= k < n ==> p(row[k])
    ensures n <= RunEnd(row, i, p)
  {
  }

  lemma KeyEndIs(row: string, m: Span, q: nat)
    requires Reads(row, m, q)
    ensures var ks := RunEnd(row, 0, IsSpace);
            m.ks <= ks && (m.ks == ks ==> m.ke == KeyEnd(row, ks)) && RunEnd(row, KeyEnd(row, ks), IsSpace) == q
  {
    var ks := RunEnd(row, 0, IsSpace);
    if m.ks == m.ke {
      RunEndIs(row, 0, q, IsSpace);
      RunEndIs(row, ks, ks, IsVarChar);
      RunEndIs(row, ks, ks, IsSpace);
    } else {
      assert !IsSpace(row[m.ks]);
      RunEndIs(row, 0, m.ks, IsSpace);
      assert row[m.ke] == '=' || IsSpace(row[m.ke]);
      if forall k :: m.ks <= k < m.ke ==> IsVarChar(row[k]) {
        RunEndIs(row, m.ks, m.ke, IsVarChar);
      }
      RunEndIs(row, m.ke, q, IsSpace);
    }
  }

  /** The search finds what the expression prefers, whenever the expression matches. */
  lemma FindKeyValueComplete(row: string, m: Span, q: nat)
    requires Reads(row, m, q)
    ensures FindKeyValue(row).Some? && Preferred(FindKeyValue(row).value, m)
  {
    KeyEndIs(row, m, q);
    FindValueComplete(row, q, m.vs, m.ve);
    var found := FindKeyValue(row).value;
    assert found.ks == RunEnd(row, 0, IsSpace);
    assert (found.vs, found.ve) == FindValue(row, q + 1).value;
  }

  lemma FindKeyValueSound(row: string)
    requires FindKeyValue(row).Some?
    ensures exists q: nat :: Reads(row, FindKeyValue(row).value, q)
  {
    var m := FindKeyValue(row).value;
    var q := RunEnd(row, m.ke, IsSpace);
    assert Reads(row, m, q);
  }
}
