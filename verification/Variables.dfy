/** Variable references in a dataset line and their substitution (container/SQLTextContainer.cc,
    container/SQLTextDefinitions.h). */
module Variables {
  import opened Prelude
  import opened TextMatch

  /** [A-z,0-9], which also holds the underscore and the comma. */
  predicate IsVarChar(c: char) { IsAz(c) || IsDigit(c) || c == ',' }

  /** Definitions hold non-empty values without '$' (`Lines.Classify`). */
  ghost predicate Clean(vars: map<string, string>)
  {
    forall k :: k in vars ==> |vars[k]| > 0 && '$' !in vars[k]
  }

  // ----- finding a reference: (\$[A-z,0-9]*\$)

  ghost predicate IsRef(row: string, so: nat, eo: nat)
  {
    && so + 2 <= eo <= |row|
    && row[so] == '$' == row[eo - 1]
    && forall k :: so < k < eo - 1 ==> IsVarChar(row[k])
  }

  datatype Ref = Ref(so: nat, eo: nat)

  function RefAt(row: string, so: nat): (r: Option<Ref>)
    requires so < |row|
    ensures r.Some? ==> r.value.so == so && IsRef(row, so, r.value.eo)
    ensures r.None? ==> forall eo: nat :: !IsRef(row, so, eo)
  {
    if row[so] != '$' then None else
      var e := RunEnd(row, so + 1, IsVarChar);
      assert forall eo: nat :: IsRef(row, so, eo) ==> eo == e + 1 by {
        forall eo: nat | IsRef(row, so, eo)
          ensures eo == e + 1
        {
          RunEndIs(row, so + 1, eo - 1, IsVarChar);
        }
      }
      if e < |row| && row[e] == '$' then Some(Ref(so, e + 1)) else None
  }

  /** The leftmost reference at or after `from`; a reference is the only one that starts where it does. */
  function FindRef(row: string, from: nat): (r: Option<Ref>)
    requires from <= |row|
    ensures r.Some? ==> from <= r.value.so && IsRef(row, r.value.so, r.value.eo)
    ensures forall so: nat, eo: nat :: from <= so && IsRef(row, so, eo) ==> r.Some? && r.value.so <= so
    decreases |row| - from
  {
    if from == |row| then None
    else if RefAt(row, from).Some? then RefAt(row, from)
    else FindRef(row, from + 1)
  }

  lemma RefEndIsUnique(row: string, so: nat, eo: nat, fo: nat)
    requires IsRef(row, so, eo) && IsRef(row, so, fo)
    ensures eo == fo
  {
    RunEndIs(row, so + 1, eo - 1, IsVarChar);
    RunEndIs(row, so + 1, fo - 1, IsVarChar);
  }

  lemma FirstRefIs(row: string, so: nat, eo: nat)
    requires IsRef(row, so, eo)
    requires forall s: nat, e: nat :: IsRef(row, s, e) ==> so <= s
    ensures FindRef(row, 0) == Some(Ref(so, eo))
  {
    var r := FindRef(row, 0).value;
    RefEndIsUnique(row, so, eo, r.eo);
  }

  // ----- one substitution

  /** What the source keeps of the text after a reference: no more characters than the reference has. */
  function Tail(row: string, r: Ref): string
    requires r.so <= r.eo <= |row|
  {
    var end := r.eo + (r.eo - r.so);
    row[r.eo..if end < |row| then end else |row|]
  }

  function Substitute(row: string, r: Ref, value: string): string
    requires r.so <= r.eo <= |row|
  {
    row[..r.so] + value + Tail(row, r)
  }

  /** The whole rest of the row survives a substitution exactly when it is no longer than the reference. */
  lemma TailSurvivesIff(row: string, r: Ref, value: string)
    requires r.so <= r.eo <= |row|
    ensures Substitute(row, r, value) == row[..r.so] + value + row[r.eo..] <==> |row| - r.eo <= r.eo - r.so
  {
    assert |Substitute(row, r, value)| == r.so + |value| + |Tail(row, r)|;
  }

  function Dollars(s: string): nat
  {
    if |s| == 0 then 0 else (if s[0] == '$' then 1 else 0) + Dollars(s[1..])
  }

  lemma {:induction false} DollarsAdd(a: string, b: string)
    ensures Dollars(a + b) == Dollars(a) + Dollars(b)
  {
    if |a| == 0 {
      assert a + b == b;
    } else {
      assert (a + b)[1..] == a[1..] + b;
      DollarsAdd(a[1..], b);
    }
  }

  lemma {:induction false} NoDollars(s: string)
    requires '$' !in s
    ensures Dollars(s) == 0
  {
    if |s| > 0 {
      assert s[0] in s;
      NoDollars(s[1..]);
    }
  }

  lemma DollarsOfThree(a: string, b: string, c: string)
    ensures Dollars(a + b + c) == Dollars(a) + Dollars(b) + Dollars(c)
  {
    DollarsAdd(a + b, c);
    DollarsAdd(a, b);
  }

  /** A reference has its two '$'. */
  lemma DollarsOfRef(row: string, so: nat, eo: nat)
    requires IsRef(row, so, eo)
    ensures Dollars(row[so..eo]) >= 2
  {
    var ref := row[so..eo];
    var inner := ref[1..|ref| - 1];
    assert ref == ['$'] + inner + ['$'];
    DollarsOfThree(['$'], inner, ['$']);
    assert Dollars(['$']) == 1;
  }

  /** The measure: a substitution removes the two '$' of the reference and brings none in. */
  lemma SubstituteLowersDollars(row: string, r: Ref, value: string)
    requires IsRef(row, r.so, r.eo) && '$' !in value
    ensures Dollars(Substitute(row, r, value)) + 2 <= Dollars(row)
  {
    var ref, rest, tail := row[r.so..r.eo], row[r.eo..], Tail(row, r);
    assert row == row[..r.so] + ref + rest;
    assert rest == tail + rest[|tail|..];
    DollarsOfThree(row[..r.so], ref, rest);
    DollarsAdd(tail, rest[|tail|..]);
    DollarsOfRef(row, r.so, r.eo);
    NoDollars(value);
    DollarsOfThree(row[..r.so], value, tail);
  }

  // ----- the loop, and what it means

  /** Substitutes the leftmost reference until none is left; an undefined variable is an error. */
  function Expand(vars: map<string, string>, row: string): (r: Option<string>)
    requires Clean(vars)
    decreases Dollars(row)
  {
    match FindRef(row, 0)
    case None => Some(row)
    case Some(ref) =>
      var name := row[ref.so..ref.eo];
      if name !in vars then None else
        SubstituteLowersDollars(row, ref, vars[name]);
        Expand(vars, Substitute(row, ref, vars[name]))
  }

  method ExpandVariables(vars: map<string, string>, line: string) returns (r: Option<string>)
    requires Clean(vars)
    ensures r == Expand(vars, line)
    ensures r.Some? ==> forall so: nat, eo: nat :: !IsRef(r.value, so, eo)
    ensures r.Some? <==> forall n :: n in Reached(line) ==> n in vars
  {
    ExpandFailsIff(vars, line);
    var row := line;
    var ref := FindRef(row, 0);
    while ref.Some?
      invariant ref == FindRef(row, 0)
      invariant Expand(vars, row) == Expand(vars, line)
      decreases Dollars(row)
    {
      var name := row[ref.value.so..ref.value.eo];
      if name !in vars {
        return None;
      }
      SubstituteLowersDollars(row, ref.value, vars[name]);
      row := Substitute(row, ref.value, vars[name]);
      ref := FindRef(row, 0);
    }
    return Some(row);
  }

  function Prepend(head: string, r: Option<string>): Option<string>
  {
    if r.Some? then Some(head + r.value) else None
  }

  lemma PrependTwice(a: string, b: string, r: Option<string>)
    ensures Prepend(a + b, r) == Prepend(a, Prepend(b, r))
  {
    if r.Some? {
      assert a + b + r.value == a + (b + r.value);
    }
  }

  /** The reference: one pass from left to right that never looks at what it has written. */
  function OnePass(vars: map<string, string>, row: string): Option<string>
    decreases |row|
  {
    match FindRef(row, 0)
    case None => Some(row)
    case Some(ref) =>
      var name := row[ref.so..ref.eo];
      if name !in vars then None else Prepend(row[..ref.so] + vars[name], OnePass(vars, Tail(row, ref)))
  }

  /** No reference can start in `pre`, whatever follows it. */
  ghost predicate Sealed(pre: string)
  {
    forall i :: 0 <= i < |pre| && pre[i] == '$' ==> exists j :: i < j < |pre| && pre[j] != '$' && !IsVarChar(pre[j])
                                                      && forall k :: i < k < j ==> IsVarChar(pre[k])
  }

  lemma NoRefInSealed(pre: string, rest: string, so: nat, eo: nat)
    requires Sealed(pre) && so < |pre|
    ensures !IsRef(pre + rest, so, eo)
  {
    var row := pre + rest;
    assert row[so] == pre[so];
    if pre[so] == '$' {
      var j :| so < j < |pre| && pre[j] != '$' && !IsVarChar(pre[j]) && forall k :: so < k < j ==> IsVarChar(pre[k]);
      assert row[j] == pre[j];
      if so < eo - 1 < j {
        assert row[eo - 1] == pre[eo - 1];
      }
    }
  }

  lemma ShiftRef(pre: string, rest: string, so: nat, eo: nat)
    ensures IsRef(rest, so, eo) <==> IsRef(pre + rest, |pre| + so, |pre| + eo)
  {
    var row := pre + rest;
    forall k | 0 <= k < |rest|
      ensures rest[k] == row[|pre| + k]
    {
    }
    if IsRef(row, |pre| + so, |pre| + eo) {
      forall k | so < k < eo - 1
        ensures IsVarChar(rest[k])
      {
        assert IsVarChar(row[|pre| + k]);
      }
    }
  }

  lemma SealedIsSkipped(pre: string, rest: string)
    requires Sealed(pre)
    ensures forall so: nat, eo: nat :: IsRef(pre + rest, so, eo) ==>
              so >= |pre| && eo >= |pre| && IsRef(rest, so - |pre|, eo - |pre|)
    ensures forall so: nat, eo: nat :: IsRef(rest, so, eo) ==> IsRef(pre + rest, |pre| + so, |pre| + eo)
  {
    forall so: nat, eo: nat | IsRef(pre + rest, so, eo)
      ensures so >= |pre| && eo >= |pre| && IsRef(rest, so - |pre|, eo - |pre|)
    {
      if so < |pre| {
        NoRefInSealed(pre, rest, so, eo);
      } else {
        ShiftRef(pre, rest, so - |pre|, eo - |pre|);
      }
    }
    forall so: nat, eo: nat | IsRef(rest, so, eo)
      ensures IsRef(pre + rest, |pre| + so, |pre| + eo)
    {
      ShiftRef(pre, rest, so, eo);
    }
  }

  lemma BeforeFirstRefIsSealed(row: string, r: Ref)
    requires FindRef(row, 0) == Some(r)
    ensures Sealed(row[..r.so])
  {
    var pre := row[..r.so];
    forall i | 0 <= i < |pre| && pre[i] == '$'
      ensures exists j :: i < j < |pre| && pre[j] != '$' && !IsVarChar(pre[j]) && forall k :: i < k < j ==> IsVarChar(pre[k])
    {
      var j := RunEnd(row, i + 1, IsVarChar);
      assert !IsRef(row, i, j + 1);
      assert j < r.so && pre[j] == row[j];
    }
  }

  lemma SealedAdds(a: string, b: string)
    requires Sealed(a) && Sealed(b)
    ensures Sealed(a + b)
  {
    var s := a + b;
    forall i | 0 <= i < |s| && s[i] == '$'
      ensures exists j :: i < j < |s| && s[j] != '$' && !IsVarChar(s[j]) && forall k :: i < k < j ==> IsVarChar(s[k])
    {
      if i < |a| {
        assert a[i] == '$';
        var j :| i < j < |a| && a[j] != '$' && !IsVarChar(a[j]) && forall k :: i < k < j ==> IsVarChar(a[k]);
        assert s[j] == a[j];
      } else {
        assert b[i - |a|] == '$';
        var j :| i - |a| < j < |b| && b[j] != '$' && !IsVarChar(b[j]) && forall k :: i - |a| < k < j ==> IsVarChar(b[k]);
        assert s[j + |a|] == b[j];
        assert forall k :: i < k < j + |a| ==> s[k] == b[k - |a|];
      }
    }
  }

  lemma FindBehindSealed(pre: string, rest: string)
    requires Sealed(pre)
    ensures FindRef(pre + rest, 0) ==
            match FindRef(rest, 0) case None => None case Some(r) => Some(Ref(|pre| + r.so, |pre| + r.eo))
  {
    SealedIsSkipped(pre, rest);
    match FindRef(rest, 0)
    case None =>
      assert FindRef(pre + rest, 0).None?;
    case Some(r) =>
      FirstRefIs(pre + rest, |pre| + r.so, |pre| + r.eo);
  }

  lemma SliceBehind(pre: string, rest: string, i: nat, j: nat)
    requires i <= j <= |rest|
    ensures (pre + rest)[|pre| + i..|pre| + j] == rest[i..j]
  {
  }

  lemma HeadBehind(pre: string, rest: string, i: nat)
    requires i <= |rest|
    ensures (pre + rest)[..|pre| + i] == pre + rest[..i]
  {
  }

  lemma Regroup(a: string, b: string, c: string, d: string)
    ensures a + b + c + d == a + (b + c) + d
  {
    assert a + b + c == a + (b + c);
  }

  lemma TailBehind(pre: string, rest: string, r: Ref)
    requires r.so <= r.eo <= |rest|
    ensures Tail(pre + rest, Ref(|pre| + r.so, |pre| + r.eo)) == Tail(rest, r)
  {
    var end := r.eo + (r.eo - r.so);
    SliceBehind(pre, rest, r.eo, if end < |rest| then end else |rest|);
  }

  lemma SubstituteBehind(pre: string, rest: string, r: Ref, value: string)
    requires r.so <= r.eo <= |rest|
    ensures var moved := Ref(|pre| + r.so, |pre| + r.eo);
            && (pre + rest)[moved.so..moved.eo] == rest[r.so..r.eo]
            && Substitute(pre + rest, moved, value) == pre + (rest[..r.so] + value) + Tail(rest, r)
  {
    SliceBehind(pre, rest, r.so, r.eo);
    HeadBehind(pre, rest, r.so);
    TailBehind(pre, rest, r);
    Regroup(pre, rest[..r.so], value, Tail(rest, r));
  }

  lemma {:induction false} ExpandBehindSealed(vars: map<string, string>, pre: string, rest: string)
    requires Clean(vars) && Sealed(pre)
    ensures Expand(vars, pre + rest) == Prepend(pre, OnePass(vars, rest))
    decreases |rest|
  {
    var row := pre + rest;
    FindBehindSealed(pre, rest);
    if FindRef(rest, 0).Some? {
      var ref := FindRef(rest, 0).value;
      var name := rest[ref.so..ref.eo];
      if name in vars {
        var head, tail := rest[..ref.so] + vars[name], Tail(rest, ref);
        SubstituteBehind(pre, rest, ref, vars[name]);
        BeforeFirstRefIsSealed(rest, ref);
        SealedAdds(rest[..ref.so], vars[name]);
        SealedAdds(pre, head);
        ExpandBehindSealed(vars, pre + head, tail);
        PrependTwice(pre, head, OnePass(vars, tail));
      } else {
        SubstituteBehind(pre, rest, ref, "");
      }
    }
  }

  /** The rescanning loop is the single pass: a substituted value is never read again. */
  lemma ExpandIsOnePass(vars: map<string, string>, row: string)
    requires Clean(vars)
    ensures Expand(vars, row) == OnePass(vars, row)
  {
    ExpandBehindSealed(vars, "", row);
    assert "" + row == row;
    match OnePass(vars, row) {
      case None =>
      case Some(t) => assert "" + t == t;
    }
  }

  // ----- what the documentation promises, and when it is true

  /** "Substitute $NAME$ everywhere on this row": every reference is replaced and the rest is kept. */
  function Everywhere(vars: map<string, string>, row: string): Option<string>
    decreases |row|
  {
    match FindRef(row, 0)
    case None => Some(row)
    case Some(ref) =>
      var name := row[ref.so..ref.eo];
      if name !in vars then None else Prepend(row[..ref.so] + vars[name], Everywhere(vars, row[ref.eo..]))
  }

  /** Every reference of the row is at least as long as all that follows it. */
  predicate TailsFit(row: string)
    decreases |row|
  {
    match FindRef(row, 0)
    case None => true
    case Some(ref) => |row| - ref.eo <= ref.eo - ref.so && TailsFit(row[ref.eo..])
  }

  /** A reference of a prefix is one of the whole. */
  lemma RefOfPrefix(row: string, n: nat, so: nat, eo: nat)
    requires n <= |row|
    ensures IsRef(row[..n], so, eo) <==> eo <= n && IsRef(row, so, eo)
  {
  }

  /** A reference that starts later ends later. */
  lemma RefsInOrder(row: string, so: nat, eo: nat, s: nat, e: nat)
    requires IsRef(row, so, eo) && IsRef(row, s, e) && so <= s
    ensures eo <= e
  {
    if so == s {
      RefEndIsUnique(row, so, eo, e);
    }
  }

  lemma SliceOfPrefix(s: string, n: nat, i: nat, j: nat)
    requires i <= j <= n <= |s|
    ensures s[..n][i..j] == s[i..j] == s[i..][..j - i]
  {
  }

  /** The first reference of a prefix is the first of the whole. */
  lemma FirstRefOfPrefix(row: string, n: nat, ref: Ref)
    requires n <= |row| && FindRef(row[..n], 0) == Some(ref)
    ensures FindRef(row, 0) == Some(ref)
  {
    RefOfPrefix(row, n, ref.so, ref.eo);
    forall s: nat, e: nat | IsRef(row, s, e)
      ensures ref.so <= s
    {
      if s < ref.so {
        RefsInOrder(row, s, e, ref.so, ref.eo);
        RefOfPrefix(row, n, s, e);
      }
    }
    FirstRefIs(row, ref.so, ref.eo);
  }

  lemma {:induction false} CutIsNoticed(vars: map<string, string>, row: string, n: nat)
    requires Clean(vars) && n < |row| && Everywhere(vars, row).Some?
    ensures OnePass(vars, row[..n]) != Everywhere(vars, row)
    decreases |row|
  {
    var cut := row[..n];
    match FindRef(cut, 0)
    case None =>
      CutOffRefIsNoticed(vars, row, n);
    case Some(ref) =>
      FirstRefOfPrefix(row, n, ref);
      var rest, k := row[ref.eo..], |Tail(cut, ref)|;
      SliceOfPrefix(row, n, ref.so, ref.eo);
      SliceOfPrefix(row, n, 0, ref.so);
      SliceOfPrefix(row, n, ref.eo, ref.eo + k);
      CutIsNoticed(vars, rest, k);
      HeadsCancel(row[..ref.so] + vars[row[ref.so..ref.eo]], OnePass(vars, rest[..k]), Everywhere(vars, rest).value);
  }

  /** Cutting into or before the first reference: a value never starts with '$'. */
  lemma CutOffRefIsNoticed(vars: map<string, string>, row: string, n: nat)
    requires Clean(vars) && n < |row| && Everywhere(vars, row).Some? && FindRef(row[..n], 0).None?
    ensures Some(row[..n]) != Everywhere(vars, row)
  {
    if FindRef(row, 0).Some? {
      var ref := FindRef(row, 0).value;
      var value, whole := vars[row[ref.so..ref.eo]], Everywhere(vars, row).value;
      RefOfPrefix(row, n, ref.so, ref.eo);
      assert whole == row[..ref.so] + value + Everywhere(vars, row[ref.eo..]).value;
      assert whole[ref.so] == value[0] && value[0] in value;
    }
  }

  lemma HeadsCancel(head: string, a: Option<string>, b: string)
    requires a != Some(b)
    ensures a.Some? ==> head + a.value != head + b
  {
    if a.Some? {
      assert (head + a.value)[|head|..] == a.value;
      assert (head + b)[|head|..] == b;
    }
  }

  /** The variables the row refers to, from left to right. */
  function Mentioned(row: string): seq<string>
    decreases |row|
  {
    match FindRef(row, 0)
    case None => []
    case Some(ref) => [row[ref.so..ref.eo]] + Mentioned(row[ref.eo..])
  }

  /** The variables the loop gets to: the cut may take others away before they are looked up. */
  function Reached(row: string): seq<string>
    decreases |row|
  {
    match FindRef(row, 0)
    case None => []
    case Some(ref) => [row[ref.so..ref.eo]] + Reached(Tail(row, ref))
  }

  /** An undefined variable is an error exactly when the loop gets to it. */
  lemma ExpandFailsIff(vars: map<string, string>, row: string)
    requires Clean(vars)
    ensures Expand(vars, row).Some? <==> forall n :: n in Reached(row) ==> n in vars
  {
    ExpandIsOnePass(vars, row);
    OnePassFailsIff(vars, row);
  }

  lemma {:induction false} OnePassFailsIff(vars: map<string, string>, row: string)
    ensures OnePass(vars, row).Some? <==> forall n :: n in Reached(row) ==> n in vars
    decreases |row|
  {
    match FindRef(row, 0)
    case None =>
    case Some(ref) =>
      OnePassFailsIff(vars, Tail(row, ref));
      assert Reached(row)[0] in Reached(row);
  }

  lemma {:induction false} EverywhereFailsIff(vars: map<string, string>, row: string)
    ensures Everywhere(vars, row).Some? <==> forall n :: n in Mentioned(row) ==> n in vars
    decreases |row|
  {
    match FindRef(row, 0)
    case None =>
    case Some(ref) =>
      EverywhereFailsIff(vars, row[ref.eo..]);
      assert Mentioned(row)[0] in Mentioned(row);
  }

  /** A prefix of a row refers to the first of the row's variables. */
  lemma {:induction false} MentionedOfPrefix(row: string, n: nat)
    requires n <= |row|
    ensures Mentioned(row[..n]) <= Mentioned(row)
    decreases |row|
  {
    var cut := row[..n];
    var r := FindRef(cut, 0);
    if r.Some? {
      RefOfPrefix(row, n, r.value.so, r.value.eo);
      FirstRefOfPrefix(row, n, r.value);
      SliceOfPrefix(row, n, r.value.so, r.value.eo);
      SliceOfPrefix(row, n, r.value.eo, n);
      MentionedOfPrefix(row[r.value.eo..], n - r.value.eo);
    }
  }

  /** The loop gets to the first variables of the row, and to all of them when every tail fits. */
  lemma {:induction false} ReachedIsPrefix(row: string)
    ensures Reached(row) <= Mentioned(row)
    ensures TailsFit(row) ==> Reached(row) == Mentioned(row)
    decreases |row|
  {
    match FindRef(row, 0)
    case None =>
    case Some(ref) =>
      var rest, tail := row[ref.eo..], Tail(row, ref);
      assert tail == rest[..|tail|];
      ReachedIsPrefix(tail);
      MentionedOfPrefix(rest, |tail|);
      if TailsFit(row) {
        assert tail == rest;
      }
  }

  /** The substitution does what is promised, undefined variables included, exactly when every tail fits or an
      undefined variable is met before it is cut away. */
  lemma EverywhereIffTailsFit(vars: map<string, string>, row: string)
    requires Clean(vars)
    ensures Expand(vars, row) == Everywhere(vars, row) <==> TailsFit(row) || exists n :: n in Reached(row) && n !in vars
  {
    ExpandIsOnePass(vars, row);
    OnePassFailsIff(vars, row);
    EverywhereFailsIff(vars, row);
    ReachedIsPrefix(row);
    assert forall n :: n in Reached(row) ==> n in Mentioned(row);
    if Everywhere(vars, row).Some? {
      OnePassIffTailsFit(vars, row);
    }
  }

  /** Whatever is defined, every undefined variable of a row is reported exactly when the loop gets to every
      variable the row refers to. */
  lemma UndefinedIsReportedIff(row: string)
    ensures (forall vars: map<string, string> :: Clean(vars) && (exists n :: n in Mentioned(row) && n !in vars) ==>
               Expand(vars, row).None?)
            <==> forall n :: n in Mentioned(row) ==> n in Reached(row)
  {
    forall vars: map<string, string> | Clean(vars)
      ensures Expand(vars, row).Some? <==> forall n :: n in Reached(row) ==> n in vars
    {
      ExpandFailsIff(vars, row);
    }
    var enough: map<string, string> := map n | n in Reached(row) :: "x";
    assert Clean(enough);
    assert Expand(enough, row).Some?;
  }

  lemma {:induction false} OnePassIffTailsFit(vars: map<string, string>, row: string)
    requires Clean(vars) && Everywhere(vars, row).Some?
    ensures OnePass(vars, row) == Everywhere(vars, row) <==> TailsFit(row)
    decreases |row|
  {
    match FindRef(row, 0)
    case None =>
    case Some(ref) =>
      var rest := row[ref.eo..];
      var head := row[..ref.so] + vars[row[ref.so..ref.eo]];
      if |rest| <= ref.eo - ref.so {
        assert Tail(row, ref) == rest;
        OnePassIffTailsFit(vars, rest);
        if OnePass(vars, rest) != Everywhere(vars, rest) {
          HeadsCancel(head, OnePass(vars, rest), Everywhere(vars, rest).value);
        }
      } else {
        var k := ref.eo - ref.so;
        assert Tail(row, ref) == rest[..k];
        CutIsNoticed(vars, rest, k);
        HeadsCancel(head, OnePass(vars, rest[..k]), Everywhere(vars, rest).value);
      }
  }

  /** A row that loses its end: only three characters are kept behind "$A$". */
  lemma TailIsLost(vars: map<string, string>, row: string)
    requires vars == map["$A$" := "x"] && row == "$A$.name"
    ensures Expand(vars, row) == Some("x.na")
    ensures Everywhere(vars, row) == Some("x.name")
  {
    var ref := Ref(0, 3);
    assert IsRef(row, 0, 3);
    FirstRefIs(row, 0, 3);
    assert row[0..3] == "$A$";
    NoRefWithoutDollar(row[3..]);
    NoRefWithoutDollar(Tail(row, ref));
    assert OnePass(vars, Tail(row, ref)) == Some(Tail(row, ref));
    assert Everywhere(vars, row[3..]) == Some(row[3..]);
    assert row[..0] + vars["$A$"] + Tail(row, ref) == "x.na";
    assert row[..0] + vars["$A$"] + row[3..] == "x.name";
    ExpandIsOnePass(vars, row);
  }

  /** A row whose undefined variable goes unnoticed: it is cut away with the end of the row. */
  lemma UndefinedIsLost(vars: map<string, string>, row: string)
    requires vars == map["$A$" := "x"] && row == "$A$.na$B$"
    ensures "$B$" in Mentioned(row) && "$B$" !in vars
    ensures Expand(vars, row) == Some("x.na") && Everywhere(vars, row) == None
  {
    var ref, rest := Ref(0, 3), row[3..];
    assert IsRef(row, 0, 3);
    FirstRefIs(row, 0, 3);
    assert row[0..3] == "$A$" && rest == ".na$B$" && Tail(row, ref) == ".na";
    NoRefWithoutDollar(".na");
    assert row[..0] + vars["$A$"] + ".na" == "x.na";
    ExpandIsOnePass(vars, row);
    assert IsRef(rest, 3, 6);
    assert forall s: nat, e: nat :: IsRef(rest, s, e) ==> rest[s] == '$';
    FirstRefIs(rest, 3, 6);
    assert rest[3..6] == "$B$";
    assert Mentioned(rest)[0] == "$B$";
    assert Mentioned(row)[1] == "$B$";
    EverywhereFailsIff(vars, row);
  }

  lemma NoRefWithoutDollar(row: string)
    requires '$' !in row
    ensures FindRef(row, 0).None?
  {
  }
}
