/** One attribute of a projection and how its text is taken apart (container/SQLAttribute.h, utils/StringMatch.h). */
module Attribute {
  import opened Prelude
  import opened TextMatch

  /** `name` is the column or its alias, `fullName` the dotted name of the column, `text` the whole. */
  datatype Attribute = Attribute(name: string, fullName: string, text: string, position: nat)

  // ----- the expression

  /** ([A-z0-9\_]+\.)*([A-z0-9\_]+) */
  predicate IsDotted(s: string)
  {
    var e := RunEnd(s, 0, IsWord);
    e > 0 && (e == |s| || (s[e] == '.' && IsDotted(s[e + 1..])))
  }

  /** The last part of a dotted name: what the innermost group of the expression holds. */
  function LastPart(s: string): string
  {
    var e := RunEnd(s, 0, IsWord);
    if e < |s| then LastPart(s[e + 1..]) else s
  }

  /** The part before the last one, with its dot: what the repeated group holds after its last turn. */
  function LastPrefix(s: string): Option<string>
  {
    var e := RunEnd(s, 0, IsWord);
    if e == |s| then None else
      match LastPrefix(s[e + 1..])
      case None => Some(s[..e + 1])
      case Some(p) => Some(p)
  }

  predicate IsNonEmptyWord(s: string)
  {
    |s| > 0 && RunEnd(s, 0, IsWord) == |s|
  }

  predicate Blank(s: string)
  {
    RunEnd(s, 0, IsSpace) == |s|
  }

  /** ([ ]+| [Aa][Ss] ) */
  predicate IsSeparator(s: string)
  {
    (|s| > 0 && Blank(s)) || (|s| == 4 && s[0] == s[3] == ' ' && s[1] in "Aa" && s[2] in "Ss")
  }

  /** The three alternatives of the expression, each over the whole text. The last one also takes a plain word,
      but then section 9.1 of IEEE Std 1003.1 (XBD) fills the groups of the first. */
  datatype Parts =
    | Plain(full: string)
    | Aliased(full: string, separator: string, alias: string)
    | Star

  ghost predicate Denotes(text: string, before: string, parts: Parts, after: string)
  {
    && Blank(before) && Blank(after)
    && match parts
       case Plain(full) => IsDotted(full) && text == before + (full + after)
       case Aliased(full, sep, alias) =>
         IsDotted(full) && IsSeparator(sep) && IsNonEmptyWord(alias) && text == before + (full + (sep + (alias + after)))
       case Star => text == before + ("*" + after)
  }

  // ----- the matcher

  predicate IsNameChar(c: char) { IsWord(c) || c == '.' }

  function TakeAlias(full: string, separator: string, rest: string): Option<Parts>
  {
    var w := RunEnd(rest, 0, IsWord);
    if w > 0 && Blank(rest[w..]) then Some(Aliased(full, separator, rest[..w])) else None
  }

  function ParseAliased(full: string, rest: string): Option<Parts>
  {
    var n := RunEnd(rest, 0, IsSpace);
    var plain := TakeAlias(full, rest[..n], rest[n..]);
    if n == 0 then None
    else if plain.Some? then plain
    else if |rest| >= 4 && IsSeparator(rest[..4]) then TakeAlias(full, rest[..4], rest[4..])
    else None
  }

  function Parse(text: string): Option<Parts>
  {
    var a := RunEnd(text, 0, IsSpace);
    var e := RunEnd(text, a, IsNameChar);
    var full, rest := text[a..e], text[e..];
    if a < |text| && text[a] == '*' then (if Blank(text[a + 1..]) then Some(Star) else None)
    else if !IsDotted(full) then None
    else if Blank(rest) then Some(Plain(full))
    else ParseAliased(full, rest)
  }

  lemma {:induction false} DottedChars(s: string)
    requires IsDotted(s)
    ensures All(s, IsNameChar) && |s| > 0 && IsWord(s[0])
  {
    var e := RunEnd(s, 0, IsWord);
    if e < |s| {
      DottedChars(s[e + 1..]);
      assert s == s[..e] + [s[e]] + s[e + 1..];
    }
  }

  lemma Pasted(a: string, b: string, c: string)
    ensures var s := a + (b + c);
            && s[|a|..|a| + |b|] == b && s[|a| + |b|..] == c
            && (forall k :: 0 <= k < |a| ==> s[k] == a[k])
            && (forall k :: |a| <= k < |a| + |b| ==> s[k] == b[k - |a|])
            && (c != "" ==> s[|a| + |b|] == c[0])
  {
  }

  /** Where the name of a text starts and ends, for any way to read the text. */
  lemma {:induction false} NameSpan(text: string, before: string, full: string, rest: string)
    requires Blank(before) && IsDotted(full) && text == before + (full + rest)
    requires rest == "" || rest[0] == ' '
    ensures RunEnd(text, 0, IsSpace) == |before|
    ensures RunEnd(text, |before|, IsNameChar) == |before| + |full|
    ensures text[|before|..|before| + |full|] == full && text[|before| + |full|..] == rest
    ensures |before| < |text| && text[|before|] != '*'
  {
    DottedChars(full);
    Pasted(before, full, rest);
    RunEndIs(text, 0, |before|, IsSpace);
    RunEndIs(text, |before|, |before| + |full|, IsNameChar);
  }

  lemma TakeAliasComplete(full: string, sep: string, alias: string, after: string)
    requires IsNonEmptyWord(alias) && Blank(after)
    ensures TakeAlias(full, sep, alias + after) == Some(Aliased(full, sep, alias))
  {
    var rest := alias + after;
    if after != "" {
      assert rest[|alias|] == after[0];
    }
    RunEndIs(rest, 0, |alias|, IsWord);
    assert rest[|alias|..] == after;
  }

  lemma TakeAliasSound(full: string, sep: string, rest: string)
    requires TakeAlias(full, sep, rest).Some?
    ensures exists alias, after ::
              && TakeAlias(full, sep, rest).value == Aliased(full, sep, alias)
              && IsNonEmptyWord(alias) && Blank(after) && rest == alias + after
  {
    var w := RunEnd(rest, 0, IsWord);
    RunEndIs(rest[..w], 0, w, IsWord);
    assert rest == rest[..w] + rest[w..];
  }

  lemma ParseAliasedSound(full: string, rest: string)
    requires ParseAliased(full, rest).Some?
    ensures exists sep, alias, after ::
              && ParseAliased(full, rest).value == Aliased(full, sep, alias)
              && IsSeparator(sep) && IsNonEmptyWord(alias) && Blank(after) && rest == sep + (alias + after)
  {
    var n := RunEnd(rest, 0, IsSpace);
    RunEndIs(rest[..n], 0, n, IsSpace);
    var m := if TakeAlias(full, rest[..n], rest[n..]).Some? then n else 4;
    var sep, tail := rest[..m], rest[m..];
    TakeAliasSound(full, sep, tail);
    var alias, after :|
      && TakeAlias(full, sep, tail).value == Aliased(full, sep, alias)
      && IsNonEmptyWord(alias) && Blank(after) && tail == alias + after;
    assert rest == sep + tail;
  }

  lemma AliasedIsDenoted(text: string, before: string, full: string, rest: string)
    requires Blank(before) && IsDotted(full) && text == before + (full + rest)
    requires ParseAliased(full, rest).Some?
    ensures exists after: string :: Denotes(text, before, ParseAliased(full, rest).value, after)
  {
    ParseAliasedSound(full, rest);
    var sep, alias, after :|
      && ParseAliased(full, rest).value == Aliased(full, sep, alias)
      && IsSeparator(sep) && IsNonEmptyWord(alias) && Blank(after) && rest == sep + (alias + after);
    assert Denotes(text, before, Aliased(full, sep, alias), after);
  }

  lemma StarIsDenoted(text: string, a: nat)
    requires a < |text| && text[a] == '*' && Blank(text[..a]) && Blank(text[a + 1..])
    ensures Denotes(text, text[..a], Star, text[a + 1..])
  {
    assert text[..a] + ("*" + text[a + 1..]) == text;
  }

  lemma PlainIsDenoted(text: string, before: string, full: string, rest: string)
    requires Blank(before) && IsDotted(full) && Blank(rest) && text == before + (full + rest)
    ensures Denotes(text, before, Plain(full), rest)
  {
  }

  lemma LeadingBlanks(text: string)
    ensures Blank(text[..RunEnd(text, 0, IsSpace)])
  {
    var a := RunEnd(text, 0, IsSpace);
    RunEndIs(text[..a], 0, a, IsSpace);
  }

  /** The matcher accepts only texts the expression describes, with parts it describes. */
  lemma ParseSound(text: string)
    requires Parse(text).Some?
    ensures exists before: string, after: string :: Denotes(text, before, Parse(text).value, after)
  {
    hide ParseAliased, Denotes, IsDotted, Blank;
    var a := RunEnd(text, 0, IsSpace);
    var e := RunEnd(text, a, IsNameChar);
    var before, full, rest := text[..a], text[a..e], text[e..];
    LeadingBlanks(text);
    Cut(text, a, e);
    if a < |text| && text[a] == '*' {
      StarIsDenoted(text, a);
    } else if Blank(rest) {
      PlainIsDenoted(text, before, full, rest);
    } else {
      AliasedIsDenoted(text, before, full, rest);
    }
  }

  lemma Cut(s: string, a: nat, e: nat)
    requires a <= e <= |s|
    ensures s == s[..a] + (s[a..e] + s[e..])
  {
  }

  lemma AliasComplete(full: string, sep: string, alias: string, after: string)
    requires IsSeparator(sep) && IsNonEmptyWord(alias) && Blank(after)
    ensures !Blank(sep + (alias + after))
    ensures ParseAliased(full, sep + (alias + after)) == Some(Aliased(full, sep, alias))
  {
    var rest := sep + (alias + after);
    assert rest[|sep|] == alias[0];
    assert rest[|sep|..] == alias + after;
    assert rest[..|sep|] == sep;
    TakeAliasComplete(full, sep, alias, after);
    if Blank(sep) {
      RunEndIs(rest, 0, |sep|, IsSpace);
    } else {
      RunEndIs(rest, 0, 1, IsSpace);
      AsIsNotTheAlias(full, sep, alias, after);
    }
  }

  lemma ParseNamed(text: string, before: string, full: string, rest: string)
    requires Blank(before) && IsDotted(full) && text == before + (full + rest)
    requires rest == "" || rest[0] == ' '
    ensures Parse(text) == if Blank(rest) then Some(Plain(full)) else ParseAliased(full, rest)
  {
    NameSpan(text, before, full, rest);
  }

  lemma ParseStar(text: string, before: string, after: string)
    requires Blank(before) && Blank(after) && text == before + ("*" + after)
    ensures Parse(text) == Some(Star)
  {
    assert text[|before|] == '*';
    RunEndIs(text, 0, |before|, IsSpace);
    assert text[|before| + 1..] == after;
  }

  /** Every text the expression describes is accepted, with those parts: the expression is unambiguous. */
  lemma ParseComplete(text: string, before: string, parts: Parts, after: string)
    requires Denotes(text, before, parts, after)
    ensures Parse(text) == Some(parts)
  {
    match parts
    case Star =>
      ParseStar(text, before, after);
    case Plain(full) =>
      BlankStart(after);
      ParseNamed(text, before, full, after);
    case Aliased(full, sep, alias) =>
      AliasComplete(full, sep, alias, after);
      BlankStart(sep);
      ParseNamed(text, before, full, sep + (alias + after));
  }

  lemma BlankStart(s: string)
    requires Blank(s) || IsSeparator(s)
    ensures s == "" || s[0] == ' '
  {
  }

  /** After "a as b", the blank before "as" is not itself the separator. */
  lemma AsIsNotTheAlias(full: string, sep: string, alias: string, after: string)
    requires IsSeparator(sep) && !Blank(sep) && IsNonEmptyWord(alias)
    ensures var rest := sep + (alias + after); TakeAlias(full, rest[..1], rest[1..]).None?
  {
    var rest := (sep + (alias + after))[1..];
    RunEndIs(rest, 0, 2, IsWord);
    assert rest[2..][1] == alias[0];
  }

  // ----- which groups were found, and their compact storage

  const GROUPS: nat := 10

  /** The groups of the expression by number, the whole match (0) aside; a group that took no part in the match
      is absent. */
  function Groups(parts: Parts): (g: seq<Option<string>>)
    ensures |g| == GROUPS
  {
    match parts
    case Plain(full) =>
      [None, Some(full), LastPrefix(full), Some(LastPart(full)), None, None, None, None, None, None]
    case Aliased(full, sep, alias) =>
      [None, None, None, None, Some(full), LastPrefix(full), Some(LastPart(full)), Some(sep), Some(alias), None]
    case Star =>
      [None, None, None, None, None, None, None, None, None, Some("*")]
  }

  /** The groups the source asks for: 1 and 4 for the full name, 3, 8 and 9 for the name. */
  const WANTED: seq<bool> := [false, true, false, true, true, false, false, false, true, true]

  /** Which groups are stored, and their texts without gaps. */
  datatype Matched = Matched(found: seq<bool>, texts: seq<string>)

  /** The first set bit at or after i. */
  function GetNext(bits: seq<bool>, i: nat): (n: nat)
    requires i <= |bits|
    ensures i <= n <= |bits|
    ensures forall k :: i <= k < n ==> !bits[k]
    ensures n < |bits| ==> bits[n]
    decreases |bits| - i
  {
    if i < |bits| && !bits[i] then GetNext(bits, i + 1) else i
  }

  /** The number of set bits below i. */
  function Rank(bits: seq<bool>, i: nat): nat
    requires i <= |bits|
  {
    if i == 0 then 0 else Rank(bits, i - 1) + if bits[i - 1] then 1 else 0
  }

  lemma {:induction false} RankOverGap(bits: seq<bool>, i: nat, n: nat)
    requires i <= n <= |bits| && forall k :: i <= k < n ==> !bits[k]
    ensures Rank(bits, n) == Rank(bits, i)
  {
    if i < n {
      RankOverGap(bits, i, n - 1);
    }
  }

  /** The texts are indexed by rank: group g, if found, is at the number of found groups below it. */
  ghost predicate RankIndexed(groups: seq<Option<string>>, m: Matched, n: nat)
    requires n <= |groups|
  {
    && |m.found| == |groups|
    && (n <= |m.found| ==> |m.texts| == Rank(m.found, n))
    && forall g :: 0 <= g < n && m.found[g] ==>
         groups[g].Some? && Rank(m.found, g) < |m.texts| && m.texts[Rank(m.found, g)] == groups[g].value
  }

  /** The first pass: which of the wanted groups were found. */
  method FoundGroups(groups: seq<Option<string>>, wanted: seq<bool>) returns (found: seq<bool>)
    requires |wanted| == |groups|
    ensures |found| == |groups|
    ensures forall g :: 0 <= g < |groups| ==> (found[g] <==> wanted[g] && groups[g].Some?)
  {
    found := seq(|groups|, _ => false);
    var i := GetNext(wanted, 0);
    while i < |wanted|
      invariant i <= |wanted| && |found| == |groups|
      invariant i < |wanted| ==> wanted[i]
      invariant forall g :: 0 <= g < i ==> (found[g] <==> wanted[g] && groups[g].Some?)
      invariant forall g :: i <= g < |found| ==> !found[g]
      decreases |wanted| - i
    {
      if groups[i].Some? {
        found := found[i := true];
      }
      i := GetNext(wanted, i + 1);
    }
  }

  /** The two passes of the source: note which wanted groups were found, then store their texts. */
  method Compact(groups: seq<Option<string>>, wanted: seq<bool>) returns (m: Matched)
    requires |wanted| == |groups|
    ensures RankIndexed(groups, m, |groups|)
    ensures forall g :: 0 <= g < |groups| ==> (m.found[g] <==> wanted[g] && groups[g].Some?)
  {
    var found := FoundGroups(groups, wanted);
    var texts := [];
    var i := GetNext(found, 0);
    RankOverGap(found, 0, i);
    while i < |found|
      invariant i <= |found|
      invariant i < |found| ==> found[i]
      invariant RankIndexed(groups, Matched(found, texts), i)
      decreases |found| - i
    {
      var n := GetNext(found, i + 1);
      RankOverGap(found, i + 1, n);
      StoreOne(groups, found, texts, i, n);
      texts := texts + [groups[i].value];
      i := n;
    }
    return Matched(found, texts);
  }

  lemma StoreOne(groups: seq<Option<string>>, found: seq<bool>, texts: seq<string>, i: nat, n: nat)
    requires i < n <= |found| == |groups| && RankIndexed(groups, Matched(found, texts), i) && found[i] && groups[i].Some?
    requires forall k :: i < k < n ==> !found[k]
    ensures RankIndexed(groups, Matched(found, texts + [groups[i].value]), n)
  {
    RankOverGap(found, i + 1, n);
  }

  /** Reads the stored texts with a running counter: the full name first if there is one, then the name. */
  function Decode(m: Matched): Option<(string, string)>
    requires |m.found| == GROUPS
  {
    var hasFull := m.found[1] || m.found[4];
    var at := if hasFull then 1 else 0;
    if at >= |m.texts| || !(m.found[3] || m.found[8] || m.found[9]) then None
    else Some((if hasFull then m.texts[0] else "", m.texts[at]))
  }

  /** What the parts of a text mean: its full name and its name. */
  function Meaning(parts: Parts): (string, string)
  {
    match parts
    case Plain(full) => (full, LastPart(full))
    case Aliased(full, _, alias) => (full, alias)
    case Star => ("", "*")
  }

  /** The running counter reads the right texts for all three forms. */
  lemma DecodeIsMeaning(parts: Parts, m: Matched)
    requires RankIndexed(Groups(parts), m, GROUPS)
    requires forall g :: 0 <= g < GROUPS ==> (m.found[g] <==> WANTED[g] && Groups(parts)[g].Some?)
    ensures Decode(m) == Some(Meaning(parts))
  {
    var f := m.found;
    assert Rank(f, 1) == 0;
    assert Rank(f, 2) == if f[1] then 1 else 0;
    assert Rank(f, 3) == Rank(f, 2);
    assert Rank(f, 4) == Rank(f, 3) + if f[3] then 1 else 0;
    assert Rank(f, 5) == Rank(f, 4) + if f[4] then 1 else 0;
    assert Rank(f, 6) == Rank(f, 5);
    assert Rank(f, 7) == Rank(f, 6);
    assert Rank(f, 8) == Rank(f, 7);
    assert Rank(f, 9) == Rank(f, 8) + if f[8] then 1 else 0;
    assert Rank(f, 10) == Rank(f, 9) + if f[9] then 1 else 0;
    match parts
    case Plain(_) => assert f[1] && f[3];
    case Aliased(_, _, _) => assert f[4] && f[8];
    case Star => assert f[9];
  }

  /** The reference for `LoadAttribute`. */
  function Load(text: string, position: nat): Option<Attribute>
  {
    match Parse(text)
    case None => None
    case Some(parts) => var (full, name) := Meaning(parts); Some(Attribute(name, full, text, position))
  }

  // ----- attributes as they are written

  /** A name and the parts before it, with dots between them. */
  function Dotted(parts: seq<string>, name: string): string
  {
    if |parts| == 0 then name else parts[0] + ("." + Dotted(parts[1..], name))
  }

  predicate IsNameText(s: string)
  {
    |s| > 0 && forall i :: 0 <= i < |s| ==> IsWord(s[i])
  }

  predicate IsBlanks(s: string)
  {
    forall i :: 0 <= i < |s| ==> s[i] == ' '
  }

  lemma OnePartMore(part: string, tail: string)
    requires IsNameText(part)
    ensures var s := part + ("." + tail);
            (IsDotted(s) <==> IsDotted(tail)) && LastPart(s) == LastPart(tail)
  {
    var s := part + ("." + tail);
    Pasted(part, ".", tail);
    assert s[|part|] == '.' && s[|part| + 1..] == tail;
    forall i | 0 <= i < |part|
      ensures IsWord(s[i])
    {
      assert s[i] == part[i];
    }
    RunEndIs(s, 0, |part|, IsWord);
  }

  lemma {:induction false} DottedIs(parts: seq<string>, name: string)
    requires IsNameText(name) && forall p :: p in parts ==> IsNameText(p)
    ensures IsDotted(Dotted(parts, name)) && LastPart(Dotted(parts, name)) == name
  {
    if |parts| == 0 {
      RunEndIs(name, 0, |name|, IsWord);
    } else {
      hide IsDotted, LastPart, IsNameText;
      OnePartMore(parts[0], Dotted(parts[1..], name));
      DottedIs(parts[1..], name);
    }
  }

  lemma BlanksAreBlank(s: string)
    requires IsBlanks(s)
    ensures Blank(s)
  {
    RunEndIs(s, 0, |s|, IsSpace);
  }

  /** A dotted name between blanks: its name is the last part, its full name the whole. */
  lemma DottedIsLoaded(before: string, parts: seq<string>, name: string, after: string, position: nat)
    requires IsBlanks(before) && IsBlanks(after) && IsNameText(name) && forall p :: p in parts ==> IsNameText(p)
    ensures var text := before + (Dotted(parts, name) + after);
            Load(text, position) == Some(Attribute(name, Dotted(parts, name), text, position))
  {
    hide Parse, Dotted;
    var full := Dotted(parts, name);
    DottedIs(parts, name);
    BlanksAreBlank(before);
    BlanksAreBlank(after);
    assert Denotes(before + (full + after), before, Plain(full), after);
    ParseComplete(before + (full + after), before, Plain(full), after);
  }

  /** A dotted name with an alias: its name is the alias, its full name what it stands for. */
  lemma AliasIsLoaded(before: string, parts: seq<string>, name: string, sep: string, alias: string, after: string, position: nat)
    requires IsBlanks(before) && IsBlanks(after) && IsNameText(name) && forall p :: p in parts ==> IsNameText(p)
    requires (sep != "" && IsBlanks(sep)) || sep in {" as ", " As ", " aS ", " AS "}
    requires IsNameText(alias)
    ensures var text := before + (Dotted(parts, name) + (sep + (alias + after)));
            Load(text, position) == Some(Attribute(alias, Dotted(parts, name), text, position))
  {
    hide Parse, Dotted;
    var full := Dotted(parts, name);
    DottedIs(parts, name);
    BlanksAreBlank(before);
    BlanksAreBlank(after);
    if IsBlanks(sep) {
      BlanksAreBlank(sep);
    }
    RunEndIs(alias, 0, |alias|, IsWord);
    var text := before + (full + (sep + (alias + after)));
    assert Denotes(text, before, Aliased(full, sep, alias), after);
    ParseComplete(text, before, Aliased(full, sep, alias), after);
  }

  lemma StarIsLoaded(before: string, after: string, position: nat)
    requires IsBlanks(before) && IsBlanks(after)
    ensures var text := before + ("*" + after); Load(text, position) == Some(Attribute("*", "", text, position))
  {
    hide Parse;
    BlanksAreBlank(before);
    BlanksAreBlank(after);
    assert Denotes(before + ("*" + after), before, Star, after);
    ParseComplete(before + ("*" + after), before, Star, after);
  }

  method LoadAttribute(text: string, position: nat) returns (a: Option<Attribute>)
    ensures a == Load(text, position)
  {
    var parts := Parse(text);
    if parts.None? {
      return None;
    }
    var m := Compact(Groups(parts.value), WANTED);
    DecodeIsMeaning(parts.value, m);
    var (full, name) := Decode(m).value;
    return Some(Attribute(name, full, text, position));
  }
}
