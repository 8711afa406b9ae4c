/** Running the actions a status code calls for (action/SQLActionManager.h, action/SQLStaticActionList.h,
    DEM/SQLErrorFactory.h, DEM/SQLErrorManager.h, unixODBC/ODBCErrorFactoryComponent.cc).

    A pointer that may be NULL is an Option. */
module Actions {
  import opened Prelude

  /** How an action comes back: with a value, or with one of the exceptions the manager tells apart.
      `Foreign` is anything that is not a BESError. */
  datatype Outcome<+O> = Value(out: Option<O>) | SqlInternal | SqlFatal | BesInternal | OtherBes | Foreign

  type Action<!A, +O> = Option<A> -> Outcome<O>

  /** What can leave the manager: an action's fatal error, the factory's refusal of a code, or an exception
      that is nobody's. */
  datatype Error = Fatal | Unmapped | Unfiltered

  class ActionList<!A, O> {
    const actions: seq<Action<A, O>>
    var next: nat

    constructor (actions: seq<Action<A, O>>)
      ensures this.actions == actions && next == 0
    {
      this.actions, next := actions, 0;
    }

    predicate HasNext()
      reads this
    {
      next < |actions|
    }

    /** The list is past the action before the action runs. */
    method DoNext(args: Option<A>) returns (r: Outcome<O>)
      requires HasNext()
      modifies this
      ensures next == old(next) + 1 && r == actions[old(next)](args)
    {
      next := next + 1;
      r := actions[next - 1](args);
    }

    method Reset()
      modifies this
      ensures next == 0
    {
      next := 0;
    }
  }

  /** The source of codes and of the messages that go with them. A code without a list is an exception, and
      `onlyInternal` says whether it is the SQLInternalError that the specification of `getActions` allows
      (DEM/SQLErrorFactory.h:90); any other ends the process. */
  class Factory<!C(==), !A, O> {
    const lists: map<C, ActionList<A, O>>
    const messages: nat -> Option<A>
    const stops: C -> bool
    const onlyInternal: bool
    var codes: seq<C>
    var asked: nat

    constructor (lists: map<C, ActionList<A, O>>, messages: nat -> Option<A>, stops: C -> bool, onlyInternal: bool, codes: seq<C>)
      ensures this.lists == lists && this.messages == messages && this.stops == stops && this.onlyInternal == onlyInternal
      ensures this.codes == codes && asked == 0
    {
      this.lists, this.messages, this.stops, this.onlyInternal := lists, messages, stops, onlyInternal;
      this.codes, asked := codes, 0;
    }

    method GetCode() returns (code: Option<C>)
      modifies `codes
      ensures old(codes) == [] ==> code == None && codes == []
      ensures old(codes) != [] ==> code == Some(old(codes)[0]) && codes == old(codes)[1..]
    {
      if codes == [] {
        return None;
      }
      code, codes := Some(codes[0]), codes[1..];
    }

    method GetArgs() returns (args: Option<A>)
      modifies `asked
      ensures args == messages(old(asked)) && asked == old(asked) + 1
    {
      args, asked := messages(asked), asked + 1;
    }

    /** Lists are shared and may have been left half way; a list is always handed out from its start. */
    method GetActions(code: C) returns (list: Option<ActionList<A, O>>)
      modifies if code in lists then {lists[code]} else {}
      ensures list == if code in lists then Some(lists[code]) else None
      ensures list.Some? ==> list.value.next == 0
    {
      if code !in lists {
        return None;
      }
      lists[code].Reset();
      return Some(lists[code]);
    }
  }

  // ----- the meaning

  /** How one code is treated. */
  datatype Treatment<!C(==), !A, !O, !M> =
    Treatment(factory: Factory<C, A, O>, merge: (Option<M>, Option<O>) -> Option<M>, multiple: bool)
  {
    /** What the i-th action for the code does; with one message for all actions, or one for each. */
    function At(code: C, asked: nat, i: nat): Outcome<O>
      requires code in factory.lists && i < |factory.lists[code].actions|
    {
      factory.lists[code].actions[i](factory.messages(if multiple then asked + i else asked))
    }

    function Size(code: C): nat
    {
      if code in factory.lists then |factory.lists[code].actions| else 0
    }

    /** The first action from i on that neither gives a value nor throws a BESInternalError, or the number of
        actions. */
    function Abort(code: C, asked: nat, i: nat): (k: nat)
      requires code in factory.lists && i <= Size(code)
      ensures i <= k <= Size(code)
      ensures forall j :: i <= j < k ==> At(code, asked, j).Value? || At(code, asked, j).BesInternal?
      ensures k < Size(code) ==> !At(code, asked, k).Value? && !At(code, asked, k).BesInternal?
      decreases Size(code) - i
    {
      if i < Size(code) && (At(code, asked, i).Value? || At(code, asked, i).BesInternal?) then Abort(code, asked, i + 1) else i
    }

    /** The fold of merge over the first n outcomes; an exception among them counts as no value. */
    function Merged(code: C, asked: nat, n: nat): Option<M>
      requires code in factory.lists && n <= Size(code)
    {
      if n == 0 then None
      else merge(Merged(code, asked, n - 1), if At(code, asked, n - 1).Value? then At(code, asked, n - 1).out else None)
    }

    /** The number of messages asked for once n actions of a code ran. */
    function Asked(asked: nat, n: nat): nat
    {
      asked + if multiple then n else if n == 0 then 0 else 1
    }
  }

  datatype Ending<J> = Returned(joined: Option<J>) | Threw(error: Error) | Ends

  /** How a code that has no list ends the manager, or the process with it. */
  function Refused<J>(onlyInternal: bool): Ending<J>
  {
    if onlyInternal then Threw(Unmapped) else Ends
  }

  /** The fold of join over the codes: up to the first that stops, whose actions still count, to the first
      exception, or to the end of the codes. An SQLInternalError ends the actions of its code only: what was
      merged before it is joined. */
  function Run<C(==), A, O, M, J>(t: Treatment<C, A, O, M>, join: (Option<J>, Option<M>) -> Option<J>,
                                  codes: seq<C>, asked: nat, joined: Option<J>): Ending<J>
  {
    if codes == [] then Returned(joined)
    else if codes[0] !in t.factory.lists then Refused(t.factory.onlyInternal)
    else
      var k := t.Abort(codes[0], asked, 0);
      if k < t.Size(codes[0]) && (t.At(codes[0], asked, k).SqlFatal? || t.At(codes[0], asked, k).OtherBes?) then Threw(Fatal)
      else if k < t.Size(codes[0]) && t.At(codes[0], asked, k).Foreign? then Threw(Unfiltered)
      else
        var joined' := join(joined, t.Merged(codes[0], asked, k));
        if t.factory.stops(codes[0]) then Returned(joined')
        else Run(t, join, codes[1..], t.Asked(asked, if k < t.Size(codes[0]) then k + 1 else k), joined')
  }

  lemma {:induction false} AbortIs<C, A, O, M>(t: Treatment<C, A, O, M>, code: C, asked: nat, i: nat, k: nat)
    requires code in t.factory.lists && i <= k <= t.Size(code)
    requires forall j :: i <= j < k ==> t.At(code, asked, j).Value? || t.At(code, asked, j).BesInternal?
    requires k < t.Size(code) ==> !t.At(code, asked, k).Value? && !t.At(code, asked, k).BesInternal?
    ensures t.Abort(code, asked, i) == k
    decreases k - i
  {
    if i < k {
      AbortIs(t, code, asked, i + 1, k);
    }
  }

  /** One code of the fold, told by any k before which every action gives a value or a BESInternalError, and where
      one does something else or none is left. */
  lemma RunOneCode<C, A, O, M, J>(
    t: Treatment<C, A, O, M>, join: (Option<J>, Option<M>) -> Option<J>, code: C, rest: seq<C>, asked: nat, joined: Option<J>, k: nat)
    requires code in t.factory.lists && k <= |t.factory.lists[code].actions|
    requires forall i :: 0 <= i < k ==> t.At(code, asked, i).Value? || t.At(code, asked, i).BesInternal?
    requires k < |t.factory.lists[code].actions| ==> !t.At(code, asked, k).Value? && !t.At(code, asked, k).BesInternal?
    ensures var n, r := |t.factory.lists[code].actions|, Run(t, join, [code] + rest, asked, joined);
            if k == n || t.At(code, asked, k) == SqlInternal then
              var now := join(joined, t.Merged(code, asked, k));
              var ran := if k == n then k else k + 1;
              r == if t.factory.stops(code) then Returned(now)
                   else Run(t, join, rest, asked + if t.multiple then ran else if ran == 0 then 0 else 1, now)
            else r == Threw(if t.At(code, asked, k) == Foreign then Unfiltered else Fatal)
  {
    hide Treatment.At, Treatment.Merged, Treatment.Abort, Refused;
    AbortIs(t, code, asked, 0, k);
    assert ([code] + rest)[0] == code;
    assert ([code] + rest)[1..] == rest;
  }

  /** The codes after which nothing is run. */
  lemma RunEnds<C, A, O, M, J>(
    t: Treatment<C, A, O, M>, join: (Option<J>, Option<M>) -> Option<J>, codes: seq<C>, asked: nat, joined: Option<J>)
    ensures codes == [] ==> Run(t, join, codes, asked, joined) == Returned(joined)
    ensures codes != [] && codes[0] !in t.factory.lists ==>
              Run(t, join, codes, asked, joined) == if t.factory.onlyInternal then Threw(Unmapped) else Ends
  {
  }

  // ----- the manager

  method TryNext<A, O>(actions: ActionList<A, O>, args: Option<A>) returns (r: Outcome<O>)
    requires actions.HasNext()
    modifies actions
    ensures actions.next == old(actions.next) + 1
    ensures r == match actions.actions[old(actions.next)](args)
                 case BesInternal => Value(None)
                 case OtherBes => SqlFatal
                 case o => o
  {
    r := actions.DoNext(args);
    match r
    case BesInternal => r := Value(None);
    case OtherBes => r := SqlFatal;
    case _ =>
  }

  /** The message of the next action: a new one for each, or the first one for all. */
  method NextArgs<C(==), A, O, M>(t: Treatment<C, A, O, M>, firstTime: bool, last: Option<A>) returns (args: Option<A>)
    modifies t.factory`asked
    ensures t.multiple || firstTime ==> args == t.factory.messages(old(t.factory.asked)) && t.factory.asked == old(t.factory.asked) + 1
    ensures !t.multiple && !firstTime ==> args == last && t.factory.asked == old(t.factory.asked)
  {
    if t.multiple || firstTime {
      args := t.factory.GetArgs();
    } else {
      args := last;
    }
  }

  /** One turn of the inner loop: the next action with its message. `asked` is the number of messages asked for
      before the list. */
  method DoOne<C(==), A, O, M>(t: Treatment<C, A, O, M>, code: C, actions: ActionList<A, O>, firstTime: bool, last: Option<A>,
                               ghost asked: nat)
    returns (outcome: Outcome<O>, args: Option<A>)
    requires code in t.factory.lists && t.factory.lists[code] == actions && actions.HasNext()
    requires firstTime <==> actions.next == 0
    requires t.factory.asked == t.Asked(asked, actions.next)
    requires !firstTime && !t.multiple ==> last == t.factory.messages(asked)
    modifies actions, t.factory`asked
    ensures outcome == match t.At(code, asked, old(actions.next))
                       case BesInternal => Value(None)
                       case OtherBes => SqlFatal
                       case o => o
    ensures actions.next == old(actions.next) + 1
    ensures t.factory.asked == t.Asked(asked, actions.next)
    ensures !t.multiple ==> args == t.factory.messages(asked)
  {
    args := NextArgs(t, firstTime, last);
    outcome := TryNext(actions, args);
  }

  /** The inner loop: the actions of one code, up to the first that neither gives a value nor throws a
      BESInternalError. An SQLInternalError there only ends the list. */
  method DoList<C(==), A, O, M>(t: Treatment<C, A, O, M>, code: C, actions: ActionList<A, O>)
    returns (merged: Option<M>, error: Option<Error>)
    requires code in t.factory.lists && t.factory.lists[code] == actions && actions.next == 0
    modifies actions, t.factory`asked
    ensures var asked, n := old(t.factory.asked), |actions.actions|;
            var k := t.Abort(code, asked, 0);
            && (error.None? <==> k == n || t.At(code, asked, k) == SqlInternal)
            && (error.None? ==> merged == t.Merged(code, asked, k))
            && (error == Some(Fatal) <==> k < n && (t.At(code, asked, k) == SqlFatal || t.At(code, asked, k) == OtherBes))
            && (error == Some(Unfiltered) <==> k < n && t.At(code, asked, k) == Foreign)
            && (var ran := if k == n then k else k + 1;
                t.factory.asked == asked + if t.multiple then ran else if ran == 0 then 0 else 1)
  {
    hide Treatment.At;
    merged := None;
    var firstTime := true;
    var args: Option<A> := None;
    ghost var asked, k := t.factory.asked, t.Abort(code, t.factory.asked, 0);
    while actions.HasNext()
      invariant actions.next <= k
      invariant merged == t.Merged(code, asked, actions.next)
      invariant firstTime <==> actions.next == 0
      invariant t.factory.asked == t.Asked(asked, actions.next)
      invariant !firstTime && !t.multiple ==> args == t.factory.messages(asked)
      decreases |actions.actions| - actions.next
    {
      var outcome;
      outcome, args := DoOne(t, code, actions, firstTime, args, asked);
      firstTime := false;
      match outcome
      case Value(out) => merged := t.merge(merged, out);
      case SqlInternal => return merged, None;
      case SqlFatal => return merged, Some(Fatal);
      case _ => return merged, Some(Unfiltered);
    }
    error := None;
  }

  /** What the manager returns or throws is the fold, whatever state earlier runs left the lists in. */
  method DoActions<C(==), A, O, M, J>(t: Treatment<C, A, O, M>, join: (Option<J>, Option<M>) -> Option<J>)
    returns (r: Ending<J>)
    modifies t.factory, t.factory.lists.Values
    ensures r == Run(t, join, old(t.factory.codes), old(t.factory.asked), None)
  {
    hide Treatment.At, Treatment.Merged, Treatment.Abort, Treatment.Asked, Run;
    var joined: Option<J> := None;
    var stop := false;
    while !stop
      invariant stop ==> Run(t, join, old(t.factory.codes), old(t.factory.asked), None) == Returned(joined)
      invariant !stop ==> Run(t, join, t.factory.codes, t.factory.asked, joined)
                          == Run(t, join, old(t.factory.codes), old(t.factory.asked), None)
      decreases !stop, |t.factory.codes|
    {
      RunEnds(t, join, t.factory.codes, t.factory.asked, joined);
      ghost var codes, asked := t.factory.codes, t.factory.asked;
      var code := t.factory.GetCode();
      if code.None? {
        break;
      }
      var actions := t.factory.GetActions(code.value);
      if actions.None? {
        return Refused(t.factory.onlyInternal);
      }
      assert codes == [code.value] + t.factory.codes;
      RunOneCode(t, join, code.value, t.factory.codes, asked, joined, t.Abort(code.value, asked, 0));
      var merged, error := DoList(t, code.value, actions.value);
      if error.Some? {
        return Threw(error.value);
      }
      joined := join(joined, merged);
      stop := t.factory.stops(code.value);
    }
    return Returned(joined);
  }

  // ----- consequences

  /** Nothing after a code that stops is looked at. */
  lemma NothingAfterAStop<C, A, O, M, J>(
    t: Treatment<C, A, O, M>, join: (Option<J>, Option<M>) -> Option<J>, codes: seq<C>, more: seq<C>, asked: nat, joined: Option<J>)
    requires exists c :: c in codes && t.factory.stops(c)
    ensures Run(t, join, codes + more, asked, joined) == Run(t, join, codes, asked, joined)
  {
    assert (codes + more)[0] == codes[0] && (codes + more)[1..] == codes[1..] + more;
    if codes[0] in t.factory.lists && !t.factory.stops(codes[0]) {
      var k := t.Abort(codes[0], asked, 0);
      NothingAfterAStop(t, join, codes[1..], more, t.Asked(asked, if k < t.Size(codes[0]) then k + 1 else k),
                        join(joined, t.Merged(codes[0], asked, k)));
    }
  }

  /** With the default merge and join, which keep what they had, nothing is ever returned. */
  lemma DefaultsReturnNothing<C, A, O, M, J>(
    t: Treatment<C, A, O, M>, join: (Option<J>, Option<M>) -> Option<J>, codes: seq<C>, asked: nat)
    requires forall previous, actual :: t.merge(previous, actual) == previous
    requires forall previous, actual :: join(previous, actual) == previous
    ensures Run(t, join, codes, asked, None).Returned? ==> Run(t, join, codes, asked, None) == Returned(None)
  {
    if codes != [] && codes[0] in t.factory.lists {
      var k := t.Abort(codes[0], asked, 0);
      DefaultsReturnNothing(t, join, codes[1..], t.Asked(asked, if k < t.Size(codes[0]) then k + 1 else k));
    }
  }

  // ----- the ODBC codes

  const SQL_SUCCESS := 0
  const SQL_SUCCESS_WITH_INFO := 1
  const SQL_NO_DATA := 100
  const SQL_ERROR := -1
  const SQL_INVALID_HANDLE := -2

  function DebugMethod(message: Option<string>): Outcome<()> { Value(None) }

  function FatalMethod(message: Option<string>): Outcome<()> { SqlFatal }

  predicate OdbcStops(rc: int)
  {
    rc == SQL_SUCCESS || rc == SQL_SUCCESS_WITH_INFO || rc == SQL_NO_DATA
  }

  function Latest<T>(previous: Option<T>, actual: Option<T>): Option<T> { actual }

  ghost predicate OdbcLists(lists: map<int, ActionList<string, ()>>)
  {
    && lists.Keys == {SQL_SUCCESS, SQL_SUCCESS_WITH_INFO, SQL_NO_DATA, SQL_ERROR, SQL_INVALID_HANDLE}
    && forall rc :: rc in lists ==> lists[rc].actions == if OdbcStops(rc) then [DebugMethod] else [FatalMethod]
  }

  /** A check of the driver's status: a code that is mapped either stops the check or throws, and one that is
      not ends the process, since what `_getActions` throws for it is no SQLInternalError. So the first decides. */
  method OdbcCheck(lists: map<int, ActionList<string, ()>>, codes: seq<int>, messages: nat -> Option<string>)
    returns (r: Ending<()>)
    requires OdbcLists(lists)
    modifies lists.Values
    ensures codes == [] ==> r == Returned(None)
    ensures codes != [] && codes[0] in {0, 1, 100} ==> r == Returned(None)
    ensures codes != [] && codes[0] in {-1, -2} ==> r == Threw(Fatal)
    ensures codes != [] && codes[0] !in {-2, -1, 0, 1, 100} ==> r == Ends
  {
    var factory := new Factory(lists, messages, OdbcStops, false, codes);
    var t := Treatment(factory, Latest<()>, false);
    r := DoActions(t, Latest<()>);
    if codes != [] && codes[0] in lists {
      assert t.Abort(codes[0], 0, 0) == if OdbcStops(codes[0]) then 1 else 0;
    }
  }
}
