/** Trying the sections of a dataset in turn until one can serve a command (SQLRequestHandler.cc:314-492). */
module Failover {
  import opened Dataset
  import opened TextContainer
  import opened Registry

  const SQL_NAME := "sql"

  /** Whether some plugin but the base one drives the section's database. */
  predicate Eligible(s: Section, list: set<string>)
  {
    s.api != SQL_NAME && s.api in list
  }

  /** Whether a section has a handler for the command, and what it answers. Exceptions of a handler are caught
      and count as no answer. */
  ghost predicate Runs(s: Section, registry: RequestHandler, command: string)
    reads registry, registry.theList.Values
  {
    Eligible(s, registry.theList.Keys) && command in registry.theList[s.api].handlers
  }

  ghost predicate Serves(s: Section, registry: RequestHandler, command: string)
    reads registry, registry.theList.Values
  {
    Runs(s, registry, command) && registry.theList[s.api].handlers[command](s) == Done
  }

  datatype Found = AtSection | Nowhere | NoApi

  /** Moves the section cursor to the next section with a plugin; an empty api on the way is an exception. */
  method FindSqlPlugin(c: SQLTextContainer, registry: RequestHandler) returns (found: Found)
    requires c.Valid()
    modifies c`actual
    ensures c.Valid() && c.actual >= old(c.actual)
    ensures forall j :: old(c.actual) <= j < c.actual ==>
                          c.dataset[j].api != "" && !Eligible(c.dataset[j], registry.theList.Keys)
    ensures found.Nowhere? <==> c.End()
    ensures found.NoApi? ==> c.dataset[c.actual].api == ""
    ensures found.AtSection? ==> c.dataset[c.actual].api != "" && Eligible(c.dataset[c.actual], registry.theList.Keys)
  {
    while !c.End()
      invariant c.Valid() && c.actual >= old(c.actual)
      invariant forall j :: old(c.actual) <= j < c.actual ==>
                              c.dataset[j].api != "" && !Eligible(c.dataset[j], registry.theList.Keys)
      decreases |c.dataset| - c.actual
    {
      var api := c.dataset[c.actual].api;
      if api == "" {
        return NoApi;
      }
      if api != SQL_NAME && registry.FindSqlHandler(api) {
        return AtSection;
      }
      var more := c.SetNext();
    }
    return Nowhere;
  }

  /** How a command ends: served, or one of the two exceptions. */
  datatype Ending = Served | EmptyApi | NoServer

  ghost predicate Increasing(tried: seq<nat>)
  {
    forall i, j :: 0 <= i < j < |tried| ==> tried[i] < tried[j]
  }

  lemma AppendLarger(tried: seq<nat>, k: nat)
    requires Increasing(tried) && forall j :: j in tried ==> j < k
    ensures Increasing(tried + [k])
  {
    assert forall i :: 0 <= i < |tried| ==> tried[i] in tried;
  }

  /** Some section serves it before any section without an api. */
  ghost predicate Servable(dataset: seq<Section>, from: nat, registry: RequestHandler, command: string)
    reads registry, registry.theList.Values
  {
    exists k :: from <= k < |dataset|
                && dataset[k].api != "sql" && dataset[k].api in registry.theList
                && command in registry.theList[dataset[k].api].handlers
                && registry.theList[dataset[k].api].handlers[command](dataset[k]) == Done
                && forall j :: from <= j <= k ==> dataset[j].api != ""
  }

  /** The sections from `from` on are tried up to `to`, where one serves the command, or the search ends. */
  lemma ServableIff(dataset: seq<Section>, from: nat, to: nat, registry: RequestHandler, command: string, served: bool)
    requires from <= to <= |dataset|
    requires forall j :: from <= j < to ==> dataset[j].api != ""
    requires if served then from < to && Serves(dataset[to - 1], registry, command)
             else (to < |dataset| ==> dataset[to].api == "")
                  && forall j :: from <= j < to ==> !Serves(dataset[j], registry, command)
    ensures served <==> Servable(dataset, from, registry, command)
  {
    if !served {
      assert forall j :: from <= j < |dataset| && Serves(dataset[j], registry, command) ==> to <= j;
    }
  }

  /** Runs the command for the next section with a plugin, and moves past it. */
  method TryNext(c: SQLTextContainer, registry: RequestHandler, command: string)
    returns (found: Found, res: bool, ghost ran: bool)
    requires c.Valid() && !c.End()
    modifies c`actual
    ensures c.Valid() && old(c.actual) <= c.actual
    ensures found.AtSection? ==> old(c.actual) < c.actual
    ensures found.NoApi? ==> !c.End() && c.dataset[c.actual].api == ""
    ensures found.Nowhere? ==> c.End()
    ensures !found.AtSection? ==> !res && !ran
    ensures found.AtSection? ==> res == Serves(c.dataset[c.actual - 1], registry, command)
    ensures found.AtSection? ==> ran == Runs(c.dataset[c.actual - 1], registry, command)
    ensures forall j :: old(c.actual) <= j < c.actual ==> c.dataset[j].api != ""
    ensures forall j :: old(c.actual) <= j < c.actual - (if found.AtSection? then 1 else 0) ==>
                          !Runs(c.dataset[j], registry, command) && !Serves(c.dataset[j], registry, command)
  {
    res, ran := false, false;
    found := FindSqlPlugin(c, registry);
    if found.AtSection? {
      var section := c.dataset[c.actual];
      var plugin := registry.theList[section.api];
      if plugin.FindHandler(command) {
        res := plugin.handlers[command](section) == Done;
        ran := true;
      }
      var more := c.SetNext();
    }
  }

  /** Runs the command for one section after the other. The handlers it runs are those of the sections that
      have one, in the order of the dataset and each once, up to the first that answers. */
  method LastChanceRunner(c: SQLTextContainer, registry: RequestHandler, command: string)
    returns (ending: Ending, ghost tried: seq<nat>)
    requires c.Valid()
    modifies c`actual
    ensures c.Valid()
    ensures Increasing(tried)
    ensures forall j :: j in tried <==> old(c.actual) <= j < c.actual && Runs(c.dataset[j], registry, command)
    ensures ending.Served? ==> old(c.actual) < c.actual && Serves(c.dataset[c.actual - 1], registry, command)
    ensures forall j :: old(c.actual) <= j < c.actual - (if ending.Served? then 1 else 0) ==>
                          !Serves(c.dataset[j], registry, command)
    ensures forall j :: old(c.actual) <= j < c.actual ==> c.dataset[j].api != ""
    ensures ending.EmptyApi? ==> !c.End() && c.dataset[c.actual].api == ""
    ensures ending.NoServer? ==> c.End()
    ensures ending.Served? <==> Servable(c.dataset, old(c.actual), registry, command)
  {
    hide Runs, Serves, Servable;
    tried := [];
    var res, found := false, AtSection;
    while !res && !c.End()
      invariant c.Valid() && old(c.actual) <= c.actual
      invariant Increasing(tried)
      invariant forall j :: j in tried <==> old(c.actual) <= j < c.actual && Runs(c.dataset[j], registry, command)
      invariant res ==> old(c.actual) < c.actual && Serves(c.dataset[c.actual - 1], registry, command)
      invariant forall j :: old(c.actual) <= j < c.actual - (if res then 1 else 0) ==>
                              !Serves(c.dataset[j], registry, command)
      invariant forall j :: old(c.actual) <= j < c.actual ==> c.dataset[j].api != ""
      decreases !res, |c.dataset| - c.actual
    {
      ghost var ran;
      found, res, ran := TryNext(c, registry, command);
      if ran {
        AppendLarger(tried, c.actual - 1);
        tried := tried + [c.actual - 1];
      }
      if found.NoApi? {
        ServableIff(c.dataset, old(c.actual), c.actual, registry, command, false);
        return EmptyApi, tried;
      }
      if found.Nowhere? {
        break;
      }
    }
    ServableIff(c.dataset, old(c.actual), c.actual, registry, command, res);
    return if res then Served else NoServer, tried;
  }

  /** Datasets read from a file have an api in every section, so the request fails only for lack of a server,
      and only when no section serves it. */
  method Serve(c: SQLTextContainer, registry: RequestHandler, command: string, ghost lines: seq<string>,
               ghost load: ConstraintLoader)
    returns (ending: Ending)
    requires c.Valid() && c.actual == 0
    requires Parse(lines, load).Loaded? && c.dataset == Parse(lines, load).sections
    modifies c`actual
    ensures ending == Served || ending == NoServer
    ensures ending == Served <==>
              exists s :: s in c.dataset && s.api != "sql" && s.api in registry.theList
                          && command in registry.theList[s.api].handlers && registry.theList[s.api].handlers[command](s) == Done
  {
    SectionsAreUsable(lines, load);
    ghost var tried;
    ending, tried := LastChanceRunner(c, registry, command);
    if ending == NoServer {
      assert forall s :: s in c.dataset ==> exists j :: 0 <= j < |c.dataset| && c.dataset[j] == s;
    }
  }
}
