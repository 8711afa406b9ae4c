/** The registry of database plugins and of the commands they serve (SQLPlugin.cc, SQLRequestHandler.cc).

    A command is installed once, as a wrapper, however many plugins serve it; the wrap count says how many. */
module Registry {
  import opened Prelude
  import opened Dataset

  /** How a handler function comes back. */
  datatype Answer = Done | NotDone | Throws

  /** A handler function, by what it answers for a section of the dataset. Function pointers are not null. */
  type Handler = Section -> Answer

  /** The commands each existing plugin serves. */
  type Served = map<Plugin, set<string>>

  ghost function Holders(served: Served, command: string): set<Plugin>
  {
    set p | p in served && command in served[p]
  }

  ghost function Serving(live: set<Plugin>): Served
    reads live
  {
    map p | p in live :: p.handlers.Keys
  }

  /** The wrap count of a command is the number of plugins that serve it; commands nobody serves have none. */
  ghost predicate Conserved(wrapCount: map<string, nat>, served: Served)
  {
    && (forall c :: c in wrapCount <==> Holders(served, c) != {})
    && (forall c :: c in wrapCount ==> wrapCount[c] == |Holders(served, c)|)
  }

  function Counted(wrapCount: map<string, nat>, command: string): map<string, nat>
  {
    wrapCount[command := if command in wrapCount then wrapCount[command] + 1 else 1]
  }

  function Uncounted(wrapCount: map<string, nat>, command: string): map<string, nat>
    requires command in wrapCount && wrapCount[command] > 0
  {
    if wrapCount[command] == 1 then wrapCount - {command} else wrapCount[command := wrapCount[command] - 1]
  }

  lemma HoldersAfter(served: Served, p: Plugin, commands: set<string>, c: string)
    ensures Holders(served[p := commands], c) ==
            if c in commands then Holders(served, c) + {p} else Holders(served, c) - {p}
  {
  }

  lemma Gain(wrapCount: map<string, nat>, served: Served, p: Plugin, command: string)
    requires Conserved(wrapCount, served) && p in served && command !in served[p]
    ensures Conserved(Counted(wrapCount, command), served[p := served[p] + {command}])
  {
    var served' := served[p := served[p] + {command}];
    forall c
      ensures Holders(served', c) == if c == command then Holders(served, c) + {p} else Holders(served, c)
    {
      HoldersAfter(served, p, served[p] + {command}, c);
      assert p in Holders(served, c) <==> c in served[p];
    }
    assert p !in Holders(served, command);
  }

  lemma Loss(wrapCount: map<string, nat>, served: Served, p: Plugin, command: string)
    requires Conserved(wrapCount, served) && p in served && command in served[p]
    ensures command in wrapCount && wrapCount[command] > 0
    ensures Conserved(Uncounted(wrapCount, command), served[p := served[p] - {command}])
  {
    var served' := served[p := served[p] - {command}];
    assert p in Holders(served, command);
    forall c
      ensures Holders(served', c) == if c == command then Holders(served, c) - {p} else Holders(served, c)
    {
      HoldersAfter(served, p, served[p] - {command}, c);
      assert p in Holders(served, c) <==> c in served[p];
    }
    assert Holders(served', command) + {p} == Holders(served, command);
  }

  /** A plugin that serves nothing counts for nothing. */
  lemma Idle(wrapCount: map<string, nat>, served: Served, p: Plugin)
    requires p in served ==> served[p] == {}
    ensures Conserved(wrapCount, served) <==> Conserved(wrapCount, served - {p})
    ensures Conserved(wrapCount, served) <==> Conserved(wrapCount, served[p := {}])
  {
    forall c
      ensures Holders(served, c) == Holders(served - {p}, c) == Holders(served[p := {}], c)
    {
    }
  }

  lemma Forget(wrapCount: map<string, nat>, live: set<Plugin>, p: Plugin)
    requires p in live && p.handlers == map[] && Conserved(wrapCount, Serving(live))
    ensures Conserved(wrapCount, Serving(live - {p}))
  {
    Idle(wrapCount, Serving(live), p);
    assert Serving(live - {p}) == Serving(live) - {p};
  }

  lemma Enlist(wrapCount: map<string, nat>, live: set<Plugin>, p: Plugin)
    requires p !in live && p.handlers == map[] && Conserved(wrapCount, Serving(live))
    ensures Conserved(wrapCount, Serving(live + {p}))
  {
    Idle(wrapCount, Serving(live), p);
    assert p.handlers.Keys == {};
    assert Serving(live + {p}) == Serving(live)[p := {}];
  }

  class Plugin {
    const name: string
    const registry: RequestHandler
    var handlers: map<string, Handler>

    constructor (name: string, registry: RequestHandler)
      requires registry.Valid()
      modifies registry`live
      ensures this.name == name && this.registry == registry && handlers == map[]
      ensures registry.live == old(registry.live) + {this} && registry.Valid()
    {
      this.name, this.registry, handlers := name, registry, map[];
      new;
      hide Conserved, Holders;
      ghost var live := registry.live + {this};
      Enlist(registry.wrapCount, registry.live, this);
      registry.live := live;
      assert Conserved(registry.wrapCount, Serving(live));
    }

    /** Adds a handler and has its command wrapped. It fails, changing nothing, when some listed plugin bears
        the command's name. */
    method AddHandler(command: string, handler: Handler) returns (r: Result<bool>)
      requires registry.Valid() && this in registry.live
      modifies this, registry`wrapCount, registry`methods
      ensures registry.Valid()
      ensures r == Success(false) <==> command in old(handlers)
      ensures r == Failure <==> command !in old(handlers) && command in registry.theList
      ensures r != Success(true) ==> handlers == old(handlers) && registry.wrapCount == old(registry.wrapCount)
                                     && registry.methods == old(registry.methods)
      ensures r == Success(true) ==> handlers == old(handlers)[command := handler]
                                     && registry.methods == old(registry.methods) + {command}
    {
      hide Holders;
      if command in handlers {
        return Success(false);
      }
      Gain(registry.wrapCount, Serving(registry.live), this, command);
      var wrapped := registry.AddSqlWrapper(command);
      if !wrapped {
        return Failure;
      }
      handlers := handlers[command := handler];
      assert handlers.Keys == old(handlers).Keys + {command};
      assert Serving(registry.live) == old(Serving(registry.live))[this := old(handlers).Keys + {command}];
      r := Success(true);
    }

    /** Removes a handler. The wrapper goes with the last plugin that served the command; the exception for a
        command that is not wrapped cannot arise. */
    method RemoveHandler(command: string) returns (removed: bool)
      requires registry.Valid() && this in registry.live
      modifies this, registry`wrapCount, registry`methods
      ensures registry.Valid()
      ensures removed <==> command in old(handlers)
      ensures handlers == old(handlers) - {command}
      ensures command !in old(handlers) ==> registry.wrapCount == old(registry.wrapCount) && registry.methods == old(registry.methods)
      ensures command in registry.methods || registry.methods == old(registry.methods) - {command}
      ensures registry.methods + {command} == old(registry.methods) + {command}
    {
      hide Conserved, Holders;
      if command !in handlers {
        return false;
      }
      Loss(registry.wrapCount, Serving(registry.live), this, command);
      var r := registry.RemoveSqlWrapper(command);
      assert r == Success(true);
      handlers := handlers - {command};
      assert handlers.Keys == old(handlers).Keys - {command};
      assert Serving(registry.live) == old(Serving(registry.live))[this := old(handlers).Keys - {command}];
      removed := true;
    }

    method RemoveHandlers()
      requires registry.Valid() && this in registry.live
      modifies this, registry`wrapCount, registry`methods
      ensures registry.Valid() && handlers == map[]
      ensures forall c :: c !in old(handlers) ==> (c in registry.methods <==> c in old(registry.methods))
    {
      while handlers.Keys != {}
        invariant registry.Valid()
        invariant forall c :: c in handlers ==> c in old(handlers)
        invariant forall c :: c !in old(handlers) ==> (c in registry.methods <==> c in old(registry.methods))
        decreases |handlers.Keys|
      {
        hide Conserved, Holders;
        var command :| command in handlers;
        ghost var before := handlers;
        var removed := RemoveHandler(command);
        assert handlers.Keys < before.Keys;
        assert before.Keys == handlers.Keys + {command};
      }
    }

    predicate FindHandler(command: string)
      reads this
    {
      command in handlers
    }
  }

  /** A command that is not the base handler's own is installed exactly when some plugin serves it. */
  lemma InstalledIsServed(registry: RequestHandler, command: string)
    requires registry.Valid() && command !in registry.base
    ensures registry.FindMethod(command) <==> exists p :: p in registry.live && p.FindHandler(command)
  {
    assert forall p :: p in Holders(Serving(registry.live), command) <==> p in registry.live && p.FindHandler(command);
  }

  class RequestHandler {
    var theList: map<string, Plugin>
    var wrapCount: map<string, nat>
    var methods: set<string>
    /** The base handler's own commands. */
    const base: set<string>
    /** The plugins that exist, listed or not. */
    ghost var live: set<Plugin>

    /** The counts are right, and the installed commands are the counted ones and, perhaps, the base handler's. */
    ghost predicate Valid()
      reads this, live
    {
      && (forall n :: n in theList ==> theList[n] in live)
      && (forall m, n :: m in theList && n in theList && theList[m] == theList[n] ==> m == n)
      && (forall p :: p in live ==> p.registry == this)
      && Conserved(wrapCount, Serving(live))
      && wrapCount.Keys <= methods <= wrapCount.Keys + base
    }

    constructor (base: set<string>)
      ensures Valid() && live == {} && methods == base && theList == map[]
    {
      theList, wrapCount, methods, this.base, live := map[], map[], base, base, {};
    }

    predicate FindMethod(command: string)
      reads this
    {
      command in methods
    }

    method AddSqlWrapper(command: string) returns (ok: bool)
      requires command in wrapCount ==> wrapCount[command] > 0
      modifies `wrapCount, `methods
      ensures ok <==> command !in theList
      ensures ok ==> wrapCount == Counted(old(wrapCount), command) && methods == old(methods) + {command}
      ensures !ok ==> wrapCount == old(wrapCount) && methods == old(methods)
    {
      if command in theList {
        return false;
      }
      var r := UpdateWrapCount(command, true);
      methods := methods + {command};
      ok := true;
    }

    /** Takes one use of a wrapper away, and the wrapper with the last. */
    method RemoveSqlWrapper(command: string) returns (r: Result<bool>)
      requires command in wrapCount ==> wrapCount[command] > 0
      modifies `wrapCount, `methods
      ensures r == if command !in old(methods) then Success(false) else if command in old(wrapCount) then Success(true) else Failure
      ensures r != Success(true) ==> wrapCount == old(wrapCount) && methods == old(methods)
      ensures r == Success(true) ==> wrapCount == Uncounted(old(wrapCount), command)
      ensures r == Success(true) ==> methods == if command in wrapCount then old(methods) else old(methods) - {command}
    {
      if !FindMethod(command) {
        return Success(false);
      }
      var last := UpdateWrapCount(command, false);
      if last.Failure? {
        return Failure;
      }
      if last.value {
        methods := methods - {command};
      }
      return Success(true);
    }

    /** Counts one plugin more or less; true when the last one went. */
    method UpdateWrapCount(command: string, add: bool) returns (r: Result<bool>)
      requires command in wrapCount ==> wrapCount[command] > 0
      modifies `wrapCount
      ensures add ==> r == Success(false) && wrapCount == Counted(old(wrapCount), command)
      ensures !add && command in old(wrapCount) ==> wrapCount == Uncounted(old(wrapCount), command)
                                                    && r == Success(command !in wrapCount)
      ensures !add && command !in old(wrapCount) ==> r.Failure? && wrapCount == old(wrapCount)
    {
      if command in wrapCount {
        if add {
          wrapCount := wrapCount[command := wrapCount[command] + 1];
        } else {
          wrapCount := wrapCount[command := wrapCount[command] - 1];
          if wrapCount[command] == 0 {
            wrapCount := wrapCount - {command};
            return Success(true);
          }
        }
      } else if add {
        wrapCount := wrapCount[command := 1];
      } else {
        return Failure;
      }
      return Success(false);
    }

    // ----- the list of plugins

    predicate FindSqlHandler(name: string)
      reads this
    {
      name in theList
    }

    /** The list owns the plugin it is given. */
    method AddSqlHandler(name: string, plugin: Plugin) returns (added: bool)
      requires Valid() && plugin in live && plugin !in theList.Values
      modifies `theList
      ensures Valid()
      ensures added <==> name !in old(theList)
      ensures theList == if added then old(theList)[name := plugin] else old(theList)
    {
      if name in theList {
        return false;
      }
      theList := theList[name := plugin];
      added := true;
    }

    /** Removes a plugin, which ceases to exist, together with all its handlers. */
    method RemoveSqlHandler(name: string) returns (removed: bool)
      requires Valid()
      modifies this, if name in theList then {theList[name]} else {}
      ensures Valid()
      ensures removed <==> name in old(theList)
      ensures theList == old(theList) - {name}
      ensures live == if removed then old(live) - {old(theList[name])} else old(live)
      ensures !removed ==> wrapCount == old(wrapCount) && methods == old(methods)
      ensures forall c :: !(removed && c in old(theList[name].handlers)) ==> (c in methods <==> c in old(methods))
    {
      hide Conserved, Holders;
      if name !in theList {
        return false;
      }
      var plugin := theList[name];
      plugin.RemoveHandlers();
      theList := theList - {name};
      Forget(wrapCount, live, plugin);
      live := live - {plugin};
      removed := true;
    }
  }
}
