/** The cache of parsed datasets (container/SQLContainerFactory.cc, container/SQLContainerStorageVolatile.cc,
    container/SQLContainer.cc). */
module Cache {
  import opened Prelude
  import opened Dataset
  import opened TextContainer

  /** Seconds a container's time may be away from the file's before the container is read again. */
  const TOLERANCE := 10

  predicate IsUpToDate(time: int, file: Option<File>)
  {
    file.Some? && -TOLERANCE < time - file.value.mtime < TOLERANCE
  }

  ghost predicate ParsedFrom(dataset: seq<Section>, version: File, load: ConstraintLoader)
  {
    Parse(version.lines, load) == Loaded(dataset)
  }

  /** Every version is at least ten seconds later than the one before it. */
  ghost predicate Spaced(versions: seq<File>)
  {
    forall i :: 0 < i < |versions| ==> versions[i - 1].mtime + 10 <= versions[i].mtime
  }

  lemma {:induction false} SpacedApart(versions: seq<File>, i: nat, j: nat)
    requires Spaced(versions) && i < j < |versions|
    ensures versions[i].mtime + 10 <= versions[j].mtime
  {
    if i < j - 1 {
      SpacedApart(versions, i, j - 1);
    }
  }

  /** The sections are those of a version with that time. */
  ghost predicate HeldBy(dataset: seq<Section>, time: int, versions: seq<File>, load: ConstraintLoader)
  {
    exists v :: v in versions && v.mtime == time && ParsedFrom(dataset, v, load)
  }

  /** The sections are those of a version that passes for the current one. */
  ghost predicate Passes(dataset: seq<Section>, file: File, versions: seq<File>, load: ConstraintLoader)
  {
    exists v :: v in versions && -10 < v.mtime - file.mtime < 10 && ParsedFrom(dataset, v, load)
  }

  lemma HeldByMore(dataset: seq<Section>, time: int, versions: seq<File>, v: File, load: ConstraintLoader)
    requires HeldBy(dataset, time, versions, load)
    ensures HeldBy(dataset, time, versions + [v], load)
  {
    hide ParsedFrom;
    var w :| w in versions && w.mtime == time && ParsedFrom(dataset, w, load);
    assert w in versions + [v];
  }

  lemma HeldPasses(dataset: seq<Section>, time: int, file: File, versions: seq<File>, load: ConstraintLoader)
    requires HeldBy(dataset, time, versions, load) && IsUpToDate(time, Some(file))
    ensures Passes(dataset, file, versions, load)
  {
  }

  /** Among spaced versions only the last passes for it. */
  lemma SpacedIsLast(dataset: seq<Section>, versions: seq<File>, load: ConstraintLoader)
    requires versions != [] && Spaced(versions) && Passes(dataset, versions[|versions| - 1], versions, load)
    ensures ParsedFrom(dataset, versions[|versions| - 1], load)
  {
    hide ParsedFrom;
    var last := |versions| - 1;
    var v :| v in versions && -10 < v.mtime - versions[last].mtime < 10 && ParsedFrom(dataset, v, load);
    var i: nat :| i < |versions| && versions[i] == v;
    if i < last {
      SpacedApart(versions, i, last);
    }
  }

  function Lookup(files: map<string, File>, name: string): Option<File>
  {
    if name in files then Some(files[name]) else None
  }

  ghost function Past(history: map<string, seq<File>>, name: string): seq<File>
  {
    if name in history then history[name] else []
  }

  /** A file whose author made a mistake that is not reported as an internal error. */
  ghost predicate IsFatal(file: Option<File>, load: ConstraintLoader)
  {
    file.Some? && Parse(file.value.lines, load) == Rejected(Syntax)
  }

  /** How a request for a container ends: with one, with an exception, or with the process. */
  datatype Reply = Ready(c: SQLTextContainer) | Failed | Ends

  /** The files, the stored containers, and every version a file has had. */
  class Server {
    const load: ConstraintLoader
    var files: map<string, File>
    var containers: map<string, SQLTextContainer>
    ghost var history: map<string, seq<File>>

    /** A stored container is ready and holds some version of its file. */
    ghost predicate Stored(name: string)
      requires name in containers
      reads this, containers[name]
    {
      var c := containers[name];
      c.Valid() && c.isReady && name in history && HeldBy(c.dataset, c.time, history[name], load)
    }

    ghost predicate Valid()
      reads this, containers.Values
    {
      && (forall n :: n in files ==> n in history && |history[n]| > 0 && files[n] == history[n][|history[n]| - 1])
      && (forall n :: n in containers ==> Stored(n))
    }

    function OnDisk(name: string): Option<File>
      reads this
    {
      Lookup(files, name)
    }

    constructor (load: ConstraintLoader)
      ensures Valid() && files == map[] && containers == map[] && history == map[] && this.load == load
    {
      this.load, files, containers, history := load, map[], map[], map[];
    }

    method Write(name: string, file: File)
      requires Valid()
      modifies `files, `history
      ensures Valid()
      ensures files == old(files)[name := file]
      ensures history == old(history)[name := Past(old(history), name) + [file]]
    {
      hide HeldBy;
      if name in containers {
        HeldByMore(containers[name].dataset, containers[name].time, history[name], file, load);
      }
      files := files[name := file];
      history := history[name := Past(history, name) + [file]];
    }

    method Delete(name: string)
      requires Valid()
      modifies `files
      ensures Valid() && files == old(files) - {name}
    {
      hide HeldBy;
      files := files - {name};
    }

    /** Whether the stored container answers for the file as it is. */
    predicate Hit(name: string)
      reads this, if name in containers then {containers[name]} else {}
    {
      name in containers && IsUpToDate(containers[name].time, OnDisk(name))
    }

    /** A copy of the stored container, read again from the file when it is too old; none if nothing is
        stored. The stored one is replaced by a copy of what is returned. */
    method LookFor(name: string) returns (r: Result<SQLTextContainer?>)
      requires Valid() && (name in files ==> NoOrphans(files[name].lines))
      modifies `containers
      ensures Valid()
      ensures r == Success(null) <==> name !in old(containers)
      ensures r == Success(null) || r.Failure? ==> containers == old(containers)
      ensures r.Failure? <==> name in old(containers) && !old(Hit(name))
                              && !(name in files && Parse(files[name].lines, load).Loaded?)
      ensures r.Success? && r.value != null ==> fresh(r.value) && r.value !in containers.Values
      ensures r.Success? && r.value != null ==> r.value.Valid() && r.value.isReady && r.value.actual == 0
      ensures r.Success? && r.value != null && old(Hit(name)) ==>
                containers == old(containers) && r.value.dataset == containers[name].dataset && r.value.time == containers[name].time
      ensures r.Success? && r.value != null && !old(Hit(name)) ==>
                name in files && ParsedFrom(r.value.dataset, files[name], load) && r.value.time == files[name].mtime
      ensures containers.Keys == old(containers.Keys)
      ensures r.Success? && r.value != null ==>
                name in containers && containers[name].time == r.value.time && containers[name].dataset == r.value.dataset
    {
      hide Parse, HeldBy;
      if name !in containers {
        return Success(null);
      }
      assert Stored(name);
      var c := new SQLTextContainer.Copy(containers[name], IsUpToDate(containers[name].time, OnDisk(name)));
      if !c.isReady {
        var done := c.Setup(OnDisk(name), load);
        if done != Finished(true) {
          return Failure;
        }
        Update(name, c);
      }
      return Success(c);
    }

    /** Stores a copy of a container just read. */
    method Update(name: string, c: SQLTextContainer)
      requires Valid() && c.Valid() && c.isReady && c !in containers.Values
      requires name in files && ParsedFrom(c.dataset, files[name], load) && c.time == files[name].mtime
      modifies `containers
      ensures Valid() && name in containers
      ensures fresh(containers[name]) && containers[name] != c
      ensures containers == old(containers)[name := containers[name]]
      ensures containers[name].time == c.time && containers[name].dataset == c.dataset
    {
      hide ParsedFrom;
      var d := new SQLTextContainer.Copy(c, IsUpToDate(c.time, OnDisk(name)));
      containers := containers[name := d];
      assert files[name] in history[name];
      assert HeldBy(d.dataset, d.time, history[name], load);
    }

    /** What is stored and up to date passes for the current version, and is it when versions are spaced. */
    lemma HitPasses(name: string)
      requires Valid() && Hit(name)
      ensures Passes(containers[name].dataset, files[name], history[name], load)
      ensures Spaced(history[name]) ==> ParsedFrom(containers[name].dataset, files[name], load)
    {
      hide ParsedFrom, HeldBy, Passes, Spaced;
      assert Stored(name);
      HeldPasses(containers[name].dataset, containers[name].time, files[name], history[name], load);
      if Spaced(history[name]) {
        SpacedIsLast(containers[name].dataset, history[name], load);
      }
    }

    /** A container read from its file. Of the exceptions only internal errors may leave: the exception
        specification (container/SQLContainerFactory.h:142) ends the process for the others. */
    method BuildContainer(name: string) returns (r: Reply)
      requires name in files ==> NoOrphans(files[name].lines)
      ensures r.Ready? <==> name in files && Parse(files[name].lines, load).Loaded?
      ensures r.Ends? <==> IsFatal(OnDisk(name), load)
      ensures r.Ready? ==> fresh(r.c) && r.c.Valid() && r.c.isReady && r.c.actual == 0
      ensures r.Ready? ==> ParsedFrom(r.c.dataset, files[name], load) && r.c.time == files[name].mtime
    {
      hide Parse;
      var c := new SQLTextContainer();
      var done := c.Setup(OnDisk(name), load);
      r := match done case Finished(found) => (if found then Ready(c) else Failed) case Threw(e) => if e.Internal? then Failed else Ends;
    }

    /** The container for a file: a fresh copy the caller may do with as it pleases. It is ready and holds some
        version of the file whose time is less than the tolerance away from the current one's; with versions
        that far apart it holds the current one. */
    method GetContainer(name: string) returns (r: Reply)
      requires Valid() && (name in files ==> NoOrphans(files[name].lines))
      modifies `containers
      ensures Valid()
      ensures r.Ready? <==> old(Hit(name)) || (name in files && Parse(files[name].lines, load).Loaded?)
      ensures r.Ends? <==> name !in old(containers) && IsFatal(OnDisk(name), load)
      ensures r.Ready? ==> fresh(r.c) && r.c !in containers.Values && r.c.Valid() && r.c.isReady && r.c.actual == 0
      ensures r.Ready? ==> name in files && Passes(r.c.dataset, files[name], history[name], load)
      ensures r.Ready? && Spaced(history[name]) ==> ParsedFrom(r.c.dataset, files[name], load)
      ensures r.Ready? && !old(Hit(name)) ==> ParsedFrom(r.c.dataset, files[name], load) && r.c.time == files[name].mtime
      ensures r.Ready? ==> name in containers && containers[name].time == r.c.time && containers[name].dataset == r.c.dataset
      ensures containers.Keys == old(containers.Keys) + if r.Ready? then {name} else {}
      ensures !r.Ready? || old(Hit(name)) ==> containers == old(containers)
    {
      hide ParsedFrom, HeldBy, Passes, Spaced, Parse;
      var found := LookFor(name);
      if found.Failure? {
        return Failed;
      }
      if found.value != null {
        r := Ready(found.value);
      } else {
        r := BuildContainer(name);
        if !r.Ready? {
          return;
        }
        Update(name, r.c);
      }
      HitPasses(name);
    }

    /** A request that brings its own container, not ready yet: the container is read and a copy stored. */
    method Refresh(name: string, c: SQLTextContainer) returns (ok: bool)
      requires Valid() && c.Valid() && !c.isReady && c !in containers.Values
      requires name in files ==> NoOrphans(files[name].lines)
      modifies c, `containers
      ensures Valid()
      ensures ok <==> name in files && Parse(files[name].lines, load).Loaded?
      ensures ok ==> c.Valid() && c.isReady && ParsedFrom(c.dataset, files[name], load) && c !in containers.Values
      ensures ok ==> Hit(name) && containers[name].dataset == c.dataset
      ensures !ok ==> containers == old(containers) && !c.isReady
    {
      hide Parse, HeldBy;
      var done := c.Setup(OnDisk(name), load);
      ok := done == Finished(true);
      if ok {
        Update(name, c);
      }
    }
  }

  /** Whatever two versions of a file say, a request after each gives the first version's sections if their
      times are closer than the tolerance, and the second's otherwise. */
  method TwoVersions(name: string, v: File, w: File, load: ConstraintLoader) returns (c: SQLTextContainer)
    requires NoOrphans(v.lines) && NoOrphans(w.lines)
    requires Parse(v.lines, load).Loaded? && Parse(w.lines, load).Loaded?
    ensures ParsedFrom(c.dataset, if v.mtime - 10 < w.mtime < v.mtime + 10 then v else w, load)
  {
    hide Parse, HeldBy;
    var server := new Server(load);
    server.Write(name, v);
    var first := server.GetContainer(name);
    server.Write(name, w);
    var second := server.GetContainer(name);
    c := second.c;
  }

  // ----- whole runs

  datatype Event = Written(name: string, file: File) | Deleted(name: string) | Requested(name: string)

  /** The file as it is after a run. */
  function FileAfter(run: seq<Event>, name: string): Option<File>
  {
    if |run| == 0 then None else
      match run[|run| - 1]
      case Written(n, file) => if n == name then Some(file) else FileAfter(run[..|run| - 1], name)
      case Deleted(n) => if n == name then None else FileAfter(run[..|run| - 1], name)
      case Requested(_) => FileAfter(run[..|run| - 1], name)
  }

  /** Every version the file has had. */
  function Versions(run: seq<Event>, name: string): seq<File>
  {
    if |run| == 0 then [] else
      var before, e := Versions(run[..|run| - 1], name), run[|run| - 1];
      if e.Written? && e.name == name then before + [e.file] else before
  }

  lemma RunStep(run: seq<Event>, e: Event)
    ensures forall n :: FileAfter(run + [e], n) ==
              if e.Written? && e.name == n then Some(e.file) else if e.Deleted? && e.name == n then None else FileAfter(run, n)
    ensures forall n :: Versions(run + [e], n) ==
              if e.Written? && e.name == n then Versions(run, n) + [e.file] else Versions(run, n)
  {
    assert (run + [e])[..|run|] == run;
  }

  /** A right answer to a request: given whenever the file can be read, and never but for a file that is there,
      of a version that passes for it, and of the file itself when versions are spaced. */
  ghost predicate IsRight(answer: Option<seq<Section>>, file: Option<File>, versions: seq<File>, load: ConstraintLoader)
  {
    && (file.Some? && Parse(file.value.lines, load).Loaded? ==> answer.Some?)
    && (answer.Some? ==> file.Some? && Passes(answer.value, file.value, versions, load)
                         && (Spaced(versions) ==> ParsedFrom(answer.value, file.value, load)))
  }

  /** The files and their history are those of the run. */
  ghost predicate Reflects(files: map<string, File>, history: map<string, seq<File>>, run: seq<Event>)
  {
    && (forall n :: Lookup(files, n) == FileAfter(run, n))
    && (forall n :: Past(history, n) == Versions(run, n))
  }

  lemma ReflectsStep(files: map<string, File>, history: map<string, seq<File>>, run: seq<Event>, e: Event)
    requires Reflects(files, history, run)
    ensures e.Written? ==> Reflects(files[e.name := e.file], history[e.name := Past(history, e.name) + [e.file]], run + [e])
    ensures e.Deleted? ==> Reflects(files - {e.name}, history, run + [e])
    ensures e.Requested? ==> Reflects(files, history, run + [e])
  {
    RunStep(run, e);
  }

  method Answer(server: Server, ghost run: seq<Event>, name: string) returns (ended: bool, answer: Option<seq<Section>>)
    requires server.Valid() && Reflects(server.files, server.history, run)
    requires name in server.files ==> NoOrphans(server.files[name].lines)
    modifies server`containers
    ensures server.Valid() && Reflects(server.files, server.history, run)
    ensures ended <==> name !in old(server.containers) && IsFatal(FileAfter(run, name), server.load)
    ensures !ended ==> IsRight(answer, FileAfter(run, name), Versions(run, name), server.load)
    ensures server.containers.Keys == old(server.containers.Keys) + if answer.Some? then {name} else {}
  {
    hide Parse, NoOrphans, ParsedFrom, Passes, Spaced, FileAfter, Versions;
    assert Lookup(server.files, name) == FileAfter(run, name) && Past(server.history, name) == Versions(run, name);
    var r := server.GetContainer(name);
    ended, answer := r.Ends?, if r.Ready? then Some(r.c.dataset) else None;
  }

  /** One event; `ended` says that the process is over. */
  method Handle(server: Server, ghost run: seq<Event>, e: Event) returns (ended: bool, answer: Option<seq<Section>>)
    requires server.Valid() && Reflects(server.files, server.history, run)
    requires forall n :: n in server.files ==> NoOrphans(server.files[n].lines)
    requires e.Written? ==> NoOrphans(e.file.lines)
    modifies server
    ensures server.Valid() && Reflects(server.files, server.history, run + [e])
    ensures forall n :: n in server.files ==> NoOrphans(server.files[n].lines)
    ensures ended <==> e.Requested? && e.name !in old(server.containers) && IsFatal(FileAfter(run, e.name), server.load)
    ensures e.Requested? && !ended ==> IsRight(answer, FileAfter(run, e.name), Versions(run, e.name), server.load)
    ensures server.containers.Keys == old(server.containers.Keys) + if e.Requested? && answer.Some? then {e.name} else {}
  {
    hide NoOrphans, IsRight, Reflects, IsFatal;
    ReflectsStep(server.files, server.history, run, e);
    ended, answer := false, None;
    match e
    case Written(name, file) => server.Write(name, file);
    case Deleted(name) => server.Delete(name);
    case Requested(name) => ended, answer := Answer(server, run, name);
  }

  /** Whether a request for the name was answered with sections before the i-th event. */
  predicate Answered(run: seq<Event>, answers: seq<Option<seq<Section>>>, i: nat, name: string)
    requires i <= |answers| <= |run|
  {
    exists j :: 0 <= j < i && run[j] == Requested(name) && answers[j].Some?
  }

  /** The i-th event ends the process: a request for a file with such a mistake, of which no earlier version
      was ever given out. */
  ghost predicate EndsAt(run: seq<Event>, answers: seq<Option<seq<Section>>>, i: nat, load: ConstraintLoader)
    requires i <= |answers| <= |run| && i < |run|
  {
    run[i].Requested? && IsFatal(FileAfter(run[..i], run[i].name), load) && !Answered(run, answers, i, run[i].name)
  }

  lemma AnsweredStep(run: seq<Event>, answers: seq<Option<seq<Section>>>, a: Option<seq<Section>>, i: nat, name: string)
    requires i <= |answers| < |run|
    ensures Answered(run, answers + [a], i, name) <==> Answered(run, answers, i, name)
    ensures Answered(run, answers + [a], |answers| + 1, name) <==>
            Answered(run, answers, |answers|, name) || (run[|answers|] == Requested(name) && a.Some?)
  {
    var more := answers + [a];
    assert forall j :: 0 <= j < |answers| ==> more[j] == answers[j];
    if Answered(run, answers, |answers|, name) {
      var j :| 0 <= j < |answers| && run[j] == Requested(name) && answers[j].Some?;
      assert more[j].Some?;
    }
    if Answered(run, answers, i, name) {
      var j :| 0 <= j < i && run[j] == Requested(name) && answers[j].Some?;
      assert more[j].Some?;
    }
    assert more[|answers|] == a;
  }

  /** The requests among the first n events were answered right, and none of them ended the process. */
  ghost predicate AllRight(run: seq<Event>, answers: seq<Option<seq<Section>>>, load: ConstraintLoader)
    requires |answers| <= |run|
  {
    forall i :: 0 <= i < |answers| && run[i].Requested? ==>
      && IsRight(answers[i], FileAfter(run[..i], run[i].name), Versions(run[..i], run[i].name), load)
      && !EndsAt(run, answers, i, load)
  }

  lemma AllRightStep(run: seq<Event>, answers: seq<Option<seq<Section>>>, a: Option<seq<Section>>, load: ConstraintLoader)
    requires |answers| < |run| && AllRight(run, answers, load) && !EndsAt(run, answers, |answers|, load)
    requires run[|answers|].Requested? ==>
               IsRight(a, FileAfter(run[..|answers|], run[|answers|].name), Versions(run[..|answers|], run[|answers|].name), load)
    ensures AllRight(run, answers + [a], load)
  {
    hide IsRight, IsFatal, Answered, FileAfter, Versions;
    forall i | 0 <= i <= |answers| && run[i].Requested?
      ensures !EndsAt(run, answers + [a], i, load)
    {
      AnsweredStep(run, answers, a, i, run[i].name);
    }
  }

  /** Over every run of writes, deletions and requests, every request is answered right, up to the first that
      ends the process; the answers stop there and nowhere else. */
  method Serve(run: seq<Event>, load: ConstraintLoader) returns (answers: seq<Option<seq<Section>>>)
    requires forall e :: e in run && e.Written? ==> NoOrphans(e.file.lines)
    ensures |answers| <= |run| && AllRight(run, answers, load)
    ensures |answers| < |run| ==> EndsAt(run, answers, |answers|, load)
  {
    hide NoOrphans, IsRight, IsFatal, Reflects, Server.Valid, Answered, FileAfter, Versions;
    var server := new Server(load);
    answers := [];
    StartIsReflected();
    while |answers| < |run|
      invariant |answers| <= |run| && server.load == load
      invariant fresh(server) && server.Valid() && Reflects(server.files, server.history, run[..|answers|])
      invariant forall n :: n in server.files ==> NoOrphans(server.files[n].lines)
      invariant AllRight(run, answers, load)
      invariant forall n :: n in server.containers <==> Answered(run, answers, |answers|, n)
    {
      var i := |answers|;
      assert run[..i + 1] == run[..i] + [run[i]];
      var ended, answer := Handle(server, run[..i], run[i]);
      if ended {
        return;
      }
      AllRightStep(run, answers, answer, load);
      forall n
        ensures n in server.containers <==> Answered(run, answers + [answer], i + 1, n)
      {
        AnsweredStep(run, answers, answer, i, n);
      }
      answers := answers + [answer];
    }
  }

  lemma StartIsReflected()
    ensures Reflects(map[], map[], [])
    ensures forall run, n :: !Answered(run, [], 0, n)
  {
  }
}
