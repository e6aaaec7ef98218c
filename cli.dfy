/** The command line front end: applying a registry command and deciding
    whether to save, then opening the registered repositories, folding the
    workers' results into a name-ordered map and deriving one row each. */
module Cli {
  import opened Wrappers
  import opened Errors
  import opened Paths
  import opened Registry
  import opened StringOrder
  import opened SortedMap
  import opened Repository
  import Config

  /** The subcommands; `GetPath` is the `path <name>` command. */
  datatype Command =
    | Add(paths: seq<Path>)
    | Remove(names: seq<string>)
    | Rename(name: string, newName: string)
    | GetPath(name: string)

  /** Where a loop over a command's arguments leaves the registry: the map,
      the `modified` flag, and the error that ended it early, if any. */
  datatype Batch = Batch(repos: RepoMap, modified: bool, error: Option<Error>)

  /** The `add` loop: adds path after path and stops at the first failure,
      keeping what was added before it. */
  function AddAll(m: RepoMap, paths: seq<Path>): (b: Batch)
    ensures b.error.None? ==> b.modified == (|paths| > 0) && |b.repos| == |m| + |paths|
    ensures forall k :: k in m ==> k in b.repos && b.repos[k] == m[k]
  {
    if |paths| == 0 then
      Batch(m, false, None)
    else
      var prev := AddAll(m, paths[..|paths| - 1]);
      if prev.error.Some? then
        prev
      else
        match Config.AddTo(prev.repos, paths[|paths| - 1])
        case Failure(e) => Batch(prev.repos, prev.modified, Some(e))
        case Success(next) => Batch(next, true, None)
  }

  /** The names a successful `add` binds: the last component of each path. */
  function AddedNames(paths: seq<Path>): set<string> {
    set p: Path | p in paths && |p| > 0 :: p[|p| - 1].text
  }

  /** `path` is registered under the text of its last component. */
  predicate Bound(repos: RepoMap, path: Path) {
    && |path| > 0 && path[|path| - 1].utf8
    && path[|path| - 1].text in repos
    && repos[path[|path| - 1].text] == path
  }

  /** A successful `add` binds every path under its last component's text. */
  lemma {:induction false} AddAllBinds(m: RepoMap, paths: seq<Path>)
    requires AddAll(m, paths).error.None?
    ensures forall i :: 0 <= i < |paths| ==> Bound(AddAll(m, paths).repos, paths[i])
  {
    if |paths| > 0 {
      var front := paths[..|paths| - 1];
      var last := paths[|paths| - 1];
      var prev := AddAll(m, front);
      AddAllStep(m, paths, |paths| - 1);
      assert paths[..|paths|] == paths;
      assert prev.error.None? && Config.AddTo(prev.repos, last).Success?;
      AddAllBinds(m, front);
      BoundExtend(prev.repos, front, paths);
    }
  }

  /** One more successful `add_repository` keeps the earlier paths bound and
      binds the new one. */
  lemma BoundExtend(repos: RepoMap, front: seq<Path>, paths: seq<Path>)
    requires |paths| > 0 && front == paths[..|paths| - 1]
    requires Config.AddTo(repos, paths[|paths| - 1]).Success?
    requires forall i :: 0 <= i < |front| ==> Bound(repos, front[i])
    ensures forall i :: 0 <= i < |paths| ==> Bound(Config.AddTo(repos, paths[|paths| - 1]).value, paths[i])
  {
    var after := Config.AddTo(repos, paths[|paths| - 1]).value;
    forall i | 0 <= i < |paths| ensures Bound(after, paths[i]) {
      if i < |paths| - 1 {
        assert front[i] == paths[i];
        assert Bound(repos, front[i]);
      }
    }
  }

  /** After a successful `add` the registry's names are the old ones plus
      exactly the names of the added paths. */
  lemma {:induction false} AddAllKeys(m: RepoMap, paths: seq<Path>)
    requires AddAll(m, paths).error.None?
    ensures forall k :: k in AddAll(m, paths).repos <==> k in m || k in AddedNames(paths)
  {
    if |paths| > 0 {
      var front := paths[..|paths| - 1];
      var last := paths[|paths| - 1];
      var prev := AddAll(m, front);
      AddAllStep(m, paths, |paths| - 1);
      assert paths[..|paths|] == paths;
      assert prev.error.None? && Config.AddTo(prev.repos, last).Success?;
      AddAllKeys(m, front);
      KeysExtend(m, prev.repos, paths);
    }
  }

  /** One more successful `add_repository` adds exactly the new path's name. */
  lemma KeysExtend(m: RepoMap, repos: RepoMap, paths: seq<Path>)
    requires |paths| > 0 && Config.AddTo(repos, paths[|paths| - 1]).Success?
    requires forall k :: k in repos <==> k in m || k in AddedNames(paths[..|paths| - 1])
    ensures forall k :: k in Config.AddTo(repos, paths[|paths| - 1]).value <==> k in m || k in AddedNames(paths)
  {
    var front, last := paths[..|paths| - 1], paths[|paths| - 1];
    assert paths == front + [last];
    AddedNamesSnoc(front, last);
  }

  lemma AddedNamesSnoc(front: seq<Path>, last: Path)
    requires |last| > 0
    ensures AddedNames(front + [last]) == AddedNames(front) + {last[|last| - 1].text}
  {
    var all := front + [last];
    forall k | k in AddedNames(all) ensures k in AddedNames(front) + {last[|last| - 1].text} {
      var p: Path :| p in all && |p| > 0 && p[|p| - 1].text == k;
      if p != last {
        assert p in front;
      }
    }
    forall k | k in AddedNames(front) ensures k in AddedNames(all) {
      var p: Path :| p in front && |p| > 0 && p[|p| - 1].text == k;
      assert p in all;
    }
    assert last in all;
  }

  /** Once a prefix of the paths has failed, the rest are never looked at. */
  lemma {:induction false} AddAllStopsAtError(m: RepoMap, paths: seq<Path>, k: nat)
    requires k <= |paths| && AddAll(m, paths[..k]).error.Some?
    ensures AddAll(m, paths) == AddAll(m, paths[..k])
  {
    if k < |paths| {
      var front := paths[..|paths| - 1];
      assert front[..k] == paths[..k];
      AddAllStopsAtError(m, front, k);
    } else {
      assert paths[..k] == paths;
    }
  }

  /** One more path: the loop either stays stopped or applies `add` once. */
  lemma AddAllStep(m: RepoMap, paths: seq<Path>, i: nat)
    requires i < |paths|
    ensures var prev := AddAll(m, paths[..i]);
            AddAll(m, paths[..i + 1])
            == if prev.error.Some? then prev
               else if Config.AddTo(prev.repos, paths[i]).Failure? then
                 Batch(prev.repos, prev.modified, Some(Config.AddTo(prev.repos, paths[i]).error))
               else Batch(Config.AddTo(prev.repos, paths[i]).value, true, None)
  {
    assert paths[..i + 1][..i] == paths[..i];
  }

  /** The `add` of `paths` failed on path k: the paths before it were all
      added, path k was refused, and the outcome is the registry those
      additions made with the `modified` flag they set and path k's error. */
  ghost predicate FailsAt(m: RepoMap, paths: seq<Path>, k: int) {
    && 0 <= k < |paths|
    && var before := AddAll(m, paths[..k]);
    && before.error.None?
    && Config.AddTo(before.repos, paths[k]).Failure?
    && AddAll(m, paths) == Batch(before.repos, before.modified, Some(Config.AddTo(before.repos, paths[k]).error))
  }

  /** A failed `add` failed on exactly the first path that could not be added,
      and everything added before it stays in the registry. */
  lemma {:induction false} AddAllAbort(m: RepoMap, paths: seq<Path>)
    requires AddAll(m, paths).error.Some?
    ensures exists k :: FailsAt(m, paths, k)
  {
    var n := |paths|;
    assert paths[..n] == paths;
    AddAllStep(m, paths, n - 1);
    var front := paths[..n - 1];
    if AddAll(m, front).error.Some? {
      AddAllAbort(m, front);
      var k :| FailsAt(m, front, k);
      FailsAtExtends(m, paths, k);
    } else {
      assert FailsAt(m, paths, n - 1);
    }
  }

  /** A failure found in all paths but the last is a failure of all paths. */
  lemma FailsAtExtends(m: RepoMap, paths: seq<Path>, k: int)
    requires |paths| > 0 && FailsAt(m, paths[..|paths| - 1], k)
    ensures FailsAt(m, paths, k)
  {
    var front := paths[..|paths| - 1];
    assert front[..k] == paths[..k];
    assert front[k] == paths[k];
  }

  /** The `remove` loop: every name is removed, and `modified` is set by each
      removal that found its name. */
  function RemoveAll(m: RepoMap, names: seq<string>): (b: Batch)
    ensures b.error.None?
    ensures forall k :: k in b.repos <==> k in m && k !in names
    ensures forall k :: k in b.repos ==> b.repos[k] == m[k]
    ensures b.modified <==> exists n :: n in names && n in m
  {
    if |names| == 0 then
      Batch(m, false, None)
    else
      var front := names[..|names| - 1];
      var prev := RemoveAll(m, front);
      var name := names[|names| - 1];
      assert names == front + [name];
      Batch(Without(prev.repos, name), prev.modified || name in prev.repos, None)
  }

  /** One more name: it is removed, and `modified` is set if it was bound. */
  lemma RemoveAllStep(m: RepoMap, names: seq<string>, i: nat)
    requires i < |names|
    ensures var prev := RemoveAll(m, names[..i]);
            RemoveAll(m, names[..i + 1])
            == Batch(Without(prev.repos, names[i]), prev.modified || names[i] in prev.repos, None)
  {
    assert names[..i + 1][..i] == names[..i];
  }

  /** What `run_command`'s match leaves behind before the save decision: the
      registry, the `modified` flag, the error it returned early with, and the
      path the `path` command printed. */
  datatype Effect = Effect(repos: RepoMap, modified: bool, error: Option<Error>, printed: Option<Path>)

  function Apply(m: RepoMap, command: Option<Command>): (e: Effect)
    ensures command.None? ==> e == Effect(m, false, None, None)
    ensures e.printed.Some? <==> command.Some? && command.value.GetPath? && command.value.name in m
    ensures e.printed.Some? ==> e.printed.value == m[command.value.name]
    ensures command.Some? && command.value.GetPath? ==>
              && e.repos == m && !e.modified
              && (e.error.None? <==> command.value.name in m)
              && (e.error.Some? ==> e.error.value == NameNotFound)
    ensures command.Some? && command.value.Rename? ==>
              && (e.modified <==> e.error.None?)
              && (e.error.Some? ==> e.repos == m)
    ensures command.Some? && command.value.Remove? ==> e.error.None?
    ensures e.error.None? && command.Some? && command.value.Add? ==>
              (e.modified <==> |command.value.paths| > 0)
  {
    match command
    case None => Effect(m, false, None, None)
    case Some(Add(paths)) =>
      var b := AddAll(m, paths);
      Effect(b.repos, b.modified, b.error, None)
    case Some(Remove(names)) =>
      var b := RemoveAll(m, names);
      Effect(b.repos, b.modified, None, None)
    case Some(Rename(name, newName)) =>
      (match Config.RenameIn(m, name, newName)
       case Failure(err) => Effect(m, false, Some(err), None)
       case Success(next) => Effect(next, true, None, None))
    case Some(GetPath(name)) =>
      if name in m then Effect(m, false, None, Some(m[name]))
      else Effect(m, false, Some(NameNotFound), None)
  }

  /** The command line: the loaded configuration, the `--no-fetch` flag, the
      worker count and the subcommand, if any. */
  class Cli {
    const config: Config.Config
    const noFetch: bool
    const workers: nat
    const command: Option<Command>

    constructor (config: Config.Config, noFetch: bool, workers: nat, command: Option<Command>)
      ensures this.config == config && this.noFetch == noFetch
      ensures this.workers == workers && this.command == command
    {
      this.config := config;
      this.noFetch := noFetch;
      this.workers := workers;
      this.command := command;
    }

    /** The `add` arm: adds the paths in order and stops at the first failure. */
    method AddPaths(paths: seq<Path>) returns (b: Batch)
      modifies config
      ensures b == AddAll(old(config.repositories), paths)
      ensures config.repositories == b.repos
    {
      ghost var m := config.repositories;
      var modified := false;
      var i := 0;
      while i < |paths|
        invariant 0 <= i <= |paths|
        invariant AddAll(m, paths[..i]) == Batch(config.repositories, modified, None)
      {
        var res := config.AddRepository(paths[i]);
        AddAllStep(m, paths, i);
        if res.Failure? {
          AddAllStopsAtError(m, paths, i + 1);
          return Batch(config.repositories, modified, Some(res.error));
        }
        modified := true;
        i := i + 1;
      }
      assert paths[..i] == paths;
      b := Batch(config.repositories, modified, None);
    }

    /** The `remove` arm: removes every name, noting whether any was bound. */
    method RemoveNames(names: seq<string>) returns (b: Batch)
      modifies config
      ensures b == RemoveAll(old(config.repositories), names)
      ensures config.repositories == b.repos
    {
      ghost var m := config.repositories;
      var modified := false;
      for i := 0 to |names|
        invariant RemoveAll(m, names[..i]) == Batch(config.repositories, modified, None)
      {
        var removed := config.RemoveRepositoryByName(names[i]);
        RemoveAllStep(m, names, i);
        if removed {
          modified := true;
        }
      }
      assert names[..|names|] == names;
      b := Batch(config.repositories, modified, None);
    }

    /** `run_command`: applies the subcommand to the configuration, then saves
        it exactly when the registry was modified and no step failed. `saveOk`
        is whether writing the file succeeds; `saved` reports that a save was
        attempted; a `path` command's result is the path it prints. */
    method RunCommand(saveOk: bool) returns (r: Result<Option<Path>, Error>, saved: bool)
      modifies config
      ensures var e := Apply(old(config.repositories), command);
              && config.repositories == e.repos
              && (saved <==> e.error.None? && e.modified)
              && r == if e.error.Some? then Failure(e.error.value)
                      else if saved && !saveOk then Failure(SaveFailed)
                      else Success(e.printed)
    {
      var modified := false;
      var printed: Option<Path> := None;
      match command {
        case None =>
        case Some(Add(paths)) =>
          var b := AddPaths(paths);
          if b.error.Some? {
            return Failure(b.error.value), false;
          }
          modified := b.modified;
        case Some(Remove(names)) =>
          var b := RemoveNames(names);
          modified := b.modified;
        case Some(Rename(name, newName)) =>
          var res := config.RenameRepository(name, newName);
          if res.Failure? {
            return Failure(res.error), false;
          }
          modified := true;
        case Some(GetPath(name)) =>
          if name !in config.repositories {
            return Failure(NameNotFound), false;
          }
          printed := Some(config.repositories[name]);
      }
      saved := modified;
      if modified && !saveOk {
        return Failure(SaveFailed), saved;
      }
      r := Success(printed);
    }

    /** `run_process` after a command: opens the registered repositories in
        the registry's iteration `order` (`disk` is what the library can
        open, by path), runs one worker per opened repository (`fetch` is
        the library state a fetch leaves behind), receives the `num_jobs`
        results in the order `arrival` in which the workers finish, folds
        them into the name-ordered map and derives one row per entry.
        `ThreadPool::new` panics on zero workers. Whatever the arrival order,
        the rows are the openable names in ascending order, each with the
        row of its processed repository. */
    method RunProcess(order: seq<string>, disk: map<Path, Backend>, fetch: Backend -> Backend, arrival: seq<nat>)
        returns (rows: seq<Row>, failed: seq<string>)
      requires workers > 0
      requires NoDuplicates(order)
      requires forall n :: n in order <==> n in config.repositories
      requires IsArrival(arrival, |OpenableNames(config.repositories, disk)|)
      ensures failed == FailedIn(config.repositories, disk, order)
      ensures |rows| == |OpenableNames(config.repositories, disk)|
      ensures IsTable(config.repositories, disk, !noFetch, fetch, rows)
    {
      var jobs;
      jobs, failed := OpenRepositories(config.repositories, order, disk);
      OpenCounts(config.repositories, order, disk);
      var processed := SpawnWorkers(jobs, !noFetch, fetch);
      var received := Receive(processed, arrival);
      Arrived(config.repositories, disk, !noFetch, fetch, jobs, processed, arrival, received);
      var sorted := Collect(received, |received|);
      Tabled(config.repositories, disk, !noFetch, fetch, received, sorted);
      rows := BuildRows(sorted);
      Tabulated(config.repositories, disk, !noFetch, fetch, received, sorted, rows);
    }
  }

  /** A repository as it travels from the open loop through a worker to the
      table: its name, what the library answers for it, and its status cache. */
  datatype Handle = Handle(name: string, backend: Backend, status: Status)

  predicate NoDuplicates<T(==)>(s: seq<T>) {
    forall i, j :: 0 <= i < j < |s| ==> s[i] != s[j]
  }

  function Names(hs: seq<Handle>): (r: seq<string>)
    ensures |r| == |hs|
    ensures forall i :: 0 <= i < |hs| ==> r[i] == hs[i].name
  {
    if |hs| == 0 then [] else Names(hs[..|hs| - 1]) + [hs[|hs| - 1].name]
  }

  /** A sequence without repetitions has as many distinct elements as entries. */
  lemma {:induction false} DistinctCount<T>(s: seq<T>)
    requires NoDuplicates(s)
    ensures |set x | x in s| == |s|
  {
    if |s| > 0 {
      var front := s[..|s| - 1];
      assert NoDuplicates(front);
      DistinctCount(front);
      assert (set x | x in s) == (set x | x in front) + {s[|s| - 1]};
      assert s[|s| - 1] !in front;
    }
  }

  /** `Repository::open` succeeds for a registered name whose path the
      library can open. */
  predicate Openable(m: RepoMap, disk: map<Path, Backend>, name: string) {
    name in m && m[name] in disk
  }

  /** A freshly opened repository: library handle for its path, status Unknown. */
  predicate Opened(m: RepoMap, disk: map<Path, Backend>, h: Handle) {
    Openable(m, disk, h.name) && h.backend == disk[m[h.name]] && h.status == Unknown
  }

  /** The registered names that `Repository::open` succeeds for. */
  function OpenableNames(m: RepoMap, disk: map<Path, Backend>): (r: set<string>)
    ensures forall n :: n in r <==> Openable(m, disk, n)
  {
    set n | n in m && Openable(m, disk, n)
  }

  lemma NamesAppend(hs: seq<Handle>, h: Handle)
    ensures Names(hs + [h]) == Names(hs) + [h.name]
  {
    assert (hs + [h])[..|hs|] == hs;
  }

  lemma NoDuplicatesAppend<T>(s: seq<T>, x: T)
    requires NoDuplicates(s) && x !in s
    ensures NoDuplicates(s + [x])
  {
  }

  /** The repositories the loop opens from the names in `order`, in order. */
  function OpenedIn(m: RepoMap, disk: map<Path, Backend>, order: seq<string>): (r: seq<Handle>)
    ensures forall j :: 0 <= j < |r| ==> Opened(m, disk, r[j])
  {
    if |order| == 0 then []
    else
      var last := order[|order| - 1];
      OpenedIn(m, disk, order[..|order| - 1])
        + if Openable(m, disk, last) then [Handle(last, disk[m[last]], Unknown)] else []
  }

  /** The names in `order` that do not open, in that order. */
  function FailedIn(m: RepoMap, disk: map<Path, Backend>, order: seq<string>): (r: seq<string>)
    ensures forall n :: n in r <==> n in order && !Openable(m, disk, n)
  {
    if |order| == 0 then []
    else
      var last := order[|order| - 1];
      assert order == order[..|order| - 1] + [last];
      FailedIn(m, disk, order[..|order| - 1]) + if Openable(m, disk, last) then [] else [last]
  }

  /** The opened names are exactly the names in `order` that open. */
  lemma {:induction false} OpenedNames(m: RepoMap, disk: map<Path, Backend>, order: seq<string>)
    ensures forall n :: n in Names(OpenedIn(m, disk, order)) <==> n in order && Openable(m, disk, n)
  {
    if |order| > 0 {
      var front := order[..|order| - 1];
      var last := order[|order| - 1];
      OpenedNames(m, disk, front);
      assert order == front + [last];
      if Openable(m, disk, last) {
        NamesAppend(OpenedIn(m, disk, front), Handle(last, disk[m[last]], Unknown));
      } else {
        assert OpenedIn(m, disk, order) == OpenedIn(m, disk, front);
      }
    }
  }

  /** Every visited name is counted once, as opened or as failed. */
  lemma {:induction false} OpenSplit(m: RepoMap, disk: map<Path, Backend>, order: seq<string>)
    ensures |OpenedIn(m, disk, order)| + |FailedIn(m, disk, order)| == |order|
  {
    if |order| > 0 {
      OpenSplit(m, disk, order[..|order| - 1]);
    }
  }

  /** A name is opened at most once. */
  lemma {:induction false} OpenedDistinct(m: RepoMap, disk: map<Path, Backend>, order: seq<string>)
    requires NoDuplicates(order)
    ensures NoDuplicates(Names(OpenedIn(m, disk, order)))
  {
    if |order| > 0 {
      var front := order[..|order| - 1];
      var last := order[|order| - 1];
      assert NoDuplicates(front);
      OpenedDistinct(m, disk, front);
      if Openable(m, disk, last) {
        assert last !in front;
        OpenedNames(m, disk, front);
        var h := Handle(last, disk[m[last]], Unknown);
        NamesAppend(OpenedIn(m, disk, front), h);
        NoDuplicatesAppend(Names(OpenedIn(m, disk, front)), last);
      }
    }
  }

  lemma OpenStep(m: RepoMap, disk: map<Path, Backend>, order: seq<string>, i: nat)
    requires i < |order|
    ensures OpenedIn(m, disk, order[..i + 1])
         == OpenedIn(m, disk, order[..i])
            + if Openable(m, disk, order[i]) then [Handle(order[i], disk[m[order[i]]], Unknown)] else []
    ensures FailedIn(m, disk, order[..i + 1])
         == FailedIn(m, disk, order[..i]) + if Openable(m, disk, order[i]) then [] else [order[i]]
  {
    assert order[..i + 1][..i] == order[..i];
  }

  /** The open loop of `run_process`: visits the registry in its iteration
      order `order`, keeps each repository that opens and reports each name
      that does not. `disk` is what the library can open, by path. */
  method OpenRepositories(m: RepoMap, order: seq<string>, disk: map<Path, Backend>)
      returns (jobs: seq<Handle>, failed: seq<string>)
    requires NoDuplicates(order)
    requires forall n :: n in order <==> n in m
    ensures jobs == OpenedIn(m, disk, order)
    ensures failed == FailedIn(m, disk, order)
  {
    jobs := [];
    failed := [];
    for i := 0 to |order|
      invariant jobs == OpenedIn(m, disk, order[..i])
      invariant failed == FailedIn(m, disk, order[..i])
    {
      var name := order[i];
      OpenStep(m, disk, order, i);
      var path := m[name];
      if path in disk {
        jobs := jobs + [Handle(name, disk[path], Unknown)];
      } else {
        failed := failed + [name];
      }
    }
    assert order[..|order|] == order;
  }

  /** What the open loop adds up to: the jobs are the registered names that
      open, each once, `num_jobs` is their number, and every registered name
      is either a job or reported as failed. */
  lemma OpenCounts(m: RepoMap, order: seq<string>, disk: map<Path, Backend>)
    requires NoDuplicates(order)
    requires forall n :: n in order <==> n in m
    ensures var jobs := OpenedIn(m, disk, order);
            && (forall n :: n in Names(jobs) <==> Openable(m, disk, n))
            && NoDuplicates(Names(jobs))
            && |jobs| == |OpenableNames(m, disk)|
            && |jobs| + |FailedIn(m, disk, order)| == |m|
  {
    var jobs := OpenedIn(m, disk, order);
    OpenedNames(m, disk, order);
    OpenedDistinct(m, disk, order);
    OpenSplit(m, disk, order);
    RegistryCount(m, order);
    JobCount(m, disk, jobs);
  }

  /** The iteration order lists each registered name once. */
  lemma RegistryCount(m: RepoMap, order: seq<string>)
    requires NoDuplicates(order)
    requires forall n :: n in order <==> n in m
    ensures |order| == |m|
  {
    DistinctCount(order);
    assert (set x | x in order) == m.Keys;
  }

  /** `num_jobs` is the number of registered names that open. */
  lemma JobCount(m: RepoMap, disk: map<Path, Backend>, jobs: seq<Handle>)
    requires forall j :: 0 <= j < |jobs| ==> Opened(m, disk, jobs[j])
    requires forall n :: Openable(m, disk, n) ==> n in Names(jobs)
    requires NoDuplicates(Names(jobs))
    ensures |jobs| == |OpenableNames(m, disk)|
  {
    var names := Names(jobs);
    DistinctCount(names);
    var listed := set x | x in names;
    var openable := OpenableNames(m, disk);
    forall n | n in listed ensures n in openable {
      var j :| 0 <= j < |names| && names[j] == n;
      assert Opened(m, disk, jobs[j]);
    }
    forall n | n in openable ensures n in listed {
      assert n in names;
    }
    assert listed == openable;
  }

  /** One worker job: fetch unless `--no-fetch`, ignoring the outcome
      (`fetched` is what the library answers afterwards), then fill the
      status cache. */
  function Process(h: Handle, doFetch: bool, fetched: Backend): (r: Handle)
    ensures r.name == h.name
    ensures !doFetch ==> r.backend == h.backend
    ensures doFetch ==> r.backend == fetched
    ensures h.status.Known? ==> r.status == h.status
    ensures h.status.Unknown? ==>
              (r.status.Known? <==> r.backend.statuses.Success?)
    ensures r.status.Known? && h.status.Unknown? ==>
              forall e :: e in r.status.entries <==> e in r.backend.statuses.value
    ensures StatusQuery(r.status, r.backend) == StatusQuery(h.status, r.backend)
  {
    var backend := if doFetch then fetched else h.backend;
    StatusQueryStable(h.status, backend);
    Handle(h.name, backend, StatusQuery(h.status, backend).1)
  }

  /** The fold of the first `numJobs` arrivals into the name-ordered map:
      each arrival is inserted under its name, replacing an earlier one. */
  function Collect(received: seq<Handle>, numJobs: nat): (r: Entries<Handle>)
    requires numJobs <= |received|
    ensures Sorted(r)
    ensures |r| <= numJobs
  {
    if numJobs == 0 then []
    else
      var prev := Collect(received, numJobs - 1);
      var h := received[numJobs - 1];
      SortedMap.Insert(prev, h.name, h)
  }

  /** The reference for the fold: the last of the first `numJobs` arrivals
      named `k`, if there is one. */
  function Latest(received: seq<Handle>, numJobs: nat, k: string): Option<Handle>
    requires numJobs <= |received|
  {
    if numJobs == 0 then None
    else if received[numJobs - 1].name == k then Some(received[numJobs - 1])
    else Latest(received, numJobs - 1, k)
  }

  lemma {:induction false} LatestLastWins(received: seq<Handle>, numJobs: nat, j: nat)
    requires j < numJobs <= |received|
    requires forall l :: j < l < numJobs ==> received[l].name != received[j].name
    ensures Latest(received, numJobs, received[j].name) == Some(received[j])
  {
    if j < numJobs - 1 {
      LatestLastWins(received, numJobs - 1, j);
    }
  }

  lemma {:induction false} LatestFromArrivals(received: seq<Handle>, numJobs: nat, k: string)
    requires numJobs <= |received|
    ensures Latest(received, numJobs, k).Some? ==>
              exists i :: 0 <= i < numJobs && received[i].name == k
                          && Latest(received, numJobs, k) == Some(received[i])
  {
    if numJobs > 0 && received[numJobs - 1].name != k {
      LatestFromArrivals(received, numJobs - 1, k);
    }
  }

  lemma {:induction false} LatestAbsent(received: seq<Handle>, numJobs: nat, k: string)
    requires numJobs <= |received|
    requires forall i :: 0 <= i < numJobs ==> received[i].name != k
    ensures Latest(received, numJobs, k) == None
  {
    if numJobs > 0 {
      LatestAbsent(received, numJobs - 1, k);
    }
  }

  /** One step of the fold: the new arrival answers for its own name, every
      other name is answered as before, and the map grows by one entry
      exactly when the name is new. */
  lemma CollectStep(received: seq<Handle>, numJobs: nat, k: string)
    requires 0 < numJobs <= |received|
    ensures Get(Collect(received, numJobs), k)
         == if received[numJobs - 1].name == k then Some(received[numJobs - 1])
            else Get(Collect(received, numJobs - 1), k)
    ensures |Collect(received, numJobs)|
         == if Get(Collect(received, numJobs - 1), received[numJobs - 1].name).Some?
            then |Collect(received, numJobs - 1)|
            else |Collect(received, numJobs - 1)| + 1
  {
    var h := received[numJobs - 1];
    assert Collect(received, numJobs) == SortedMap.Insert(Collect(received, numJobs - 1), h.name, h);
  }

  /** The fold answers every lookup with the last arrival of that name. */
  lemma {:induction false} CollectGet(received: seq<Handle>, numJobs: nat, k: string)
    requires numJobs <= |received|
    ensures Get(Collect(received, numJobs), k) == Latest(received, numJobs, k)
  {
    if numJobs > 0 {
      CollectStep(received, numJobs, k);
      CollectGet(received, numJobs - 1, k);
    }
  }

  /** Under each name the map holds the last of the arrivals with that name. */
  lemma CollectLastWins(received: seq<Handle>, numJobs: nat, j: nat)
    requires j < numJobs <= |received|
    requires forall l :: j < l < numJobs ==> received[l].name != received[j].name
    ensures Get(Collect(received, numJobs), received[j].name) == Some(received[j])
  {
    CollectGet(received, numJobs, received[j].name);
    LatestLastWins(received, numJobs, j);
  }

  /** Whatever the map holds under a name is one of the arrivals with that name. */
  lemma CollectFromArrivals(received: seq<Handle>, numJobs: nat, k: string)
    requires numJobs <= |received|
    ensures Get(Collect(received, numJobs), k).Some? ==>
              exists i :: 0 <= i < numJobs && received[i].name == k
                          && Get(Collect(received, numJobs), k) == Some(received[i])
  {
    CollectGet(received, numJobs, k);
    LatestFromArrivals(received, numJobs, k);
  }

  /** The first `n` handles carry pairwise different names. */
  predicate DistinctBefore(hs: seq<Handle>, n: nat)
    requires n <= |hs|
  {
    forall i, j :: 0 <= i < j < n ==> hs[i].name != hs[j].name
  }

  /** Distinct names of handles is distinct handles' names. */
  lemma DistinctNames(hs: seq<Handle>)
    ensures DistinctBefore(hs, |hs|) <==> NoDuplicates(Names(hs))
  {
    var names := Names(hs);
    assert forall i :: 0 <= i < |hs| ==> names[i] == hs[i].name;
  }

  /** With distinct names every arrival gets its own entry, so the map has
      `num_jobs` entries. */
  lemma {:induction false} CollectSize(received: seq<Handle>, numJobs: nat)
    requires numJobs <= |received| && DistinctBefore(received, numJobs)
    ensures |Collect(received, numJobs)| == numJobs
  {
    if numJobs > 0 {
      var k := received[numJobs - 1].name;
      assert DistinctBefore(received, numJobs - 1);
      CollectSize(received, numJobs - 1);
      forall i | 0 <= i < numJobs - 1 ensures received[i].name != k {
        assert i < numJobs - 1;
      }
      LatestAbsent(received, numJobs - 1, k);
      CollectGrows(received, numJobs);
    }
  }

  /** An arrival whose name has not been seen before adds one entry. */
  lemma CollectGrows(received: seq<Handle>, numJobs: nat)
    requires 0 < numJobs <= |received|
    requires Latest(received, numJobs - 1, received[numJobs - 1].name) == None
    ensures |Collect(received, numJobs)| == |Collect(received, numJobs - 1)| + 1
  {
    var k := received[numJobs - 1].name;
    CollectGet(received, numJobs - 1, k);
    CollectStep(received, numJobs, k);
  }

  /** With distinct names the map holds every arrival under its own name. */
  lemma CollectKeepsAll(received: seq<Handle>, numJobs: nat)
    requires numJobs <= |received| && DistinctBefore(received, numJobs)
    ensures |Collect(received, numJobs)| == numJobs
    ensures forall j :: 0 <= j < numJobs ==> Get(Collect(received, numJobs), received[j].name) == Some(received[j])
  {
    CollectSize(received, numJobs);
    forall j | 0 <= j < numJobs
      ensures Get(Collect(received, numJobs), received[j].name) == Some(received[j])
    {
      CollectLastWins(received, numJobs, j);
    }
  }

  /** A name's last arrival in one sequence is its last arrival in another
      that holds the same arrivals with distinct names. */
  lemma LatestSubsumes(a: seq<Handle>, b: seq<Handle>, k: string)
    requires multiset(a) == multiset(b)
    requires DistinctBefore(b, |b|)
    ensures Latest(a, |a|, k).Some? ==> Latest(b, |b|, k) == Latest(a, |a|, k)
  {
    LatestFromArrivals(a, |a|, k);
    if Latest(a, |a|, k).Some? {
      var i :| 0 <= i < |a| && a[i].name == k && Latest(a, |a|, k) == Some(a[i]);
      assert a[i] in multiset(b);
      var j :| 0 <= j < |b| && b[j] == a[i];
      LatestLastWins(b, |b|, j);
    }
  }

  /** With distinct names, the last arrival of each name does not depend on
      the order of arrival. */
  lemma LatestIgnoresOrder(a: seq<Handle>, b: seq<Handle>, k: string)
    requires multiset(a) == multiset(b)
    requires DistinctBefore(a, |a|) && DistinctBefore(b, |b|)
    ensures Latest(a, |a|, k) == Latest(b, |b|, k)
  {
    LatestSubsumes(a, b, k);
    LatestSubsumes(b, a, k);
  }

  /** The map, and so the table, does not depend on the order in which the
      workers finish: two arrival sequences holding the same results (with
      distinct names, one per job) fold to the same map. */
  lemma CollectIgnoresArrivalOrder(a: seq<Handle>, b: seq<Handle>)
    requires multiset(a) == multiset(b)
    requires DistinctBefore(a, |a|) && DistinctBefore(b, |b|)
    ensures Collect(a, |a|) == Collect(b, |b|)
  {
    var ca, cb := Collect(a, |a|), Collect(b, |b|);
    forall k ensures Get(ca, k) == Get(cb, k) {
      CollectGet(a, |a|, k);
      CollectGet(b, |b|, k);
      LatestIgnoresOrder(a, b, k);
    }
    Extensional(ca, cb);
  }

  /** One table row: name, status, branch, distance, remote and summary. */
  datatype Row = Row(name: string, status: string, branch: string, distance: string, remote: string, summary: string)

  /** The summary column is cut to this many characters. */
  const SummaryWidth: nat := 50

  /** `chars().take(n)`: the first min(n, |s|) characters, with no marker. */
  function Truncate(s: string, n: nat): (r: string)
    ensures |r| == if |s| <= n then |s| else n
    ensures r <= s
    ensures |s| <= n ==> r == s
  {
    if |s| <= n then s else s[..n]
  }

  /** The status column: the query of the cache, rendered, or empty when the
      library fails. */
  function StatusCell(h: Handle): (r: string)
    ensures var q := StatusQuery(h.status, h.backend).0;
            && (q.Failure? ==> r == "")
            && (q.Success? ==>
                  && ('+' in r) == HasStagedFiles(q.value)
                  && ('*' in r) == HasUnstagedFiles(q.value)
                  && ('_' in r) == HasUntrackedFiles(q.value)
                  && InFixedOrder(r))
  {
    match StatusQuery(h.status, h.backend).0
    case Success(s) => StatusSymbol(s)
    case Failure(_) => ""
  }

  /** The distance column: empty exactly when there is no distance. */
  function DistanceCell(d: Option<Distance>): (r: string)
    ensures r == "" <==> d.None?
    ensures d.Some? ==> r == DistanceSymbol(d.value)
  {
    match d
    case None => ""
    case Some(v) => DistanceSymbol(v)
  }

  function RowOf(name: string, h: Handle): (r: Row)
    ensures r.name == name
    ensures r.status == StatusCell(h)
    ensures BranchName(h.backend).None? ==> r.branch == ""
    ensures BranchName(h.backend).Some? ==> r.branch == BranchName(h.backend).value
    ensures r.distance == "" <==> DistanceOf(h.backend).None?
    ensures r.distance == DistanceCell(DistanceOf(h.backend))
    ensures RemoteName(h.backend).None? ==> r.remote == ""
    ensures RemoteName(h.backend).Some? ==> r.remote == RemoteName(h.backend).value
    ensures CommitSummary(h.backend).Failure? ==> r.summary == ""
    ensures CommitSummary(h.backend).Success? ==>
              var full := CommitSummary(h.backend).value;
              && r.summary <= full
              && |r.summary| == if |full| <= SummaryWidth then |full| else SummaryWidth
  {
    var summary := match CommitSummary(h.backend)
                   case Success(s) => s
                   case Failure(_) => "";
    Row(name,
        StatusCell(h),
        BranchName(h.backend).GetOr(""),
        DistanceCell(DistanceOf(h.backend)),
        RemoteName(h.backend).GetOr(""),
        Truncate(summary, SummaryWidth))
  }

  /** The row loop: one row per map entry, in ascending name order. */
  method BuildRows(sorted: Entries<Handle>) returns (rows: seq<Row>)
    requires Sorted(sorted)
    ensures |rows| == |sorted|
    ensures forall i :: 0 <= i < |rows| ==> rows[i] == RowOf(sorted[i].0, sorted[i].1)
    ensures forall i, j :: 0 <= i < j < |rows| ==> Less(rows[i].name, rows[j].name)
  {
    rows := [];
    for i := 0 to |sorted|
      invariant |rows| == i
      invariant forall l :: 0 <= l < i ==> rows[l] == RowOf(sorted[l].0, sorted[l].1)
    {
      rows := rows + [RowOf(sorted[i].0, sorted[i].1)];
    }
  }

  /** The order in which the workers' results reach the channel: each of the
      `n` jobs exactly once. */
  predicate IsArrival(arrival: seq<nat>, n: nat) {
    && |arrival| == n
    && NoDuplicates(arrival)
    && (forall j :: 0 <= j < n ==> arrival[j] < n)
    && (forall x :: 0 <= x < n ==> x in arrival)
  }

  /** What a worker hands back for a registered name whose path opens. */
  function Worked(m: RepoMap, disk: map<Path, Backend>, name: string, doFetch: bool, fetch: Backend -> Backend): Handle
    requires Openable(m, disk, name)
  {
    Process(Handle(name, disk[m[name]], Unknown), doFetch, fetch(disk[m[name]]))
  }

  /** The received results: distinct names, each the processed repository of
      an openable name, and every openable name among them. */
  lemma Arrived(m: RepoMap, disk: map<Path, Backend>, doFetch: bool, fetch: Backend -> Backend,
                jobs: seq<Handle>, processed: seq<Handle>, arrival: seq<nat>, received: seq<Handle>)
    requires forall j :: 0 <= j < |jobs| ==> Opened(m, disk, jobs[j])
    requires NoDuplicates(Names(jobs))
    requires forall n :: n in Names(jobs) <==> Openable(m, disk, n)
    requires |processed| == |jobs|
    requires forall j :: 0 <= j < |jobs| ==> processed[j] == Process(jobs[j], doFetch, fetch(jobs[j].backend))
    requires IsArrival(arrival, |jobs|)
    requires |received| == |arrival|
    requires forall j :: 0 <= j < |arrival| ==> received[j] == processed[arrival[j]]
    ensures DistinctBefore(received, |received|)
    ensures forall j :: 0 <= j < |received| ==>
              Openable(m, disk, received[j].name) && received[j] == Worked(m, disk, received[j].name, doFetch, fetch)
    ensures AllArrived(m, disk, received)
  {
    var names := Names(jobs);
    forall j | 0 <= j < |received|
      ensures received[j].name == jobs[arrival[j]].name
      ensures Openable(m, disk, received[j].name) && received[j] == Worked(m, disk, received[j].name, doFetch, fetch)
    {
      assert Opened(m, disk, jobs[arrival[j]]);
    }
    forall i, j | 0 <= i < j < |received| ensures received[i].name != received[j].name {
      assert arrival[i] != arrival[j];
      assert names[arrival[i]] != names[arrival[j]];
    }
    forall n | Openable(m, disk, n) ensures exists j :: 0 <= j < |received| && received[j].name == n {
      assert n in names;
      var x :| 0 <= x < |names| && names[x] == n;
      assert x in arrival;
      var j :| 0 <= j < |arrival| && arrival[j] == x;
      assert received[j].name == n;
    }
  }

  /** The folded map of distinct received results: as many entries as
      results, each the result of its name, and every result's name a key. */
  lemma Tabled(m: RepoMap, disk: map<Path, Backend>, doFetch: bool, fetch: Backend -> Backend,
               received: seq<Handle>, sorted: Entries<Handle>)
    requires sorted == Collect(received, |received|)
    requires DistinctBefore(received, |received|)
    requires forall j :: 0 <= j < |received| ==>
               Openable(m, disk, received[j].name) && received[j] == Worked(m, disk, received[j].name, doFetch, fetch)
    ensures Sorted(sorted) && |sorted| == |received|
    ensures forall i :: 0 <= i < |sorted| ==>
              Openable(m, disk, sorted[i].0) && sorted[i].1 == Worked(m, disk, sorted[i].0, doFetch, fetch)
    ensures KeysCover(received, sorted)
  {
    CollectKeepsAll(received, |received|);
    forall i | 0 <= i < |sorted|
      ensures Openable(m, disk, sorted[i].0) && sorted[i].1 == Worked(m, disk, sorted[i].0, doFetch, fetch)
    {
      GetAt(sorted, i);
      CollectFromArrivals(received, |received|, sorted[i].0);
    }
    forall j | 0 <= j < |received|
      ensures exists i :: 0 <= i < |sorted| && sorted[i].0 == received[j].name
    {
      var k := received[j].name;
      assert Get(sorted, k) == Some(received[j]);
      GetKeys(sorted, k);
      var i :| 0 <= i < |sorted| && sorted[i].0 == k;
    }
  }

  /** The spawn loop: one worker job per opened repository, fetching from the
      library state that repository's handle holds. */
  method SpawnWorkers(jobs: seq<Handle>, doFetch: bool, fetch: Backend -> Backend) returns (processed: seq<Handle>)
    ensures |processed| == |jobs|
    ensures forall j :: 0 <= j < |jobs| ==> processed[j] == Process(jobs[j], doFetch, fetch(jobs[j].backend))
  {
    processed := [];
    for i := 0 to |jobs|
      invariant |processed| == i
      invariant forall j :: 0 <= j < i ==> processed[j] == Process(jobs[j], doFetch, fetch(jobs[j].backend))
    {
      processed := processed + [Process(jobs[i], doFetch, fetch(jobs[i].backend))];
    }
  }

  /** The receiving end of the channel: the finished jobs in arrival order. */
  method Receive(processed: seq<Handle>, arrival: seq<nat>) returns (received: seq<Handle>)
    requires forall j :: 0 <= j < |arrival| ==> arrival[j] < |processed|
    ensures |received| == |arrival|
    ensures forall j :: 0 <= j < |arrival| ==> received[j] == processed[arrival[j]]
  {
    received := [];
    for i := 0 to |arrival|
      invariant |received| == i
      invariant forall j :: 0 <= j < i ==> received[j] == processed[arrival[j]]
    {
      received := received + [processed[arrival[i]]];
    }
  }

  /** The table `run_process` prints: rows in strictly ascending name order,
      each an openable registered name with the row of its processed
      repository, and a row for every openable name. */
  ghost predicate IsTable(m: RepoMap, disk: map<Path, Backend>, doFetch: bool, fetch: Backend -> Backend, rows: seq<Row>) {
    && (forall i, j :: 0 <= i < j < |rows| ==> Less(rows[i].name, rows[j].name))
    && (forall i :: 0 <= i < |rows| ==>
          && Openable(m, disk, rows[i].name)
          && rows[i] == RowOf(rows[i].name, Worked(m, disk, rows[i].name, doFetch, fetch)))
    && (forall n :: Openable(m, disk, n) ==> exists i :: 0 <= i < |rows| && rows[i].name == n)
  }

  /** The rows built from the fold of distinct received results form the table. */
  lemma Tabulated(m: RepoMap, disk: map<Path, Backend>, doFetch: bool, fetch: Backend -> Backend,
                  received: seq<Handle>, sorted: Entries<Handle>, rows: seq<Row>)
    requires AllArrived(m, disk, received)
    requires Sorted(sorted)
    requires forall i :: 0 <= i < |sorted| ==>
               Openable(m, disk, sorted[i].0) && sorted[i].1 == Worked(m, disk, sorted[i].0, doFetch, fetch)
    requires KeysCover(received, sorted)
    requires |rows| == |sorted|
    requires forall i :: 0 <= i < |rows| ==> rows[i] == RowOf(sorted[i].0, sorted[i].1)
    requires forall i, j :: 0 <= i < j < |rows| ==> Less(rows[i].name, rows[j].name)
    ensures IsTable(m, disk, doFetch, fetch, rows)
  {
    forall i | 0 <= i < |rows| ensures rows[i].name == sorted[i].0 {
      assert rows[i] == RowOf(sorted[i].0, sorted[i].1);
    }
    RowsCover(m, disk, received, sorted, rows);
  }

  function RowNames(rows: seq<Row>): (r: seq<string>)
    ensures |r| == |rows|
    ensures forall i :: 0 <= i < |rows| ==> r[i] == rows[i].name
  {
    if |rows| == 0 then [] else RowNames(rows[..|rows| - 1]) + [rows[|rows| - 1].name]
  }

  /** Two strictly ascending name sequences with the same names are equal. */
  lemma {:induction false} NameOrderDetermined(a: seq<string>, b: seq<string>)
    requires forall i, j :: 0 <= i < j < |a| ==> Less(a[i], a[j])
    requires forall i, j :: 0 <= i < j < |b| ==> Less(b[i], b[j])
    requires forall n :: n in a <==> n in b
    ensures a == b
  {
    assert a != [] ==> a[0] in b;
    assert b != [] ==> b[0] in a;
    if a != [] && b != [] {
      var k :| 0 <= k < |b| && b[k] == a[0];
      var l :| 0 <= l < |a| && a[l] == b[0];
      if k > 0 && l > 0 {
        Asymmetric(b[0], a[0]);
      }
      assert a[0] == b[0];
      forall n ensures n in a[1..] <==> n in b[1..] {
        if n in a[1..] {
          var i :| 1 <= i < |a| && a[i] == n;
          Irreflexive(a[0]);
          assert n in b && n != b[0];
        }
        if n in b[1..] {
          var j :| 1 <= j < |b| && b[j] == n;
          Irreflexive(b[0]);
          assert n in a && n != a[0];
        }
      }
      NameOrderDetermined(a[1..], b[1..]);
      assert a == [a[0]] + a[1..] && b == [b[0]] + b[1..];
    }
  }

  /** Every name of one table is a name of another. */
  lemma TableNames(m: RepoMap, disk: map<Path, Backend>, doFetch: bool, fetch: Backend -> Backend,
                   a: seq<Row>, b: seq<Row>)
    requires IsTable(m, disk, doFetch, fetch, a) && IsTable(m, disk, doFetch, fetch, b)
    ensures forall n :: n in RowNames(a) ==> n in RowNames(b)
  {
    var na, nb := RowNames(a), RowNames(b);
    forall n | n in na ensures n in nb {
      var i :| 0 <= i < |na| && na[i] == n;
      assert Openable(m, disk, a[i].name);
      var j :| 0 <= j < |b| && b[j].name == n;
      assert nb[j] == n;
    }
  }

  /** The table is determined by the registry, the library and the flag:
      whatever order the workers finish in, the same rows are printed. */
  lemma TableUnique(m: RepoMap, disk: map<Path, Backend>, doFetch: bool, fetch: Backend -> Backend,
                    a: seq<Row>, b: seq<Row>)
    requires IsTable(m, disk, doFetch, fetch, a) && IsTable(m, disk, doFetch, fetch, b)
    ensures a == b
  {
    var na, nb := RowNames(a), RowNames(b);
    TableNames(m, disk, doFetch, fetch, a, b);
    TableNames(m, disk, doFetch, fetch, b, a);
    NameOrderDetermined(na, nb);
    forall i | 0 <= i < |a| ensures a[i] == b[i] {
      assert na[i] == nb[i];
    }
  }

  /** Every openable name that arrived has a row. */
  lemma RowsCover(m: RepoMap, disk: map<Path, Backend>, received: seq<Handle>, sorted: Entries<Handle>, rows: seq<Row>)
    requires AllArrived(m, disk, received)
    requires KeysCover(received, sorted)
    requires |rows| == |sorted|
    requires forall i :: 0 <= i < |rows| ==> rows[i].name == sorted[i].0
    ensures forall n :: Openable(m, disk, n) ==> exists i :: 0 <= i < |rows| && rows[i].name == n
  {
    forall n | Openable(m, disk, n) ensures exists i :: 0 <= i < |rows| && rows[i].name == n {
      var j :| 0 <= j < |received| && received[j].name == n;
      var i :| 0 <= i < |sorted| && sorted[i].0 == n;
      assert rows[i].name == n;
    }
  }

  /** Every openable registered name is among the received results. */
  ghost predicate AllArrived(m: RepoMap, disk: map<Path, Backend>, received: seq<Handle>) {
    forall n :: Openable(m, disk, n) ==> exists j :: 0 <= j < |received| && received[j].name == n
  }

  /** Every received result's name is a key of the folded map. */
  predicate KeysCover(received: seq<Handle>, sorted: Entries<Handle>) {
    forall j :: 0 <= j < |received| ==> exists i :: 0 <= i < |sorted| && sorted[i].0 == received[j].name
  }
}
