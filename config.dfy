/** The repository registry wired into the program: `Config` holds the
    name -> path map and changes it in place. */
module Config {
  import opened Wrappers
  import opened Errors
  import opened Paths
  import opened Registry

  /** What `add_repository(path)` does to the map: the name is the last path
      component, and a name already in use is refused. */
  function AddTo(m: RepoMap, path: Path): (r: Result<RepoMap, Error>)
    ensures |path| == 0 ==> r == Failure(PathTooShort)
    ensures |path| > 0 && !path[|path| - 1].utf8 ==> r == Failure(PathNotUtf8)
    ensures |path| > 0 && path[|path| - 1].utf8 && path[|path| - 1].text in m ==>
              r == Failure(NameAlreadyExists(path[|path| - 1].text))
    ensures r.Success? <==> |path| > 0 && path[|path| - 1].utf8 && path[|path| - 1].text !in m
    ensures r.Success? ==>
              var name := path[|path| - 1].text;
              && r.value.Keys == m.Keys + {name}
              && r.value[name] == path
              && |r.value| == |m| + 1
              && forall k :: k in m ==> r.value[k] == m[k]
  {
    match DefaultName(path)
    case Failure(e) => Failure(e)
    case Success(name) => Insert(m, name, path)
  }

  /** What `rename_repository(name, new_name)` does to the map: the old name
      must exist (checked first) and the new one must be free. */
  function RenameIn(m: RepoMap, name: string, newName: string): (r: Result<RepoMap, Error>)
    ensures name !in m ==> r == Failure(NameDoesNotExist(name))
    ensures name in m && newName in m ==> r == Failure(NameAlreadyExists(newName))
    ensures r.Success? <==> name in m && newName !in m
    ensures r.Success? ==>
              && r.value.Keys == m.Keys - {name} + {newName}
              && r.value[newName] == m[name]
              && |r.value| == |m|
              && forall k :: k in m && k != name ==> r.value[k] == m[k]
  {
    if name !in m then Failure(NameDoesNotExist(name))
    else if newName in m then Failure(NameAlreadyExists(newName))
    else Success(Move(m, name, newName))
  }

  class Config {
    /** The `repositories` HashMap. */
    var repositories: RepoMap

    /** `Config::new`: an empty registry. */
    constructor ()
      ensures repositories == map[]
    {
      repositories := map[];
    }

    method AddRepository(path: Path) returns (r: Result<(), Error>)
      modifies this
      ensures AddTo(old(repositories), path).Success? ==>
                r == Success(()) && repositories == AddTo(old(repositories), path).value
      ensures AddTo(old(repositories), path).Failure? ==>
                r == Failure(AddTo(old(repositories), path).error) && repositories == old(repositories)
    {
      var name := DefaultName(path);
      if name.Failure? {
        return Failure(name.error);
      }
      if name.value !in repositories {
        repositories := repositories[name.value := path];
        r := Success(());
      } else {
        r := Failure(NameAlreadyExists(name.value));
      }
    }

    /** Reports whether `name` was bound; afterwards it is not. */
    method RemoveRepositoryByName(name: string) returns (removed: bool)
      modifies this
      ensures removed <==> name in old(repositories)
      ensures repositories == Without(old(repositories), name)
    {
      removed := name in repositories;
      repositories := repositories - {name};
    }

    method RenameRepository(name: string, newName: string) returns (r: Result<(), Error>)
      modifies this
      ensures RenameIn(old(repositories), name, newName).Success? ==>
                r == Success(()) && repositories == RenameIn(old(repositories), name, newName).value
      ensures RenameIn(old(repositories), name, newName).Failure? ==>
                r == Failure(RenameIn(old(repositories), name, newName).error)
                && repositories == old(repositories)
    {
      if name !in repositories {
        r := Failure(NameDoesNotExist(name));
      } else if newName in repositories {
        r := Failure(NameAlreadyExists(newName));
      } else {
        var value := repositories[name];
        repositories := repositories - {name};
        repositories := repositories[newName := value];
        r := Success(());
      }
    }
  }
}
