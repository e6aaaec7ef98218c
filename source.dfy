/** The alternate registry: `Sources` wraps the same name -> path map, lets
    `add` take an explicit name, and checks `rename` in the other order. */
module Source {
  import opened Wrappers
  import opened Errors
  import opened Paths
  import opened Registry
  import Config

  /** A registry entry as `get` and `iter` hand it out. */
  datatype Source = Source(name: string, path: Path)

  /** What `add(path, name)` does to the map: a given name is used verbatim,
      otherwise the last path component is; a name in use is refused. */
  function AddTo(m: RepoMap, path: Path, name: Option<string>): (r: Result<RepoMap, Error>)
    ensures name.Some? ==> (r.Success? <==> name.value !in m)
    ensures name.Some? && name.value in m ==> r == Failure(NameAlreadyExists(name.value))
    ensures name.None? && |path| == 0 ==> r == Failure(PathTooShort)
    ensures name.None? && |path| > 0 && !path[|path| - 1].utf8 ==> r == Failure(PathNotUtf8)
    ensures name.None? && |path| > 0 && path[|path| - 1].utf8 ==>
              (r.Success? <==> path[|path| - 1].text !in m)
    ensures name.None? && |path| > 0 && path[|path| - 1].utf8 && path[|path| - 1].text in m ==>
              r == Failure(NameAlreadyExists(path[|path| - 1].text))
    ensures r.Success? ==>
              var key := if name.Some? then name.value else path[|path| - 1].text;
              && r.value.Keys == m.Keys + {key}
              && r.value[key] == path
              && |r.value| == |m| + 1
              && forall k :: k in m ==> r.value[k] == m[k]
  {
    match name
    case Some(given) => Insert(m, given, path)
    case None =>
      match DefaultName(path)
      case Failure(e) => Failure(e)
      case Success(derived) => Insert(m, derived, path)
  }

  /** What `rename(name, new_name)` does to the map: the new name must be free
      (checked first) and the old one must exist. */
  function RenameIn(m: RepoMap, name: string, newName: string): (r: Result<RepoMap, Error>)
    ensures newName in m ==> r == Failure(NameAlreadyExists(newName))
    ensures newName !in m && name !in m ==> r == Failure(NameDoesNotExist(name))
    ensures r.Success? <==> name in m && newName !in m
    ensures r.Success? ==>
              && r.value.Keys == m.Keys - {name} + {newName}
              && r.value[newName] == m[name]
              && |r.value| == |m|
              && forall k :: k in m && k != name ==> r.value[k] == m[k]
  {
    if newName in m then Failure(NameAlreadyExists(newName))
    else if name !in m then Failure(NameDoesNotExist(name))
    else Success(Move(m, name, newName))
  }

  /** The two registries' renames differ only when the old name is missing and
      the new one is taken: Config names the missing one, Sources the taken one. */
  lemma RenameCheckOrder(m: RepoMap, name: string, newName: string)
    ensures name !in m && newName in m ==>
              && Config.RenameIn(m, name, newName) == Failure(NameDoesNotExist(name))
              && RenameIn(m, name, newName) == Failure(NameAlreadyExists(newName))
    ensures !(name !in m && newName in m) ==>
              Config.RenameIn(m, name, newName) == RenameIn(m, name, newName)
  {
  }

  /** The entries `iter` yields, one per binding of the map. */
  function EntriesOf(m: RepoMap): (r: set<Source>)
    ensures |r| == |m|
    ensures forall s :: s in r <==> s.name in m && m[s.name] == s.path
  {
    EntriesCount(m);
    set k | k in m :: Source(k, m[k])
  }

  lemma {:induction false} EntriesCount(m: RepoMap)
    ensures |set k | k in m :: Source(k, m[k])| == |m|
  {
    if |m| > 0 {
      var k :| k in m;
      var rest := Without(m, k);
      EntriesCount(rest);
      var all := set j | j in m :: Source(j, m[j]);
      var others := set j | j in rest :: Source(j, rest[j]);
      assert all == others + {Source(k, m[k])};
      assert Source(k, m[k]) !in others;
    }
  }

  class Sources {
    /** The wrapped HashMap (`self.0`). */
    var entries: RepoMap

    /** `Sources::new`: an empty registry. */
    constructor ()
      ensures entries == map[]
    {
      entries := map[];
    }

    function Get(name: string): (r: Option<Source>)
      reads this
      ensures r.Some? <==> name in entries
      ensures r.Some? ==> r.value.name == name && r.value.path == entries[name]
    {
      if name in entries then Some(Source(name, entries[name])) else None
    }

    function Iter(): (r: set<Source>)
      reads this
      ensures |r| == |entries|
      ensures forall s :: s in r <==> s.name in entries && entries[s.name] == s.path
    {
      EntriesOf(entries)
    }

    method Add(path: Path, name: Option<string>) returns (r: Result<(), Error>)
      modifies this
      ensures AddTo(old(entries), path, name).Success? ==>
                r == Success(()) && entries == AddTo(old(entries), path, name).value
      ensures AddTo(old(entries), path, name).Failure? ==>
                r == Failure(AddTo(old(entries), path, name).error) && entries == old(entries)
    {
      var key: string;
      match name {
        case Some(given) =>
          key := given;
        case None =>
          var derived := DefaultName(path);
          if derived.Failure? {
            return Failure(derived.error);
          }
          key := derived.value;
      }
      if key in entries {
        r := Failure(NameAlreadyExists(key));
      } else {
        entries := entries[key := path];
        r := Success(());
      }
    }

    /** Hands back the removed path; a missing name is an error. */
    method Remove(name: string) returns (r: Result<Path, Error>)
      modifies this
      ensures r.Success? <==> name in old(entries)
      ensures r.Success? ==> r.value == old(entries)[name]
      ensures r.Failure? ==> r.error == NameDoesNotExist(name)
      ensures entries == Without(old(entries), name)
    {
      var removed := if name in entries then Some(entries[name]) else None;
      entries := entries - {name};
      if removed.None? {
        return Failure(NameDoesNotExist(name));
      }
      r := Success(removed.value);
    }

    method Rename(name: string, newName: string) returns (r: Result<(), Error>)
      modifies this
      ensures RenameIn(old(entries), name, newName).Success? ==>
                r == Success(()) && entries == RenameIn(old(entries), name, newName).value
      ensures RenameIn(old(entries), name, newName).Failure? ==>
                r == Failure(RenameIn(old(entries), name, newName).error) && entries == old(entries)
    {
      if newName in entries {
        return Failure(NameAlreadyExists(newName));
      }
      var removed := if name in entries then Some(entries[name]) else None;
      entries := entries - {name};
      if removed.None? {
        return Failure(NameDoesNotExist(name));
      }
      entries := entries[newName := removed.value];
      r := Success(());
    }
  }
}
