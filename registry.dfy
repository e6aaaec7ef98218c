/** The name -> path map that both registry variants (Config and Sources)
    wrap, and the HashMap operations they apply to it. */
module Registry {
  import opened Wrappers
  import opened Errors
  import opened Paths

  /** HashMap<String, PathBuf>. */
  type RepoMap = map<string, Path>

  /** `contains_key` followed by `insert`: a free name is bound to `path`, a
      taken one is refused and nothing changes. */
  function Insert(m: RepoMap, name: string, path: Path): (r: Result<RepoMap, Error>)
    ensures r.Success? <==> name !in m
    ensures r.Failure? ==> r.error == NameAlreadyExists(name)
    ensures r.Success? ==> r.value.Keys == m.Keys + {name} && r.value[name] == path
    ensures r.Success? ==> forall k :: k in m ==> r.value[k] == m[k]
    ensures r.Success? ==> |r.value| == |m| + 1
  {
    if name in m then Failure(NameAlreadyExists(name)) else Success(m[name := path])
  }

  /** The map that `HashMap::remove(name)` leaves behind. */
  function Without(m: RepoMap, name: string): (r: RepoMap)
    ensures r.Keys == m.Keys - {name}
    ensures forall k :: k in r ==> r[k] == m[k]
    ensures |r| == if name in m then |m| - 1 else |m|
  {
    m - {name}
  }

  /** `remove(from)` followed by `insert(to, value)`, for a bound `from` and a
      free `to`: the path moves to the new name and the size is kept. */
  function Move(m: RepoMap, from: string, to: string): (r: RepoMap)
    requires from in m && to !in m
    ensures r.Keys == m.Keys - {from} + {to}
    ensures r[to] == m[from]
    ensures forall k :: k in m && k != from ==> r[k] == m[k]
    ensures |r| == |m|
  {
    Without(m, from)[to := m[from]]
  }
}
