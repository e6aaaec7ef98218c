/** Filesystem paths as the registry sees them: a sequence of components. */
module Paths {
  import opened Wrappers
  import opened Errors

  /** One component of a path, as `Path::components` yields it. `text` is its
      content; `utf8` says whether its OS string is valid UTF-8, which is all
      that `OsStr::to_str` checks. */
  datatype Component = Component(text: string, utf8: bool)

  /** A path, already split into its components. */
  type Path = seq<Component>

  /** `OsStr::to_str`: the component's text, or None when it is not UTF-8. */
  function ToStr(c: Component): (r: Option<string>)
    ensures r.Some? <==> c.utf8
    ensures r.Some? ==> r.value == c.text
  {
    if c.utf8 then Some(c.text) else None
  }

  /** The name a repository gets when none is given: the text of the last
      component of its path. */
  function DefaultName(path: Path): (r: Result<string, Error>)
    ensures r == Failure(PathTooShort) <==> |path| == 0
    ensures r == Failure(PathNotUtf8) <==> |path| > 0 && !path[|path| - 1].utf8
    ensures r.Success? <==> |path| > 0 && path[|path| - 1].utf8
    ensures r.Success? ==> r.value == path[|path| - 1].text
  {
    if |path| == 0 then
      Failure(PathTooShort)
    else
      match ToStr(path[|path| - 1])
      case None => Failure(PathNotUtf8)
      case Some(name) => Success(name)
  }
}
