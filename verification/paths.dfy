/** Paths as the navigator uses them: a `PathBuf` built from "." by pushing
    and popping single directory-entry names. A path is its list of
    components; "." is `["."]` and the empty path (the parent of ".") is `[]`.
 */
module Paths {

  type Path = seq<string>

  /** The path the navigator starts in, `PathBuf::from(".")`. */
  const Dot: Path := ["."]

  /** `PathBuf::push` of one entry name. A non-empty name becomes the new last
      component. Pushing the empty name only adds a trailing separator, which
      leaves the components as they were. The listing reports a name that is
      not valid UTF-8 as the empty name. */
  function Push(p: Path, name: string): (r: Path)
    ensures name == "" ==> r == p
    ensures name != "" ==> |r| == |p| + 1 && r[..|p|] == p && r[|p|] == name
  {
    if name == "" then p else p + [name]
  }

  /** What `PathBuf::pop` leaves behind, and whether it removed anything. */
  datatype Popped = Popped(path: Path, changed: bool)

  /** `PathBuf::pop`: drops the last component and reports true, or reports
      false and leaves the path alone when there is no component to drop. */
  function Pop(p: Path): (r: Popped)
    ensures r.changed <==> |p| > 0
    ensures r.changed ==> r.path + [p[|p| - 1]] == p
    ensures !r.changed ==> r.path == p
  {
    if |p| == 0 then Popped(p, false) else Popped(p[..|p| - 1], true)
  }

  /** Popping undoes pushing a non-empty name: going into a directory and back
      returns to the same path. Pushing the empty name changes nothing, so a
      pop after it goes to the parent instead. */
  lemma PopPush(p: Path, name: string)
    ensures name != "" ==> Pop(Push(p, name)) == Popped(p, true)
    ensures name == "" ==> Pop(Push(p, name)) == Pop(p)
  {
    if name != "" {
      assert Push(p, name)[..|p|] == p;
    }
  }

  /** The parent of "." is the empty path, and the empty path has no parent. */
  lemma PopDot()
    ensures Pop(Dot) == Popped([], true)
    ensures Pop([]) == Popped([], false)
  {
  }
}
