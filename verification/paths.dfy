/** Paths as the engine receives them once `PurePath(...).parts` has split
    them: a sequence of segments, an absolute path starting with the anchor
    segment "/". */
module Paths {

  type Path = seq<string>

  const Anchor: string := "/"

  /** True when p is the anchor alone, the one path `PurePath` cannot
      shorten any further. */
  predicate IsAnchorOnly(p: Path) {
    |p| == 1 && p[0] == Anchor
  }

  /** `PurePath.name`: the final segment, or "" for the empty path and for
      the anchor alone. */
  function Name(p: Path): string {
    if |p| == 0 || IsAnchorOnly(p) then "" else p[|p| - 1]
  }

  /** `PurePath.parent`: all but the final segment; the empty path and the
      anchor alone are their own parents. */
  function Parent(p: Path): Path {
    if |p| == 0 || IsAnchorOnly(p) then p else p[..|p| - 1]
  }

  /** `PurePath.joinpath(name)` for a single segment; joining "" changes
      nothing. */
  function Join(dir: Path, name: string): (r: Path)
    ensures name == "" ==> r == dir
    ensures name != "" ==> |r| == |dir| + 1 && r[..|dir|] == dir && r[|dir|] == name
  {
    if name == "" then dir else dir + [name]
  }

  /** `p.parent / p.name == p` for every path whose final segment is not
      empty (the splitter never produces an empty segment). */
  lemma JoinParentName(p: Path)
    requires |p| > 0 ==> p[|p| - 1] != ""
    ensures Join(Parent(p), Name(p)) == p
    ensures |Parent(p)| <= |p|
    ensures Parent(p) <= p
  {
    if |p| > 0 && !IsAnchorOnly(p) {
      assert p[..|p| - 1] + [p[|p| - 1]] == p;
    }
  }
}
