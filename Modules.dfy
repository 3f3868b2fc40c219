/** The module a changed file path is reported under, and the set of modules
    of a whole list of paths (cli.py:69-78, git-history-tool.py:56-65). */
module Modules {
  import opened Wrappers
  import opened Text

  const Slash: char := '/'

  /** A path without any separator: the one `str.index` raises on. */
  ghost predicate NoSlash(path: string)
  {
    forall k :: 0 <= k < |path| ==> path[k] != Slash
  }

  /** `str.index` raising on a path that has no separator at all. */
  datatype PathError = MissingSeparator(path: string)

  /** The per-path expression of `show()`: with fewer than three separators the
      text before the first one (raising when there is none), otherwise
      `'/'.join(path.split('/', deep)[0:deep])`. */
  function ModuleOf(path: string, deep: int): (r: Result<string, PathError>)
    ensures r.Err? <==> NoSlash(path)
    ensures r.Err? ==> r.error == MissingSeparator(path)
  {
    CountZero(path, Slash);
    var count := Count(path, Slash);
    if count < 3 then
      if count == 0 then Err(MissingSeparator(path))
      else Ok(path[..IndexOf(path, Slash)])
    else Ok(Join(Take(PySplit(path, Slash, deep), deep), Slash))
  }

  /** `m` is the part of `path` before its first separator. */
  ghost predicate FirstSegment(path: string, m: string)
  {
    |m| < |path| && m == path[..|m|] && path[|m|] == Slash && Count(m, Slash) == 0
  }

  /** How many pieces `split(s, deep)[0:deep]` keeps of a path with `count`
      separators, negative `deep` included (Python slicing from the end). */
  function Kept(count: nat, deep: int): nat
  {
    if deep >= 0 then Min(deep, count + 1) else Max(0, count + 1 + deep)
  }

  /** A path with three or more separators maps to its first `Kept` segments rejoined. */
  lemma ModuleSegments(path: string, deep: int)
    requires Count(path, Slash) >= 3
    ensures ModuleOf(path, deep) == Ok(Join(Split(path, Slash)[..Kept(Count(path, Slash), deep)], Slash))
  {
    if deep >= 0 {
      SplitTake(path, Slash, deep);
    } else {
      assert PySplit(path, Slash, deep) == Split(path, Slash);
    }
  }

  /** A path with one or two separators maps to the text before the first one. */
  lemma ModuleShallow(path: string, deep: int)
    requires 1 <= Count(path, Slash) < 3
    ensures ModuleOf(path, deep).Ok? && FirstSegment(path, ModuleOf(path, deep).value)
  {
    var i := IndexOf(path, Slash);
    CountZero(path[..i], Slash);
  }

  /** With three or more separators and a positive depth: the first
      `min(deep, count + 1)` segments, a prefix of the path holding one separator
      fewer than it keeps segments, cut just before the next separator, or the
      whole path once `deep` reaches the number of segments. */
  lemma ModuleDeep(path: string, deep: int)
    requires Count(path, Slash) >= 3 && deep >= 1
    ensures var count := Count(path, Slash);
      var r := ModuleOf(path, deep);
      && r.Ok?
      && r.value == Join(Split(path, Slash)[..Min(deep, count + 1)], Slash)
      && r.value <= path
      && Count(r.value, Slash) == Min(deep, count + 1) - 1
      && (deep <= count ==> |r.value| < |path| && path[|r.value|] == Slash)
      && (deep > count ==> r.value == path)
  {
    ModuleSegments(path, deep);
    JoinSplitPrefix(path, Slash, Min(deep, Count(path, Slash) + 1));
  }

  /** Whatever the depth, a module is a prefix of its path. */
  lemma ModuleIsPrefix(path: string, deep: int)
    ensures ModuleOf(path, deep).Ok? ==> ModuleOf(path, deep).value <= path
  {
    var count := Count(path, Slash);
    if count >= 3 {
      ModuleSegments(path, deep);
      var k := Kept(count, deep);
      if k >= 1 {
        JoinSplitPrefix(path, Slash, k);
      } else {
        assert Split(path, Slash)[..k] == [];
      }
    }
  }

  /** With `deep = 1` every path that has a separator maps to its first segment,
      on both sides of the three-separator threshold. */
  lemma ModuleDepthOne(path: string)
    requires Count(path, Slash) >= 1
    ensures ModuleOf(path, 1).Ok? && FirstSegment(path, ModuleOf(path, 1).value)
  {
    if Count(path, Slash) < 3 {
      ModuleShallow(path, 1);
    } else {
      ModuleDeep(path, 1);
    }
  }

  /** The fixed depth of git-history-tool.py: three or more separators give the
      first three segments, a prefix of the path with exactly two separators that
      stops just before the third one. */
  lemma ModuleDepthThree(path: string)
    requires Count(path, Slash) >= 3
    ensures var r := ModuleOf(path, 3);
      && r.Ok? && r.value <= path && Count(r.value, Slash) == 2
      && |r.value| < |path| && path[|r.value|] == Slash
  {
    ModuleDeep(path, 3);
  }

  /** `ModuleOf` at a fixed depth, as the function `show()` applies to every path. */
  function ModuleAt(deep: int): string -> Result<string, PathError>
  {
    (path: string) => ModuleOf(path, deep)
  }
}
