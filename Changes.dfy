/** What `show()` computes over a whole list of commits, and how it relates to
    the per-author groups, stated once for both scripts: a commit is anything
    with a list of changed paths (`files`) and an author key (`author`). */
module Changes {
  import opened Wrappers
  import opened Text
  import opened Modules
  import opened Gather
  import opened Grouping

  const NewLine: char := '\n'

  /** The changed paths of all commits, commit by commit, in the order `show()` visits them. */
  function AllFiles<C>(cs: seq<C>, files: C -> seq<string>): seq<string>
  {
    if cs == [] then [] else AllFiles(cs[..|cs| - 1], files) + files(cs[|cs| - 1])
  }

  /** A path is visited exactly when some commit changed it. */
  lemma {:induction false} AllFilesMembers<C>(cs: seq<C>, files: C -> seq<string>)
    ensures forall f :: f in AllFiles(cs, files) <==> exists i :: 0 <= i < |cs| && f in files(cs[i])
  {
    if cs != [] {
      var init := cs[..|cs| - 1];
      AllFilesMembers(init, files);
      assert forall i :: 0 <= i < |init| ==> init[i] == cs[i];
    }
  }

  /** The module set `show()` builds, or the error of the first path without a separator. */
  function ModulesOf<C>(cs: seq<C>, files: C -> seq<string>, deep: int): Result<set<string>, PathError>
  {
    Collect(AllFiles(cs, files), ModuleAt(deep))
  }

  /** `show()` fails exactly when a visited path has no separator, and then
      with the first such path, in commit-then-file order. */
  lemma ModulesError<C>(cs: seq<C>, files: C -> seq<string>, deep: int)
    ensures var paths := AllFiles(cs, files);
      ModulesOf(cs, files, deep).Ok? <==> forall k :: 0 <= k < |paths| ==> !NoSlash(paths[k])
    ensures var paths := AllFiles(cs, files);
      ModulesOf(cs, files, deep).Err? ==>
        exists k :: 0 <= k < |paths| && NoSlash(paths[k])
          && ModulesOf(cs, files, deep).error == MissingSeparator(paths[k])
          && forall j :: 0 <= j < k ==> !NoSlash(paths[j])
  {
    CollectError(AllFiles(cs, files), ModuleAt(deep));
  }

  /** When `show()` succeeds its modules are exactly those of the visited paths,
      at most one per path. */
  lemma ModulesMembers<C>(cs: seq<C>, files: C -> seq<string>, deep: int)
    requires ModulesOf(cs, files, deep).Ok?
    ensures var paths := AllFiles(cs, files);
      forall m :: m in ModulesOf(cs, files, deep).value <==>
        exists k :: 0 <= k < |paths| && ModuleOf(paths[k], deep) == Ok(m)
    ensures |ModulesOf(cs, files, deep).value| <= |AllFiles(cs, files)|
  {
    var paths := AllFiles(cs, files);
    var r := ModulesOf(cs, files, deep);
    CollectMembers(paths, ModuleAt(deep));
    CollectBound(paths, ModuleAt(deep));
    forall m ensures m in r.value <==> exists k :: 0 <= k < |paths| && ModuleOf(paths[k], deep) == Ok(m) {
      if m in r.value {
        var k :| 0 <= k < |paths| && ModuleAt(deep)(paths[k]) == Ok(m);
        assert ModuleOf(paths[k], deep) == Ok(m);
      }
      if exists k :: 0 <= k < |paths| && ModuleOf(paths[k], deep) == Ok(m) {
        var k :| 0 <= k < |paths| && ModuleOf(paths[k], deep) == Ok(m);
        assert ModuleAt(deep)(paths[k]) == Ok(m);
      }
    }
  }

  /** `show()` succeeds exactly when every changed path has a separator. */
  lemma ModulesOk<C>(cs: seq<C>, files: C -> seq<string>, deep: int)
    ensures ModulesOf(cs, files, deep).Ok? <==> forall f :: f in AllFiles(cs, files) ==> !NoSlash(f)
  {
    ModulesError(cs, files, deep);
  }

  /** When `show()` succeeds, every changed path has its module among the
      result, and every module in it is the prefix of some changed path that
      maps to it. */
  lemma ModulesCover<C>(cs: seq<C>, files: C -> seq<string>, deep: int)
    requires ModulesOf(cs, files, deep).Ok?
    ensures forall i, f :: 0 <= i < |cs| && f in files(cs[i]) ==>
      ModuleOf(f, deep).Ok? && ModuleOf(f, deep).value in ModulesOf(cs, files, deep).value
    ensures forall m :: m in ModulesOf(cs, files, deep).value ==>
      exists i, f :: 0 <= i < |cs| && f in files(cs[i]) && ModuleOf(f, deep) == Ok(m) && m <= f
  {
    var paths := AllFiles(cs, files);
    ModulesMembers(cs, files, deep);
    ModulesOk(cs, files, deep);
    AllFilesMembers(cs, files);
    forall i, f | 0 <= i < |cs| && f in files(cs[i])
      ensures ModuleOf(f, deep).Ok? && ModuleOf(f, deep).value in ModulesOf(cs, files, deep).value
    {
      assert f in paths;
      var k :| 0 <= k < |paths| && paths[k] == f;
    }
    forall m | m in ModulesOf(cs, files, deep).value
      ensures exists i, f :: 0 <= i < |cs| && f in files(cs[i]) && ModuleOf(f, deep) == Ok(m) && m <= f
    {
      var k :| 0 <= k < |paths| && ModuleOf(paths[k], deep) == Ok(m);
      assert paths[k] in paths;
      var i :| 0 <= i < |cs| && paths[k] in files(cs[i]);
      ModuleIsPrefix(paths[k], deep);
    }
  }

  /** Whether `show()` succeeds, and with what modules, depends only on which
      commits it holds, not on their order or repetition. */
  lemma ModulesPermute<C>(a: seq<C>, b: seq<C>, files: C -> seq<string>, deep: int)
    requires forall c :: c in a <==> c in b
    ensures ModulesOf(a, files, deep).Ok? <==> ModulesOf(b, files, deep).Ok?
    ensures ModulesOf(a, files, deep).Ok? ==> ModulesOf(a, files, deep).value == ModulesOf(b, files, deep).value
  {
    AllFilesMembers(a, files);
    AllFilesMembers(b, files);
    forall f ensures f in AllFiles(a, files) <==> f in AllFiles(b, files) {
      if f in AllFiles(a, files) {
        var i :| 0 <= i < |a| && f in files(a[i]);
        assert a[i] in b;
        var j :| 0 <= j < |b| && b[j] == a[i];
      }
      if f in AllFiles(b, files) {
        var j :| 0 <= j < |b| && f in files(b[j]);
        assert b[j] in a;
        var i :| 0 <= i < |a| && a[i] == b[j];
      }
    }
    CollectSameElements(AllFiles(a, files), AllFiles(b, files), ModuleAt(deep));
  }

  /** The loops of `show()`: every changed path of every commit, in order, its
      module added to a set, stopping at the first path that has no separator. */
  method CollectModules<C>(cs: seq<C>, files: C -> seq<string>, deep: int) returns (r: Result<set<string>, PathError>)
    ensures r == ModulesOf(cs, files, deep)
  {
    var modules: set<string> := {};
    var i := 0;
    while i < |cs|
      invariant 0 <= i <= |cs|
      invariant ModulesOf(cs[..i], files, deep) == Ok(modules)
    {
      var step := CollectPaths(AllFiles(cs[..i], files), files(cs[i]), deep, modules);
      AllFilesStep(cs, files, i);
      if step.Err? {
        CommitStops(cs, files, i, deep);
        return step;
      }
      modules := step.value;
      i := i + 1;
    }
    assert cs[..i] == cs;
    return Ok(modules);
  }

  /** The inner loop of `show()`: the paths of one commit, behind the paths
      `front` already visited, whose modules are `acc`. */
  method CollectPaths(front: seq<string>, changed: seq<string>, deep: int, acc: set<string>)
    returns (r: Result<set<string>, PathError>)
    requires Collect(front, ModuleAt(deep)) == Ok(acc)
    ensures r == Collect(front + changed, ModuleAt(deep))
  {
    var modules := acc;
    var j := 0;
    assert front + changed[..0] == front;
    while j < |changed|
      invariant 0 <= j <= |changed|
      invariant Collect(front + changed[..j], ModuleAt(deep)) == Ok(modules)
    {
      SeenStep(front, changed, j);
      CollectStep(front + changed[..j], changed[j], ModuleAt(deep));
      match ModuleOf(changed[j], deep)
      case Err(e) =>
        PathStops(front, changed, j, deep);
        return Err(e);
      case Ok(m) =>
        modules := modules + {m};
      j := j + 1;
    }
    assert changed[..j] == changed;
    return Ok(modules);
  }

  /** The paths visited after the `i`-th commit are those before it and its own. */
  lemma AllFilesStep<C>(cs: seq<C>, files: C -> seq<string>, i: nat)
    requires i < |cs|
    ensures AllFiles(cs[..i + 1], files) == AllFiles(cs[..i], files) + files(cs[i])
  {
    assert cs[..i + 1][..i] == cs[..i];
  }

  /** One more path of the current commit has been visited. */
  lemma SeenStep(front: seq<string>, paths: seq<string>, j: nat)
    requires j < |paths|
    ensures front + paths[..j] + [paths[j]] == front + paths[..j + 1]
  {
    assert paths[..j + 1] == paths[..j] + [paths[j]];
  }

  /** A path whose error has been met ends the loop over its commit with that error. */
  lemma PathStops(front: seq<string>, changed: seq<string>, j: nat, deep: int)
    requires j < |changed| && Collect(front + changed[..j + 1], ModuleAt(deep)).Err?
    ensures Collect(front + changed, ModuleAt(deep)) == Collect(front + changed[..j + 1], ModuleAt(deep))
  {
    PrefixAppend(front, changed, j + 1);
    CollectErrorStays(front + changed[..j + 1], front + changed, ModuleAt(deep));
  }

  lemma PrefixAppend(front: seq<string>, changed: seq<string>, n: nat)
    requires n <= |changed|
    ensures front + changed[..n] <= front + changed
  {
    var p := front + changed[..n];
    forall k | 0 <= k < |p| ensures p[k] == (front + changed)[k] {
      if k >= |front| {
        assert p[k] == changed[k - |front|];
      }
    }
  }

  /** A commit whose paths end in an error ends the whole loop with that error. */
  lemma CommitStops<C>(cs: seq<C>, files: C -> seq<string>, i: nat, deep: int)
    requires i < |cs| && ModulesOf(cs[..i + 1], files, deep).Err?
    ensures ModulesOf(cs, files, deep) == ModulesOf(cs[..i + 1], files, deep)
  {
    AllFilesPrefix(cs, files, i + 1);
    CollectErrorStays(AllFiles(cs[..i + 1], files), AllFiles(cs, files), ModuleAt(deep));
  }

  lemma {:induction false} AllFilesPrefix<C>(cs: seq<C>, files: C -> seq<string>, n: nat)
    requires n <= |cs|
    ensures AllFiles(cs[..n], files) <= AllFiles(cs, files)
    decreases |cs|
  {
    if n < |cs| {
      var init := cs[..|cs| - 1];
      assert cs[..n] == init[..n];
      AllFilesPrefix(init, files, n);
    } else {
      assert cs[..n] == cs;
    }
  }

  /** The files of an author's group are the files of that author's commits. */
  lemma GroupFiles<C>(cs: seq<C>, files: C -> seq<string>, author: C -> string, a: string)
    ensures forall f :: f in AllFiles(Group(cs, author, a), files) <==>
      exists i :: 0 <= i < |cs| && author(cs[i]) == a && f in files(cs[i])
  {
    var g := Group(cs, author, a);
    AllFilesMembers(g, files);
    GroupMembers(cs, author, a);
    forall f | f in AllFiles(g, files) ensures exists i :: 0 <= i < |cs| && author(cs[i]) == a && f in files(cs[i]) {
      var p :| 0 <= p < |g| && f in files(g[p]);
      assert g[p] in g;
      var i :| 0 <= i < |cs| && cs[i] == g[p];
    }
    forall f | exists i :: 0 <= i < |cs| && author(cs[i]) == a && f in files(cs[i]) ensures f in AllFiles(g, files) {
      var i :| 0 <= i < |cs| && author(cs[i]) == a && f in files(cs[i]);
      assert cs[i] in cs;
      var p :| 0 <= p < |g| && g[p] == cs[i];
    }
  }

  /** Every author's summary can be shown exactly when the whole commit list can. */
  lemma GroupsShowable<C>(cs: seq<C>, files: C -> seq<string>, author: C -> string, deep: int)
    ensures (forall i :: 0 <= i < |Keys(cs, author)| ==>
      ModulesOf(Group(cs, author, Keys(cs, author)[i]), files, deep).Ok?) <==> ModulesOf(cs, files, deep).Ok?
  {
    var ks := Keys(cs, author);
    if ModulesOf(cs, files, deep).Ok? {
      forall i | 0 <= i < |ks| ensures ModulesOf(Group(cs, author, ks[i]), files, deep).Ok? {
        GroupShowable(cs, files, author, ks[i], deep);
      }
    } else {
      SpoiledKey(cs, files, author, deep);
    }
  }

  /** When the whole list cannot be shown, some author's summary cannot. */
  lemma SpoiledKey<C>(cs: seq<C>, files: C -> seq<string>, author: C -> string, deep: int)
    requires ModulesOf(cs, files, deep).Err?
    ensures exists p :: 0 <= p < |Keys(cs, author)| && ModulesOf(Group(cs, author, Keys(cs, author)[p]), files, deep).Err?
  {
    ModulesOk(cs, files, deep);
    AllFilesMembers(cs, files);
    var f :| f in AllFiles(cs, files) && NoSlash(f);
    var i :| 0 <= i < |cs| && f in files(cs[i]);
    KeysMembers(cs, author);
    var ks := Keys(cs, author);
    assert author(cs[i]) in ks;
    var p :| 0 <= p < |ks| && ks[p] == author(cs[i]);
    GroupNotShowable(cs, files, author, i, f, deep);
    assert ModulesOf(Group(cs, author, ks[p]), files, deep).Err?;
  }

  /** A commit with a path that has no separator spoils its author's summary. */
  lemma GroupNotShowable<C>(cs: seq<C>, files: C -> seq<string>, author: C -> string, i: nat, f: string, deep: int)
    requires i < |cs| && f in files(cs[i]) && NoSlash(f)
    ensures ModulesOf(Group(cs, author, author(cs[i])), files, deep).Err?
  {
    GroupFiles(cs, files, author, author(cs[i]));
    assert f in AllFiles(Group(cs, author, author(cs[i])), files);
    ModulesOk(Group(cs, author, author(cs[i])), files, deep);
  }

  /** An author's summary can be shown when the whole commit list can. */
  lemma GroupShowable<C>(cs: seq<C>, files: C -> seq<string>, author: C -> string, a: string, deep: int)
    requires ModulesOf(cs, files, deep).Ok?
    ensures ModulesOf(Group(cs, author, a), files, deep).Ok?
  {
    ModulesOk(cs, files, deep);
    ModulesOk(Group(cs, author, a), files, deep);
    AllFilesMembers(cs, files);
    GroupFiles(cs, files, author, a);
  }

  /** The error of an author's summary names a changed path of the whole list
      that has no separator. */
  lemma GroupErrorNamesFile<C>(cs: seq<C>, files: C -> seq<string>, author: C -> string, a: string, deep: int)
    requires ModulesOf(Group(cs, author, a), files, deep).Err?
    ensures exists f :: (f in AllFiles(cs, files) && NoSlash(f)
      && ModulesOf(Group(cs, author, a), files, deep).error == MissingSeparator(f))
  {
    var g := Group(cs, author, a);
    ModulesError(g, files, deep);
    var k :| 0 <= k < |AllFiles(g, files)| && NoSlash(AllFiles(g, files)[k])
      && ModulesOf(g, files, deep).error == MissingSeparator(AllFiles(g, files)[k]);
    var f := AllFiles(g, files)[k];
    GroupFiles(cs, files, author, a);
    assert f in AllFiles(g, files);
    AllFilesMembers(cs, files);
  }

  /** Every list of a row has one or more lines, none holding a newline. */
  ghost predicate OneLineEach(lines: seq<string>)
  {
    |lines| >= 1 && forall k :: 0 <= k < |lines| ==> Count(lines[k], NewLine) == 0
  }

  /** A cell made by `'\n'.join` gives its lines back when split at newlines. */
  lemma LinesRoundTrip(lines: seq<string>)
    ensures OneLineEach(lines) ==> Split(Join(lines, NewLine), NewLine) == lines
  {
    if OneLineEach(lines) {
      SplitJoin(lines, NewLine);
    }
  }
}
