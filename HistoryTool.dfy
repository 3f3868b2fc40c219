/** git-history-tool.py: the commits of the last days grouped by author, each
    author's summary giving the modules touched (at the fixed depth of three
    segments) and the commit hashes, and one table row per author. */
module HistoryTool {
  import opened Wrappers
  import opened Text
  import opened Modules
  import opened Gather
  import opened Grouping
  import opened Changes

  /** The depth `show()` cuts long paths at. */
  const Depth: int := 3

  /** The table headers, in column order. */
  const Headers: seq<string> := ["Autor", "Modules", "GIT hash"]

  /** One commit as read from the repository. */
  datatype Commit = Commit(hash: string, author: string, datetime: string, files: seq<string>)

  function AuthorOf(c: Commit): string { c.author }

  function HashOf(c: Commit): string { c.hash }

  function FilesOf(c: Commit): seq<string> { c.files }

  /** The module set `show()` builds at its fixed depth, or its error. */
  function ModulesAtDepth(cs: seq<Commit>): Result<set<string>, PathError>
  {
    ModulesOf(cs, FilesOf, Depth)
  }

  /** The set `hashes()` builds. */
  function HashesOf(cs: seq<Commit>): set<string>
  {
    Image(cs, HashOf)
  }

  /** What `show()` makes of one path at the fixed depth: the text before its
      first separator when the path has one or two, its first three segments
      (two separators, a prefix cut just before the third one) when it has more. */
  ghost predicate ModuleAtDepthOf(f: string, m: string)
  {
    && ModuleOf(f, Depth) == Ok(m)
    && (Count(f, Slash) < 3 ==> FirstSegment(f, m))
    && (Count(f, Slash) >= 3 ==> m <= f && Count(m, Slash) == 2 && |m| < |f| && f[|m|] == Slash)
  }

  /** Every path that `show()` accepts gives a module of the shape above. */
  lemma PathAtDepthThree(f: string, m: string)
    requires ModuleOf(f, Depth) == Ok(m)
    ensures ModuleAtDepthOf(f, m)
  {
    CountZero(f, Slash);
    if Count(f, Slash) < 3 {
      ModuleShallow(f, Depth);
    } else {
      ModuleDepthThree(f);
    }
  }

  /** Every module of a successful `show()` comes from a changed path of a held
      commit, in the shape above, and every changed path contributes one. */
  lemma ShowAtDepthThree(cs: seq<Commit>)
    requires ModulesAtDepth(cs).Ok?
    ensures forall m :: m in ModulesAtDepth(cs).value ==>
      exists i, f :: 0 <= i < |cs| && f in cs[i].files && ModuleAtDepthOf(f, m)
    ensures forall i, f :: 0 <= i < |cs| && f in cs[i].files ==>
      ModuleOf(f, Depth).Ok? && ModuleOf(f, Depth).value in ModulesAtDepth(cs).value
  {
    ModulesCover(cs, FilesOf, Depth);
    forall m | m in ModulesAtDepth(cs).value
      ensures exists i, f :: 0 <= i < |cs| && f in cs[i].files && ModuleAtDepthOf(f, m)
    {
      var i, f :| 0 <= i < |cs| && f in FilesOf(cs[i]) && ModuleOf(f, Depth) == Ok(m) && m <= f;
      PathAtDepthThree(f, m);
    }
  }

  /** The summary of one author: the commits added so far. */
  class Summary {
    var commits: seq<Commit>

    constructor()
      ensures commits == []
    {
      commits := [];
    }

    /** `add`: the commit goes to the end; nothing before it changes. */
    method Add(c: Commit)
      modifies this
      ensures commits == old(commits) + [c]
    {
      commits := commits + [c];
    }

    /** `show`: the distinct modules of all changed paths, or the error of the
        first path that has no separator; long paths keep three segments. */
    method Show() returns (r: Result<seq<string>, PathError>)
      ensures r.Ok? <==> ModulesAtDepth(commits).Ok?
      ensures r.Err? ==> r.error == ModulesAtDepth(commits).error
      ensures r.Ok? ==> Enumerates(r.value, ModulesAtDepth(commits).value)
      ensures r.Ok? ==> |r.value| <= |AllFiles(commits, FilesOf)|
    {
      var modules := CollectModules(commits, FilesOf, Depth);
      match modules {
        case Err(e) =>
          return Err(e);
        case Ok(paths) =>
          CollectBound(AllFiles(commits, FilesOf), ModuleAt(Depth));
          var lines := ToLines(paths);
          return Ok(lines);
      }
    }

    /** `hashes`: the distinct hashes of the commits. */
    method Hashes() returns (lines: seq<string>)
      ensures Enumerates(lines, HashesOf(commits))
      ensures forall h :: h in lines <==> exists i :: 0 <= i < |commits| && commits[i].hash == h
      ensures |lines| <= |commits|
    {
      var hashes: set<string> := {};
      for i := 0 to |commits|
        invariant hashes == HashesOf(commits[..i])
      {
        ImageStep(commits, i, HashOf);
        hashes := hashes + {commits[i].hash};
      }
      assert commits[..|commits|] == commits;
      ImageMembers(commits, HashOf);
      ImageBound(commits, HashOf);
      lines := ToLines(hashes);
    }
  }

  /** `group_by_user`: one fresh summary per distinct author, in first-seen
      order, each holding that author's commits in input order, no two
      authors sharing a summary. */
  method GroupByUser(commits: seq<Commit>) returns (d: OrderedDict<Summary>)
    ensures d.Valid() && d.keys == Keys(commits, AuthorOf)
    ensures forall a :: a in d.entries ==> d.entries[a].commits == Group(commits, AuthorOf, a)
    ensures forall a, b :: a in d.entries && b in d.entries && a != b ==> d.entries[a] != d.entries[b]
    ensures forall a :: a in d.entries ==> fresh(d.entries[a])
  {
    d := EmptyDict();
    for i := 0 to |commits|
      invariant d.Valid() && d.keys == Keys(commits[..i], AuthorOf)
      invariant forall a :: a in d.entries ==> d.entries[a].commits == Group(commits[..i], AuthorOf, a)
      invariant forall a, b :: a in d.entries && b in d.entries && a != b ==> d.entries[a] != d.entries[b]
      invariant forall a :: a in d.entries ==> fresh(d.entries[a])
    {
      if commits[i].author in d.entries {
        d := AddToKnownAuthor(d, commits, i);
      } else {
        d := AddToNewAuthor(d, commits, i);
      }
    }
    assert commits[..|commits|] == commits;
  }

  /** The loop body of `group_by_user` for an author already in the dict: the
      `i`-th commit goes to the end of their summary, which is stored again
      under the same key. */
  method AddToKnownAuthor(d: OrderedDict<Summary>, xs: seq<Commit>, i: nat)
    returns (e: OrderedDict<Summary>)
    requires i < |xs| && xs[i].author in d.entries
    requires d.Valid() && d.keys == Keys(xs[..i], AuthorOf)
    requires forall a :: a in d.entries ==> d.entries[a].commits == Group(xs[..i], AuthorOf, a)
    requires forall a, b :: a in d.entries && b in d.entries && a != b ==> d.entries[a] != d.entries[b]
    modifies d.entries[xs[i].author]
    ensures e.Valid() && e.keys == Keys(xs[..i + 1], AuthorOf)
    ensures forall a :: a in e.entries ==> e.entries[a].commits == Group(xs[..i + 1], AuthorOf, a)
    ensures e.entries == d.entries
  {
    var c := xs[i];
    KeysStep(xs, i, AuthorOf);
    assert AuthorOf(c) in Keys(xs[..i], AuthorOf);
    var summary := d.entries[c.author];
    summary.Add(c);
    e := d.Put(c.author, summary);
    assert e == OrderedDict(d.keys, d.entries[c.author := summary]);
    forall a | a in e.entries
      ensures e.entries[a].commits == Group(xs[..i + 1], AuthorOf, a)
    {
      GroupStep(xs, i, AuthorOf, a);
    }
  }

  /** The loop body of `group_by_user` for an author not seen before: a fresh
      summary receives the `i`-th commit and is stored under a new key at the end. */
  method AddToNewAuthor(d: OrderedDict<Summary>, xs: seq<Commit>, i: nat)
    returns (e: OrderedDict<Summary>)
    requires i < |xs| && xs[i].author !in d.entries
    requires d.Valid() && d.keys == Keys(xs[..i], AuthorOf)
    requires forall a :: a in d.entries ==> d.entries[a].commits == Group(xs[..i], AuthorOf, a)
    requires forall a, b :: a in d.entries && b in d.entries && a != b ==> d.entries[a] != d.entries[b]
    ensures e.Valid() && e.keys == Keys(xs[..i + 1], AuthorOf)
    ensures forall a :: a in e.entries ==> e.entries[a].commits == Group(xs[..i + 1], AuthorOf, a)
    ensures forall a, b :: a in e.entries && b in e.entries && a != b ==> e.entries[a] != e.entries[b]
    ensures e.entries.Keys == d.entries.Keys + {xs[i].author}
    ensures forall a :: a in d.entries ==> e.entries[a] == d.entries[a]
    ensures fresh(e.entries[xs[i].author])
  {
    var c := xs[i];
    var summary := new Summary();
    assert forall a :: a in d.entries ==> d.entries[a] != summary;
    summary.Add(c);
    PutNew(d, c.author, summary);
    NewAuthorGroups(d, xs, i, summary);
    e := d.Put(c.author, summary);
  }

  /** After the new summary of `AddToNewAuthor` has received its commit, the
      dict that stores it lists the keys and holds the groups of one more commit. */
  lemma NewAuthorGroups(d: OrderedDict<Summary>, xs: seq<Commit>, i: nat, summary: Summary)
    requires i < |xs| && xs[i].author !in d.entries && summary.commits == [xs[i]]
    requires d.Valid() && d.keys == Keys(xs[..i], AuthorOf)
    requires forall a :: a in d.entries ==> d.entries[a].commits == Group(xs[..i], AuthorOf, a)
    ensures var e := d.Put(xs[i].author, summary);
      && e.Valid() && e.keys == Keys(xs[..i + 1], AuthorOf)
      && forall a :: a in e.entries ==> e.entries[a].commits == Group(xs[..i + 1], AuthorOf, a)
  {
    var c := xs[i];
    KeysStep(xs, i, AuthorOf);
    KeysHaveGroups(xs[..i], AuthorOf, c.author);
    assert AuthorOf(c) !in Keys(xs[..i], AuthorOf);
    d.PutValid(c.author, summary);
    var e := d.Put(c.author, summary);
    forall a | a in e.entries
      ensures e.entries[a].commits == Group(xs[..i + 1], AuthorOf, a)
    {
      GroupStep(xs, i, AuthorOf, a);
    }
  }

  /** One table row: the author key and the line lists of `show()` and `hashes()`. */
  datatype Row = Row(author: string, modules: seq<string>, hashes: seq<string>)
  {
    /** The row as `tabulate` receives it: one cell per header, each line list
        joined by newlines, so that every list can be read back from its cell. */
    function Cells(): (cells: seq<string>)
      ensures |cells| == |Headers| && cells[0] == author
      ensures OneLineEach(modules) ==> Split(cells[1], NewLine) == modules
      ensures OneLineEach(hashes) ==> Split(cells[2], NewLine) == hashes
    {
      LinesRoundTrip(modules);
      LinesRoundTrip(hashes);
      [author, Join(modules, NewLine), Join(hashes, NewLine)]
    }
  }

  /** The modules a summary shows, or the error it raises. */
  ghost function Shown(s: Summary): Result<set<string>, PathError>
    reads s
  {
    ModulesAtDepth(s.commits)
  }

  /** `row` is what the table holds for `author` and the summary `s`. */
  ghost predicate Describes(row: Row, author: string, s: Summary)
    reads s
  {
    && row.author == author
    && Shown(s).Ok?
    && Enumerates(row.modules, Shown(s).value)
    && Enumerates(row.hashes, HashesOf(s.commits))
  }

  /** One entry of the row comprehension: the key, `show()` and `hashes()` of
      its summary, or the error `show()` raises. */
  method RowFor(key: string, s: Summary) returns (r: Result<Row, PathError>)
    ensures r.Ok? <==> Shown(s).Ok?
    ensures r.Err? ==> r.error == Shown(s).error
    ensures r.Ok? ==> Describes(r.value, key, s)
  {
    var modules := s.Show();
    if modules.Err? {
      return Err(modules.error);
    }
    var hashes := s.Hashes();
    return Ok(Row(key, modules.value, hashes));
  }

  /** The row list of `show_changes_from_yesterday`: one row per key in dict
      order, or the error of the first summary whose `show()` raises. */
  method BuildTable(d: OrderedDict<Summary>) returns (r: Result<seq<Row>, PathError>)
    requires d.Valid()
    ensures r.Ok? <==> forall i :: 0 <= i < |d.keys| ==> Shown(d.entries[d.keys[i]]).Ok?
    ensures r.Err? ==>
      exists i :: 0 <= i < |d.keys| && Shown(d.entries[d.keys[i]]).Err?
        && r.error == Shown(d.entries[d.keys[i]]).error
        && forall j :: 0 <= j < i ==> Shown(d.entries[d.keys[j]]).Ok?
    ensures r.Ok? ==>
      && |r.value| == |d.keys|
      && forall i :: 0 <= i < |d.keys| ==> Describes(r.value[i], d.keys[i], d.entries[d.keys[i]])
  {
    var rows: seq<Row> := [];
    for i := 0 to |d.keys|
      invariant Table(rows, d, i)
    {
      var key := d.keys[i];
      var row := RowFor(key, d.entries[key]);
      if row.Err? {
        return Err(row.error);
      }
      TableStep(rows, row.value, d, i);
      rows := rows + [row.value];
    }
    return Ok(rows);
  }

  /** `rows` describe the first `n` keys of `d`, in order. */
  ghost predicate Table(rows: seq<Row>, d: OrderedDict<Summary>, n: nat)
    requires d.Valid() && n <= |d.keys|
    reads set k | k in d.entries :: d.entries[k]
  {
    |rows| == n && forall j :: 0 <= j < n ==> Describes(rows[j], d.keys[j], d.entries[d.keys[j]])
  }

  /** A row describing the next key extends the table by one. */
  lemma TableStep(rows: seq<Row>, row: Row, d: OrderedDict<Summary>, i: nat)
    requires d.Valid() && i < |d.keys| && Table(rows, d, i)
    requires Describes(row, d.keys[i], d.entries[d.keys[i]])
    ensures Table(rows + [row], d, i + 1)
  {
  }

  /** `show_changes_from_yesterday` on the commits it has read: one row per distinct author
      in first-seen order, each describing exactly that author's commits, or the
      error of a changed path that has no separator. */
  method Report(commits: seq<Commit>) returns (r: Result<seq<Row>, PathError>)
    ensures r.Ok? <==> ModulesAtDepth(commits).Ok?
    ensures r.Err? ==> exists f :: f in AllFiles(commits, FilesOf) && NoSlash(f) && r.error == MissingSeparator(f)
    ensures r.Ok? ==> var authors := Keys(commits, AuthorOf);
      && |r.value| == |authors|
      && forall i :: 0 <= i < |authors| ==>
        var group := Group(commits, AuthorOf, authors[i]);
        && r.value[i].author == authors[i]
        && ModulesAtDepth(group).Ok?
        && Enumerates(r.value[i].modules, ModulesAtDepth(group).value)
        && Enumerates(r.value[i].hashes, HashesOf(group))
  {
    var d := GroupByUser(commits);
    r := BuildTable(d);
    GroupsShowable(commits, FilesOf, AuthorOf, Depth);
    if r.Err? {
      ghost var i :| 0 <= i < |d.keys| && Shown(d.entries[d.keys[i]]).Err? && r.error == Shown(d.entries[d.keys[i]]).error;
      assert Shown(d.entries[d.keys[i]]) == ModulesOf(Group(commits, AuthorOf, d.keys[i]), FilesOf, Depth);
      GroupErrorNamesFile(commits, FilesOf, AuthorOf, d.keys[i], Depth);
    }
  }
}
