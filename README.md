# git-history-tools in Dafny

This project models two command-line scripts. Each reads a repository's commit
history, groups the commits by author and prints one table row per author:

- `cli.py` builds four columns: the author, the modules touched, the issue ids
  found in the commit messages, and the commit hashes.
- `git-history-tool.py` builds three columns: the author, the modules, and the
  hashes. Its module depth is fixed at 3.

A *module* is the part of a changed file path that `show()` keeps:

- A path with one or two `/` separators keeps the text before the first `/`.
- A path with no separator at all makes `str.index` raise.
- A path with three or more separators keeps its first `deep` segments,
  rejoined with `/`.

The model follows the shape of the Python code:

- `Summary` is a class whose `commits` field `add` extends.
- `show()`, `msg()` and `hashes()` are methods whose loops fill a set.
- `group_by_user` is a method whose loop fills an insertion-ordered dict. That
  dict is the `Grouping.OrderedDict` value, with its keys in insertion order.
- The table comprehension is a loop over the dict's keys.

Each method is proved against pure specification functions, and the properties
the scripts rely on are proved as lemmas about those functions. The
specification functions are:

- `Grouping.Keys` and `Grouping.Group`: the authors in first-seen order, and
  each author's commits.
- `Changes.ModulesOf`: the module set, or the error of the first bad path.
- `Gather.Image`: the issue and hash sets.

Python's string operations are modelled as pure functions in `Text`:
`str.count`, `str.index`, `str.split` with and without `maxsplit`, list slicing
with negative bounds, and `str.join`.

Modules:

- `Wrappers`: `Option` and `Result`.
- `Text`: Python string and list operations, and their round trips.
- `Modules`: the per-path module expression and its shape lemmas.
- `Gather`: the sets that `show()`, `msg()` and `hashes()` fill.
- `Grouping`: grouping by author, and the ordered dict.
- `Changes`: the module set of a whole list of commits, and how it relates to
  the per-author groups. Both scripts use it.
- `Cli`: `cli.py`.
- `HistoryTool`: `git-history-tool.py`.

Notes on the model:

- `cli.py:76` reads the module-level variable `_deep`, not the summary's own
  `self._deep`. That variable exists only when the file runs as a script. There
  it is the same value that `cli.py:150` passes on to every summary. The model
  therefore uses the summary's own `deep`.
- `deep` is an `int`, as `int()` of the `--deep` option gives. A negative
  `deep` follows Python:
  - `split` with a negative `maxsplit` splits without limit.
  - The slice `[0:deep]` counts from the end.
- `show()`, `msg()` and `hashes()` return the duplicate-free lines of their set
  in an order the model leaves open, because Python's set iteration order is not
  specified. `Row.Cells` applies `'\n'.join` to these lines.
- A `show()` that raises on a path without a separator becomes an `Err`. It
  travels up through the row comprehension and the whole report, as the
  exception does. Python's `str.index` raises a `ValueError` that names no
  path; the path the model's error carries (`Modules.MissingSeparator`) is
  information the model adds so that its contracts can say which path failed.

## Model

| member | source | states |
|---|---|---|
| Text.Count | cli.py:72 | `str.count` of one character is at most the length of the text |
| Text.CountZero | cli.py:72-74 | a count of zero means no position holds the character, and the converse |
| Text.IndexOf | cli.py:74 | `str.index` gives a position holding the separator, with none before it |
| Text.Split | cli.py:76 | `split` without a limit gives one piece more than there are separators |
| Text.SplitMax | cli.py:76 | `split(sep, n)` gives `min(n, count) + 1` pieces |
| Text.Take | cli.py:76 | the slice `[0:stop]` is a prefix of the list, for negative `stop` too |
| Text.SplitPieces | cli.py:76 | no piece of a full split holds the separator |
| Text.JoinSplitPrefix | cli.py:76 | the first `k` pieces rejoined are the prefix of the text holding `k - 1` separators; it stops just before the `k`-th separator, or is the whole text when `k` is the number of pieces |
| Text.SplitMaxAgrees | cli.py:76 | the first `min(n, count + 1)` pieces of a limited split are those of the full split |
| Text.SplitMaxPrefix | cli.py:76 | the kept prefixes of the limited and the full split have the same length and are equal |
| Text.SplitTake | cli.py:76 | `split(sep, d)[0:d]` is the first `min(d, count + 1)` pieces of the full split |
| Text.JoinSplit | cli.py:76 | joining the pieces of a split gives back the text |
| Text.SplitJoin | cli.py:78 | joining pieces that hold no separator and splitting again gives back the pieces |
| Text.ToLines | cli.py:78 | iterating a set yields each element exactly once and nothing else |
| Modules.ModuleOf | cli.py:72-76 | the module expression raises exactly for a path without a separator; the model's error carries that path (`MissingSeparator(path)`), information Python's `ValueError` from `str.index` does not give |
| Modules.ModuleShallow | cli.py:73-74 | a path with one or two separators maps to the separator-free text before its first separator |
| Modules.ModuleSegments | cli.py:75-76 | a path with three or more separators maps to its first pieces rejoined; how many are kept follows Python slicing for every `deep`, negative included |
| Modules.ModuleDeep | cli.py:75-76 | for `deep >= 1` the module is a prefix of the path with `min(deep, count + 1) - 1` separators; it ends just before the next separator, or is the whole path |
| Modules.ModuleIsPrefix | cli.py:72-76 | for every depth a module is a prefix of its path |
| Modules.ModuleDepthOne | cli.py:72-76 | with `deep = 1` every path that has a separator maps to its first segment, below and above the three-separator threshold |
| Modules.ModuleDepthThree | git-history-tool.py:62-63 | at depth 3 a path with three or more separators maps to a prefix with exactly two separators that ends just before the third |
| Gather.ImageMembers | cli.py:91-94 | the set a loop fills holds exactly the values of the visited elements |
| Gather.ImageBound | cli.py:91-94 | that set has no more elements than were visited |
| Gather.ImageSameElements | cli.py:91-94 | that set depends only on which elements occur, not on their order or repetition |
| Gather.CollectError | cli.py:69-77 | a loop whose value may raise fails exactly when some element fails, with the first failing element's error |
| Gather.CollectMembers | cli.py:69-77 | when that loop succeeds, its set holds exactly the values of the elements |
| Gather.CollectBound | cli.py:69-77 | when that loop succeeds, its set has at most one value per element |
| Gather.CollectErrorStays | cli.py:69-77 | once a prefix has raised, every longer list raises the same error |
| Gather.CollectSameElements | cli.py:69-77 | whether the loop succeeds, and with what set, depends only on which elements occur |
| Grouping.FirstAt | cli.py:111-112 | the first position whose key is `k`, with no earlier position having it |
| Grouping.KeysMembers | cli.py:109-120 | the dict keys are distinct and are exactly the authors of the commits |
| Grouping.KeysFirstSeen | cli.py:109-120 | each key occurs in the input; of two keys, the earlier one is first seen earlier |
| Grouping.KeysHaveGroups | cli.py:116-119 | an author is a key exactly when their group is not empty: no summary is empty |
| Grouping.GroupAppend | cli.py:111-115 | grouping a concatenation concatenates the groups, so input order is kept within a group |
| Grouping.GroupCount | cli.py:111-119 | every commit is in its own author's group as often as in the input, and in no other group |
| Grouping.GroupMembers | cli.py:111-119 | a group holds exactly the commits of its author |
| Grouping.GroupsStep | cli.py:111-119 | one more commit adds itself exactly once to the groups of distinct keys that include its author |
| Grouping.GroupAbsent | cli.py:111-119 | an author with no commit has an empty group |
| Grouping.Partition | cli.py:109-120 | the groups of all keys together hold every commit exactly as often as the input |
| Grouping.OrderedDict.PutValid | cli.py:115 | `d[k] = v` keeps the dict well formed and keeps the existing keys in order; a new key goes to the end; `k` maps to `v` and every other key keeps its value |
| Grouping.PutNew | cli.py:119 | storing a new summary under a new author appends the key, and no two authors share a summary afterwards |
| Grouping.EmptyDict | cli.py:110 | `{}` is well formed and has no keys |
| Changes.AllFilesMembers | cli.py:70-71 | a path is visited exactly when some commit changed it |
| Changes.ModulesError | cli.py:69-77 | `show()` raises exactly when a visited path has no separator, and then on the first such path in commit-then-file order |
| Changes.ModulesMembers | cli.py:69-77 | a successful `show()` holds exactly the modules of the visited paths, at most one per path |
| Changes.ModulesOk | cli.py:69-77 | `show()` succeeds exactly when every changed path has a separator |
| Changes.ModulesCover | cli.py:69-77 | each changed path's module is shown, and each shown module is a prefix of a changed path that maps to it |
| Changes.ModulesPermute | cli.py:69-77 | whether `show()` raises, and which module set it builds, depends only on which commits the summary holds, not on their order or repetition |
| Changes.CollectModules | cli.py:69-77 | the nested loops compute the module set, or raise as `show()` does |
| Changes.CollectPaths | cli.py:71-77 | the inner loop over one commit's files extends the set, or raises as `show()` does |
| Changes.AllFilesPrefix | cli.py:70-71 | the paths of a prefix of the commits are a prefix of all visited paths |
| Changes.GroupFiles | cli.py:111-119 | the changed files of an author's group are those of that author's commits |
| Changes.GroupsShowable | cli.py:126-129 | every author's summary can be shown exactly when the whole commit list can |
| Changes.SpoiledKey | cli.py:126-129 | when the whole list cannot be shown, some author's summary cannot |
| Changes.GroupNotShowable | cli.py:126-129 | a commit with a path that has no separator spoils its author's summary |
| Changes.GroupShowable | cli.py:126-129 | an author's summary can be shown when the whole list can |
| Changes.GroupErrorNamesFile | cli.py:126-129 | the model's error for an author's summary carries a changed path of the whole list that has no separator |
| Changes.LinesRoundTrip | cli.py:78 | a cell made by `'\n'.join` of newline-free lines splits back into those lines |
| Cli.Summary.constructor | cli.py:60-63 | a new summary has no commits and keeps the pattern and depth it was given |
| Cli.Summary.Add | cli.py:65-66 | `add` appends the commit and leaves the earlier ones as they were |
| Cli.Summary.Show | cli.py:68-78 | `show()` raises exactly when `ModulesOf` does, with the same error; otherwise its lines list the module set once each, at most one per changed path |
| Cli.Summary.Msg | cli.py:80-89 | the lines are exactly the first matches of the commit messages, with `NOT FOUND` for a message without one, each once and at most one per commit |
| Cli.Summary.Hashes | cli.py:91-95 | the lines are exactly the hashes of the commits, each once and at most one per commit |
| Cli.GroupByUser | cli.py:108-120 | one fresh summary per distinct author in first-seen order, holding that author's commits in input order, made with the given pattern and depth, no two authors sharing one |
| Cli.AddToKnownAuthor | cli.py:112-115 | a commit of a known author joins the end of that author's summary only; the dict keeps its keys and summaries |
| Cli.AddToNewAuthor | cli.py:116-119 | a commit of a new author gets a fresh summary holding only that commit, under a key appended at the end; the other entries stay |
| Cli.NewAuthorGroups | cli.py:116-119 | after the new summary has its commit, the dict holds the groups and keys of one more commit |
| Cli.Row.Cells | cli.py:126-130 | one cell per header, the author first, and each joined line list splits back into its lines |
| Cli.RowFor | cli.py:127 | one comprehension entry raises exactly when the summary's `show()` does; otherwise the row holds the key and the summary's modules, issues and hashes |
| Cli.BuildTable | cli.py:126-129 | one row per dict key in dict order, or the error of the first summary whose `show()` raises |
| Cli.Report | cli.py:123-130 | the whole `show()` raises exactly when some changed path has no separator, and the model's error carries such a path; otherwise one row per distinct author in first-seen order, describing exactly that author's commits |
| HistoryTool.PathAtDepthThree | git-history-tool.py:59-63 | every accepted path maps to its first segment when it has one or two separators, and to a two-separator prefix that ends before the third otherwise |
| HistoryTool.ShowAtDepthThree | git-history-tool.py:55-65 | every module shown comes from a changed path in that shape, and every changed path contributes its module |
| HistoryTool.Summary.constructor | git-history-tool.py:49-50 | a new summary has no commits |
| HistoryTool.Summary.Add | git-history-tool.py:52-53 | `add` appends the commit and leaves the earlier ones as they were |
| HistoryTool.Summary.Show | git-history-tool.py:55-65 | `show()` at depth 3 raises exactly when `ModulesOf` does, with the same error; otherwise its lines list the module set once each |
| HistoryTool.Summary.Hashes | git-history-tool.py:67-71 | the lines are exactly the hashes of the commits, each once and at most one per commit |
| HistoryTool.GroupByUser | git-history-tool.py:90-102 | one fresh summary per distinct author in first-seen order, holding that author's commits in input order, no two authors sharing one |
| HistoryTool.AddToKnownAuthor | git-history-tool.py:94-97 | a commit of a known author joins the end of that author's summary only |
| HistoryTool.AddToNewAuthor | git-history-tool.py:98-101 | a commit of a new author gets a fresh summary holding only that commit, under a key appended at the end |
| HistoryTool.NewAuthorGroups | git-history-tool.py:98-101 | after the new summary has its commit, the dict holds the groups and keys of one more commit |
| HistoryTool.Row.Cells | git-history-tool.py:108-109 | one cell per header, the author first, and each joined line list splits back into its lines |
| HistoryTool.RowFor | git-history-tool.py:108 | one comprehension entry raises exactly when the summary's `show()` does; otherwise the row holds the key and the summary's modules and hashes |
| HistoryTool.BuildTable | git-history-tool.py:108 | one row per dict key in dict order, or the error of the first summary whose `show()` raises |
| HistoryTool.Report | git-history-tool.py:105-109 | the report raises exactly when some changed path has no separator, and the model's error carries such a path; otherwise one row per distinct author in first-seen order, describing that author's commits at depth 3 |

## Left out

- Reading commits from git (`get_commits_between`, `get_commits_from_yesterday`, GitPython's `Repo` and `iter_commits`) is I/O with an external library. The model takes the commit list as a parameter. This also leaves out the branch `master`, the `max_count=300` cap and the date filters.
- The default dates computed from `datetime.today()` (cli.py:142-149, git-history-tool.py:77-78) read the clock, so they are left out. Commit dates are kept as opaque strings.
- Regular expressions are not modelled. The compiled `--issue` pattern is a parameter (`Cli.Matcher`) that gives the text of the first match, or nothing.
- `tabulate` and `print` are output formatting and I/O. The model stops at the rows and their cells (`Row.Cells`).
- Parsing the options with `docopt`, and `int()` raising on a non-numeric `--deep`, belong to the command line and are not modelled.
- A GitPython `Actor` is modelled by a single `author` string that stands for the dict key. A Python `Actor` compares by name and email but prints only its name, so two actors with the same name and different emails give two rows that look alike; the model does not separate the key from the printed name.
- `Commit.__str__` is not used by the reports, so it is not modelled.
- `setup.py` is packaging and is not modelled.
- The order in which a Python set is iterated is left open: the model proves only that the lines list the set once each.
- Cli.Summary.Show: uses the summary's own `deep` where `cli.py:76` reads the script-level `_deep`. The two are equal whenever the file runs as a script.
