# Include compiler and metadata collector, modelled in Dafny

This project models the core of a small build tool for single-file script
repositories.

The include compiler (`utils/simple_compiler.py`) works like this:
- It reads an entry file.
- It follows the `// include <name>` comment directives of each file. A name
  that starts with `.` is relative to the includer's folder. Any other name is
  searched for recursively under a root folder.
- It builds an inclusion tree and reads each file only once.
- It rejects circular includes. This uses a depth-first walk that looks at
  every root-to-node path.
- It records the depth of each file with a breadth-first walk.
- It writes the files deepest first into one text. Directive lines are left
  out, and each file is followed by a newline.

The tree it builds on is `utils/lib/simple_tree.py`, which holds nodes that
share child lists, cached tree wrappers and the two walks. The comment-header
parser is `utils/lib/parsers.py`.

The metadata collector (`utils/update_from_metadata.py`) uses the same parser.
It reads the `// match:` and `// mapto:` header of each `.js` implementation
in each sub-repository. It files the implementation under `direct_match` or
`regex`, and records its `mapto` beside it.

Modules, one per file:

- `Common` (`common.dfy`): `Option`, `Result`, the Python exceptions the
  core raises (`ValueError`, `IndexError`, `TypeError`) plus a failed file
  read (`IOError`), the callback outcome `Outcome`, and facts about
  duplicate-free sequences.
- `Parsers` (`parsers.dfy`): `uncomment_line`, `match_lines`, `read_info`
  and `read_info_once`.
  - The shared comment-line iterator is the sequence it will yield.
  - The loops of `read_info`/`read_info_once` are methods.
  - Each method is proved equal to a recursive specification
    (`ReadInfoSpec`, `ReadInfoOnceSpec`).
- `Metadata` (`metadata.dfy`): `regex_unescape` and `collect_repo_info`,
  whose loops are methods proved against recursive specifications. The
  filing rules are lemmas.
- `SimpleTree` (`simple_tree.dfy`):
  - `Node`, `Tree` and the child list are classes on the heap.
  - `dfs_map` and `bfs_map` are methods over those objects.
  - `dfs_map`'s outcome is characterised over all walks of the include
    structure.
- `IncludeBuild` (`include_build.dfy`): `search_name`, `parse_include`,
  `form_tree_recursive` and `form_tree`. Both build methods are proved
  against the pure visit `Visit`/`VisitAll`, which threads the `history`
  dictionary as a value.
- `IncludeOrder` (`include_order.dfy`): `circuit_check`, `count_max_depth`,
  `bfs_count_max_depth`, and the ordering and assembly of `main`
  (lines 123-131). The whole pipeline is the method `Compile`, proved equal
  to the function `Compiled`. Its shape is stated by `CompiledOrder` and
  `CompiledErrors`.

Where the code and the documented intent of the tool disagree, the model
follows the code:
- `bfs_map` stops after depth 1. `layer` is a single-use iterator that
  building the payload tuple uses up, so the next `base` is always empty.
  As a result:
  - Only the entry file and its direct includes get a depth.
  - The output holds only those files: first the direct includes in
    directive order, each at its first occurrence, then the entry file.
  - A file included only further down is not written. `CompiledOrder`
    states this.
- `dfs_map` calls its callback after every push only. It never calls it for
  the root alone and never on backtrack.
- `have_father` is true when the node has no father.
- `circuit_check` raises IndexError on an empty path. `dfs_map` never
  passes one.

## Model

| member | source | states |
|---|---|---|
| Parsers.StripMeaning | utils/lib/parsers.py:9 | `str.strip()` returns a contiguous slice of its argument that neither starts nor ends with whitespace; together with TrimLeftMeaning/TrimRightMeaning exactly the leading and trailing whitespace is removed |
| Parsers.TrimLeftMeaning | utils/lib/parsers.py:9 | the left trim drops exactly a whitespace prefix and stops at a non-space character or the end |
| Parsers.TrimRightMeaning | utils/lib/parsers.py:9 | the right trim drops exactly a whitespace suffix and stops at a non-space character or the start |
| Parsers.FindFrom | utils/lib/parsers.py:17 | a found separator position lies wholly inside the string |
| Parsers.FindFromMeaning | utils/lib/parsers.py:17 | the search behind `split(sep, 1)` returns the first occurrence of the separator at or after the start position, and None exactly when there is none |
| Parsers.UncommentLine | utils/lib/parsers.py:6-9 | a line yields a pair exactly when it starts with `//` in column 0; the pair is the line's index and the stripped text after `//` |
| Parsers.CommentLinesSound | utils/lib/parsers.py:6-9 | the comment-line iterator yields only comment lines, each with its own index and stripped text, in increasing line order |
| Parsers.CommentLinesComplete | utils/lib/parsers.py:6-9 | every line starting with `//` is yielded by the iterator |
| Parsers.FirstMatch | utils/lib/parsers.py:14-15 | `next(klines)`: the position of the first comment line whose text starts with the key, with no earlier such line; None when no line matches |
| Parsers.Selected | utils/lib/parsers.py:14-16 | the lines the filter keeps all start with the key and come from the iterator; SelectedComplete and SelectedAppend give the converse and the order |
| Parsers.SelectedComplete | utils/lib/parsers.py:14-16 | every comment line that starts with the key is kept by the filter |
| Parsers.SelectedAppend | utils/lib/parsers.py:14-16 | the filter works line by line over a concatenation, so the kept lines stay in file order |
| Parsers.Values | utils/lib/parsers.py:17 | the conversion succeeds exactly when every selected line holds the separator; then each value is the stripped text after the first separator, paired with the line's index |
| Parsers.MatchLines | utils/lib/parsers.py:11-20 | `match_lines` raises only IndexError; it finds nothing exactly when no line starts with the key; without `once` it drains the shared iterator |
| Parsers.MatchLinesDrained | utils/lib/parsers.py:11-20 | without `once`, no match gives `None` and an exhausted iterator; otherwise the values of every matching line, or IndexError when one lacks the separator |
| Parsers.MatchLinesOnce | utils/lib/parsers.py:11-20 | with `once`, only the first matching line is converted and the iterator resumes right after it |
| Parsers.Firsts | utils/lib/parsers.py:28 | the first components of the pairs, in order |
| Parsers.Seconds | utils/lib/parsers.py:28 | the second components of the pairs, in order |
| Parsers.Unzip | utils/lib/parsers.py:28 | `zip(*values)` transposes the pairs: the k-th value and the k-th index of the result are the two halves of the k-th pair, and None gives `([], [])` |
| Parsers.ReadInfo | utils/lib/parsers.py:22-31 | the loop of `read_info` computes exactly `ReadInfoSpec` |
| Parsers.ReadInfoOnce | utils/lib/parsers.py:33-42 | the loop of `read_info_once` computes exactly `ReadInfoOnceSpec` |
| Parsers.SelectedAfterFirst | utils/lib/parsers.py:14-16 | draining the filter after its first hit yields the whole filter: the first match, then the matches after it |
| Parsers.ReadInfoFromAligned | utils/lib/parsers.py:26-30 | the loop keeps both dictionaries on the same keys, with equally long value and index sequences per key |
| Parsers.ReadInfoFromLaterEmpty | utils/lib/parsers.py:24-25 | the first key drains the shared iterator, so every later key is stored with empty sequences |
| Parsers.ReadInfoFromEmpty | utils/lib/parsers.py:26-30 | on an exhausted iterator every key is stored with empty sequences |
| Parsers.ReadInfoFromKeeps | utils/lib/parsers.py:26-30 | a key not looked up again keeps its entries |
| Parsers.ReadInfoShape | utils/lib/parsers.py:22-31 | `read_info` has exactly the given keys in both dictionaries, with aligned values and indices; every key after the first gets empty sequences |
| Parsers.ReadInfoSingleKey | utils/lib/parsers.py:22-31 | `read_info` on one key stores the stripped values and line indices of all matching comment lines, empty sequences when none matches, and raises IndexError when a matching line lacks the separator |
| Parsers.ReadInfoFromOne | utils/lib/parsers.py:26-30 | on one key the loop stores what `match_lines` returns, unzipped |
| Parsers.ReadInfoOnceStep | utils/lib/parsers.py:37-41 | one step of `read_info_once`: TypeError when the key has no matching line (`zip(*None)`), IndexError when the matching line lacks the separator, otherwise the key takes that line's value and index and the next key starts after it |
| Parsers.OnceTwoKeys | utils/lib/parsers.py:33-42 | the closed form of `read_info_once` on two keys has exactly those two keys in both dictionaries, and fails only with TypeError or IndexError |
| Parsers.ReadInfoOnceTwoKeys | utils/lib/parsers.py:33-42 | on two keys, `read_info_once` is the closed form `OnceTwoKeys`: the second key is searched only after the first key's line |
| Parsers.ReadInfoOnceMissingKey | utils/lib/parsers.py:37-40 | a first key without a matching line raises TypeError |
| Metadata.UnescapeChar | utils/update_from_metadata.py:21 | `str.replace` of backslash-`c` by `c` never lengthens the string |
| Metadata.RegexUnescape | utils/update_from_metadata.py:18-22 | the loop of `regex_unescape` is one replacement per character of `REGEX_ESCAPE`, in order |
| Metadata.UnescapeCharNoBackslash | utils/update_from_metadata.py:21 | a string without a backslash is left unchanged by the replacement |
| Metadata.RegexUnescapeNoBackslash | utils/update_from_metadata.py:18-22 | a string without a backslash is left unchanged by `regex_unescape` |
| Metadata.ReadMetadata | utils/update_from_metadata.py:16 | `read_metadata` takes the value of the first `match` comment line, then the value of the first `mapto` comment line after it; it raises TypeError when either is missing and IndexError when a taken line has no `:` |
| Metadata.UnescapeEscape | utils/update_from_metadata.py:21 | the replacement undoes escaping for every string, even one that already holds backslashes |
| Metadata.Record | utils/update_from_metadata.py:42-46 | an implementation is filed under exactly one of direct_match (stem occurs in the unescaped pattern) and regex, with the raw pattern, and under mapto exactly when the mapping is non-empty; no other stem gains a key |
| Metadata.RecordOthers | utils/update_from_metadata.py:42-46 | recording one stem leaves every other stem's entries alone |
| Metadata.FileImplStep | utils/update_from_metadata.py:34-46 | the inner loop body computes `FileImpl` with `read_metadata`: read the header with `read_info_once` on `match` and `mapto` with `:`, unescape, test, then record as `Record` says, or fail with the header's error |
| Metadata.CollectRepoInfo | utils/update_from_metadata.py:24-48 | the nested loops of `collect_repo_info` compute exactly `CollectFrom`, and the first header error aborts the whole collection |
| Metadata.FileImplsOthers | utils/update_from_metadata.py:33-46 | filing a sub-repository leaves stems of other files alone |
| Metadata.FileImplsFiled | utils/update_from_metadata.py:33-46 | with distinct file stems, every implementation of a successfully read sub-repository is filed as `Record` says, with its own header |
| Metadata.FileImplsOk | utils/update_from_metadata.py:33-46 | reading a sub-repository succeeds exactly when every implementation's header reads |
| Metadata.FileImplsKeys | utils/update_from_metadata.py:33-46 | no key appears that is not the stem of one of the implementations |
| Metadata.CollectFromKeys | utils/update_from_metadata.py:26-31 | the result is keyed by exactly the sub-repository names outside `SUBREPO_DEFAULT_EXCLUDE`, and it fails exactly when some included sub-repository fails |
| Metadata.CollectFromEntry | utils/update_from_metadata.py:27-46 | with distinct directory names, every included sub-repository's entry is the filing of its own implementations from empty dictionaries |
| Metadata.CollectFromKeeps | utils/update_from_metadata.py:27-31 | an entry whose name does not come again is kept |
| SimpleTree.ChildList.constructor | utils/lib/simple_tree.py:10-14 | a list object holding the given nodes |
| SimpleTree.Node.Leaf | utils/lib/simple_tree.py:7-10 | with no child argument the node gets a new empty list, the given payload and father, and no cached wrapper |
| SimpleTree.Node.WithChild | utils/lib/simple_tree.py:11-12 | with a single node argument the list is `[c]` and `c` names the new node as father |
| SimpleTree.Node.WithList | utils/lib/simple_tree.py:13-22 | with a list argument that list object itself is adopted, unchanged, and every node in it names the new node as father |
| SimpleTree.Node.HaveFather | utils/lib/simple_tree.py:25-27 | `have_father` is true exactly when the node has no father, the inverse of its name |
| SimpleTree.Node.HaveChild | utils/lib/simple_tree.py:29-31 | `have_child` is true exactly when the child list is not empty |
| SimpleTree.Node.Detached | utils/lib/simple_tree.py:37-40 | `detached` is a fresh fatherless node with the same payload and the same list object, whose nodes now name the copy as father |
| SimpleTree.Node.AppendChild | utils/lib/simple_tree.py:42-44 | exactly one node is appended and the earlier children are unchanged; it is a detached copy exactly when the node has no father and `detach` holds, otherwise the node itself, and then no father link changes |
| SimpleTree.EqualsEquivalence | utils/lib/simple_tree.py:46-50 | `__eq__` compares payloads, so it is reflexive, symmetric and transitive on nodes and false against anything without `obj` |
| SimpleTree.Tree.Wrapping | utils/lib/simple_tree.py:58-64 | a new wrapper around a node caches itself in the node |
| SimpleTree.Tree.Wrap | utils/lib/simple_tree.py:54-64 | `Tree(node)` returns the node's cached wrapper untouched when it has one, otherwise a fresh wrapper that is then cached |
| SimpleTree.Tree.Empty | utils/lib/simple_tree.py:58-60 | `Tree()` wraps a fresh fatherless leaf |
| SimpleTree.Tree.IsEnd | utils/lib/simple_tree.py:70-72 | `is_end` is true exactly when the wrapped node has no children |
| SimpleTree.Tree.GetItem | utils/lib/simple_tree.py:74-76 | Python indexing into the child list: indices from `-len` to `len-1` (negative from the end) give the wrapper of that child, anything else raises IndexError; a child that already has a wrapper gives that same wrapper, otherwise a fresh one is made and cached; no other child's wrapper and not the list change |
| SimpleTree.Tree.Iter | utils/lib/simple_tree.py:78-85 | iteration yields one wrapper per child, in list order, each cached in its child; an existing wrapper is reused and a missing one is fresh |
| SimpleTree.Tree.AppendNode | utils/lib/simple_tree.py:91-92 | `append_node` appends to the wrapped node's list as `append_child` does, with the same frame on father links |
| SimpleTree.Tree.GetObj | utils/lib/simple_tree.py:97-98 | `getobj` is the payload of the wrapped node |
| SimpleTree.DfsMap | utils/lib/simple_tree.py:107-122 | the explicit-stack loop of `dfs_map` ends with the callback outcome `Dfs` assigns: the first failure in depth-first order, else Pass |
| SimpleTree.DfsOutcome | utils/lib/simple_tree.py:107-122 | for a callback that rejects repeated payloads, the walk passes exactly when the callback accepts every walk from the root, and a failure is the callback's own failure on one such walk |
| SimpleTree.PassCovers | utils/lib/simple_tree.py:107-122 | a passing exploration has shown the callback every continuation of the current path |
| SimpleTree.CoversPass | utils/lib/simple_tree.py:107-122 | if the callback accepts every continuation, the exploration passes |
| SimpleTree.FailWitness | utils/lib/simple_tree.py:107-122 | a failing exploration fails with the callback's result on one continuation |
| SimpleTree.LongWalkRepeats | utils/lib/simple_tree.py:107-122 | a walk with more steps than the structure has files repeats a file before its last step, which is why the stack-based walk ends |
| SimpleTree.BfsMap | utils/lib/simple_tree.py:124-133 | `bfs_map` calls its callback with the root's payload at depth 0, then with the payloads of the root's children at depth 1, and stops |
| IncludeBuild.SearchName | utils/simple_compiler.py:33-50 | a name starting with `.` resolves to the includer's folder joined with it, fails with ValueError when that path does not exist, and warns when it leaves the root; any other name resolves to the first hit of the root search or fails with ValueError |
| IncludeBuild.ReadInclude | utils/simple_compiler.py:31 | `read_include` raises only IndexError and returns as many line indices as names |
| IncludeBuild.ReadIncludeIsReadInfo | utils/simple_compiler.py:31 | `read_include` is `read_info(["include"], " ")` with the one key's values and indices |
| IncludeBuild.ParseInclude | utils/simple_compiler.py:59-63 | an unreadable file is an IOError; otherwise `parse_include` fails exactly when the parser does, and on success returns the file's own lines with the line numbers and names the parser found |
| IncludeBuild.ResolveAll | utils/simple_compiler.py:72 | one resolved path per include name |
| IncludeBuild.ResolveAllMeaning | utils/simple_compiler.py:72 | the list comprehension succeeds exactly when every name resolves, keeps the order of the names, and otherwise raises the error of the first name that does not resolve: every earlier name resolves |
| IncludeBuild.VisitCloses | utils/simple_compiler.py:66-77 | a visit keeps what `history` held, records every new file exactly as `parse_include` and `search_name` give it, and leaves no recorded include unrecorded |
| IncludeBuild.VisitAllCloses | utils/simple_compiler.py:76-77 | the loop over a file's includes does the same, and every include ends up recorded |
| IncludeBuild.ParsedOnce | utils/simple_compiler.py:66-77 | each file is read at most once, and the files read are exactly those newly recorded |
| IncludeBuild.ParsedAllOnce | utils/simple_compiler.py:76-77 | the same for the loop over a file's includes |
| IncludeBuild.VisitNew | utils/simple_compiler.py:70-77 | a file met for the first time is recorded before its includes are visited |
| IncludeBuild.AppendedBelow | utils/simple_compiler.py:73-77 | appending a new file below its parent and visiting its includes changes only the parent's list and the new file's list |
| IncludeBuild.FormTreeRecursive | utils/simple_compiler.py:66-77 | `form_tree_recursive` fails exactly when `Visit` does, with its error; otherwise `history` is `Visit`'s, the parent's child list gains exactly the file at its end, no other existing list changes, and every newly recorded file's list holds its includes |
| IncludeBuild.VisitIncludes | utils/simple_compiler.py:76-77 | the loop over a new file's includes fails exactly when `VisitAll` does; otherwise the file's list holds its includes in directive order and no other existing list changes |
| IncludeBuild.BuildCloses | utils/simple_compiler.py:80-90 | every include of every recorded file is recorded |
| IncludeBuild.FormTree | utils/simple_compiler.py:80-90 | `form_tree` fails exactly when the build does, with its error; otherwise the root is the entry file, every recorded file maps to its includes in directive order and to its directive line indices and lines, and every include is a recorded file |
| IncludeOrder.IndexOf | utils/simple_compiler.py:95 | `list.index`: the first position holding the element; None exactly when it is absent |
| IncludeOrder.JoinSnoc | utils/simple_compiler.py:101 | `' -> '.join` of one more part is the join so far, the separator and that part |
| IncludeOrder.CircuitCheck | utils/simple_compiler.py:93-101 | an empty path raises IndexError; otherwise the check fails exactly when the last file occurs earlier in the path, with a ValueError whose message joins the path from the first occurrence |
| IncludeOrder.CircuitCheckRejectsRepeats | utils/simple_compiler.py:93-101 | `circuit_check` rejects every path that ends in a repeated file |
| IncludeOrder.NoCircularInclude | utils/simple_compiler.py:104 | `dfs_circuit_check` passes exactly when no walk of includes from the entry file returns to a file already on it; a failure carries the message of one such walk |
| IncludeOrder.SelfIncludeFails | utils/simple_compiler.py:104 | a file that includes itself is rejected as circular |
| IncludeOrder.CountAllMeaning | utils/simple_compiler.py:107-110 | after `count_max_depth`, each counted file holds the larger of the depth and its earlier value (or -1); new files follow the existing keys in insertion order; other keys are unchanged |
| IncludeOrder.CountMaxDepth | utils/simple_compiler.py:107-110 | the loop of `count_max_depth` computes `CountAll` |
| IncludeOrder.BfsCallsRealised | utils/simple_compiler.py:115 | on a tree realising the include structure, `bfs_map` makes the calls `BfsCalls` lists |
| IncludeOrder.BfsCountMaxDepth | utils/simple_compiler.py:113-116 | `bfs_count_max_depth` computes `DepthRecord` |
| IncludeOrder.DepthRecordMeaning | utils/simple_compiler.py:113-116 | the record holds exactly the entry file and its direct includes, the entry first; the includes have depth 1, and the entry depth 0 unless it includes itself |
| IncludeOrder.DepthRecordOrder | utils/simple_compiler.py:113-116 | without a self-include the record's key order is the entry file, then its includes at their first occurrence |
| IncludeOrder.CountAllOrder | utils/simple_compiler.py:107-110 | counting new files appends each at its first occurrence |
| IncludeOrder.Unique | utils/simple_compiler.py:107-110 | the elements of a sequence, without repeats |
| IncludeOrder.Insert | utils/simple_compiler.py:126 | an insertion step of the sort keeps every file keyed |
| IncludeOrder.SortByDepth | utils/simple_compiler.py:126 | the sort keeps every file keyed |
| IncludeOrder.InsertPermutes | utils/simple_compiler.py:126 | insertion adds exactly the inserted file |
| IncludeOrder.SortPermutes | utils/simple_compiler.py:126 | the sorted keys are a permutation of the record's keys |
| IncludeOrder.InsertDescending | utils/simple_compiler.py:126 | insertion into a descending run gives a descending run |
| IncludeOrder.SortDescending | utils/simple_compiler.py:126 | the keys are ordered by decreasing depth (`reverse=True`) |
| IncludeOrder.InsertLevel | utils/simple_compiler.py:126 | insertion keeps the relative order of the files of each depth |
| IncludeOrder.SortLevel | utils/simple_compiler.py:126 | the sort is stable: files of equal depth keep their insertion order |
| IncludeOrder.LevelConst | utils/simple_compiler.py:126 | a run all of one depth is its own level, and a run with none of it has an empty level |
| IncludeOrder.TwoLevels | utils/simple_compiler.py:126 | a descending run over depths 1 and 0 is its depth-1 files followed by its depth-0 files |
| IncludeOrder.SortTwoLevels | utils/simple_compiler.py:126 | sorting files at depths 1 and 0 puts the depth-1 files first and the depth-0 files after them, each group in its original order |
| IncludeOrder.RootLast | utils/simple_compiler.py:126 | sorting the entry file at depth 0 followed by its includes at depth 1 moves the entry behind them |
| IncludeOrder.InclOrder | utils/simple_compiler.py:125-126 | `incl_order` holds exactly the entry file and its direct includes |
| IncludeOrder.InclOrderShape | utils/simple_compiler.py:125-126 | without a self-include, `incl_order` is the direct includes at their first occurrence, then the entry file |
| IncludeOrder.KeptIndices | utils/simple_compiler.py:131 | the kept positions are exactly the positions of the file that are not directive lines, in increasing order |
| IncludeOrder.JoinKept | utils/simple_compiler.py:131 | the generator join gives the file's lines at the kept positions, concatenated |
| IncludeOrder.Assemble | utils/simple_compiler.py:128-131 | the loop builds `Assembled`: the text of each file in order, each followed by a newline |
| IncludeOrder.Compile | utils/simple_compiler.py:123-131 | `main` (build, circuit check, depth count, sort, assembly) computes `Compiled` |
| IncludeOrder.CompiledOrder | utils/simple_compiler.py:123-131 | a successful compilation writes the entry file's direct includes, each once at its first occurrence, then the entry file |
| IncludeOrder.CompiledErrors | utils/simple_compiler.py:123-131 | `main` fails with the build's error when the build fails; otherwise it succeeds exactly when no walk of includes from the entry file is circular |

## Left out

- File system and I/O:
  - Reading files, listing folders, `Path.absolute()`, `exists()`,
    `is_relative_to()` and `rglob()` are inputs: the fields of `Fs` and the
    `Subrepo`/`Impl` values.
  - Path identities are opaque strings, so two spellings of one file are two
    files.
  - Writing the output file is left out: `Compile` returns the text.
- The warning of `search_name` is recorded in `Resolution.warned` only,
  because `warnings.warn` has no effect on the result.
- IncludeBuild.FormTreeRecursive: the node objects of the build are stood
  for by one child list per file (`Lists`). All copies of a file's node
  share one list, and the model keeps the list contents only. Father links,
  detached copies and the scaffold root's unbinding in `form_tree` are
  modelled separately by the `SimpleTree` classes. They are not traced
  through the build, so aliasing between build nodes is not captured.
- IncludeBuild.FormTreeRecursive: the parser is passed as a parameter
  (`read`). The build lemmas therefore hold for any parser, and `Build`
  uses `ReadInclude`.
- SimpleTree.DfsMap: the walk reads payloads and child lists only. The
  `Tree` wrappers that `iter` creates and caches while walking are not
  created, because they change nothing the walk or its callback observes.
  The callback is a function value that must reject paths ending in a
  repeated payload, as `circuit_check` does. With any other callback,
  `dfs_map` does not terminate on cyclic includes.
- SimpleTree.BfsMap: `bfs_map` takes a callback in the source. The model
  returns the sequence of calls it makes, and `bfs_count_max_depth` replays
  them through `count_max_depth`. In the source, `chain(*base)` iterates the
  root through `Tree.__iter__`, which creates a wrapper for each child of the
  root and caches it in that child; BfsMap has no modifies clause and creates
  no wrappers, since it reads only payloads and child lists.
- IncludeOrder.CountMaxDepth: the record is returned rather than updated in
  place, and the insertion order of the dictionary is kept as the `order`
  field of `Record`.
- IncludeOrder.BfsCountMaxDepth: it is stated over the include structure as
  a map from each file to its includes, not over the node objects.
  `BfsCallsRealised` links it to `bfs_map`'s calls on a tree that realises
  that map.
- IncludeOrder.SortByDepth: Python's stable sort is modelled by insertion
  sort. It is specified by the three properties that define a stable
  descending sort: `SortPermutes`, `SortDescending` and `SortLevel`.
- The `KeyError` that `file_data[p]` could raise in `main` cannot occur:
  every sorted key was recorded by the build (`CompiledOrder`).
- `Tree.__repr__`, `is_subtree`, `n_children`, `append_obj` and
  `append_tree` are not used by the core and are not modelled.
- The `main` of `utils/update_from_metadata.py` (the JSON diff against
  `repo.json`) is not part of this model.
