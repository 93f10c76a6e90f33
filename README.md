# git-digger, modelled in Dafny

git-digger walks a directory tree and finds the git repositories in it. For
each repository it collects the e-mail addresses of the commit authors since
a given date. It then writes a GraphML document with one `project` node per
repository, a `contributor` node for each contributor of each repository
(not deduplicated) and one edge from each contributor to each repository they
committed to. Everything lives in
`main.go`.

The model has five modules:

- `Paths` (`paths.dfy`) defines how walk paths nest. Below the walk's root,
  a child's path is its directory's path, a `/` and the child's name, which is
  what `filepath.Join` gives for a clean directory path. The module proves
  that nesting is transitive and that whatever lies inside two apart
  directories is itself apart.
- `Scanner` (`scanner.dfy`) holds the class `Repository`: the run's
  since-date setting and the graph `map<string, set<string>>` that `Scan`
  fills in place.
  - `Scan` is the callback `filepath.Walk` calls for every entry. It returns
    `Continue`, `SkipDir` or `Abort(err)`, the three ways the Go callback
    steers the walk (`nil`, `filepath.SkipDir`, any other error).
  - The calls into go-git and `time.Parse` are not modelled. Their outcomes
    for an entry come in as a `Probe` value, together with the author e-mail
    of every commit the log iterator visits, in order. `Scan` folds those
    e-mails into the entry's contributor set in a loop.
- `Walker` (`walker.dfy`) models `filepath.Walk` as a pre-order walk over a
  tree of entries. Each entry says whether `lstat` reports a directory; a
  symbolic link is not one.
  - `WalkResult` is the reference walk. It scans each entry before its
    children. `SkipDir` from a directory prunes that directory. `SkipDir`
    from any other entry, such as a symbolic link that `git.PlainOpen` opens
    as a repository, skips the rest of the directory holding it. Any other
    error stops the whole walk, so the error returned is the first one met in
    walk order.
  - The methods `Walk` (the library's entry point), `WalkEntry` (its per-entry
    step) and `WalkChildren` (the loop over a directory) end in exactly the
    graph and outcome that `WalkResult` gives.
  - The lemmas about `WalkResult` state what it records. No recorded path lies
    inside another. Every recorded key is a repository the walk reaches, with
    its author set. The walk returns an error exactly when it reaches an entry
    with a walk error, and otherwise it records every repository it reaches.
  - The root is the path argument as given. It may be `.` or end in a
    separator, and its children's paths need not extend it: the walk from `.`
    visits `a`, not `./a`.
  - Every definition takes a flag that selects the callback: `Scan` as
    written or the corrected `ScanCorrected` (see Findings).
- `GraphBuild` (`graph_build.dfy`) holds the two loops that project the graph
  onto GraphML node and edge records.
  - Go's map iteration order is unspecified, so the loops pick the next key
    or contributor with `:|`.
  - Results are stated as contents and counts, never as order.
  - It also holds a corrected projection that emits one node per distinct
    contributor (see Findings).
- `Digger` (`digger.dfy`) holds `Run`, the body of the command. It refuses an
  empty root path, scans with a fresh `Repository`, ignores the walk's result
  as the source does, and builds the records with the command's two loops
  (`Build`).

Behaviour of the code that the model keeps:

- If the since date does not parse, `Scan` prints the error and returns
  `nil` without recording the repository (`main.go:58-62`).
- If the commit log cannot be opened, `Scan` returns `nil` without recording
  the repository (`main.go:64-67`).
- A walk error handed to the callback is returned as is (`main.go:48-51`).
  That stops the whole `filepath.Walk`, and the repositories after it in walk
  order are not scanned.
- `Scan` returns `filepath.SkipDir` for every entry it records
  (`main.go:74`), also for one that is not a directory. The walk then skips
  the rest of that entry's directory. This is listed under Findings.
- Contributor nodes are not deduplicated (`main.go:107-112`). A contributor
  of two repositories gets two nodes with the same id, while GraphML requires
  node ids to be unique. This is listed under Findings.

## Model

| member | source | states |
|---|---|---|
| Scanner.Repository.constructor | main.go:93-97 | A run starts with an empty graph and the given since-date setting. |
| Scanner.Repository.Scan | main.go:47-75 | A walk error is returned unchanged and leaves the graph alone. An entry that does not open as a repository, an unparsable since date or a log that does not open leaves the graph alone and lets the walk descend. Otherwise the entry's key is set to the set of all commit authors and the subtree is pruned. SkipDir is returned exactly when the entry is recorded. |
| Scanner.Repository.ScanCorrected | main.go:47-75 | The corrected callback: the same graph update as `Scan` and the same walk error and nil cases. SkipDir is returned exactly when the entry is recorded and is a directory; a recorded non-directory returns nil. |
| Walker.Walk | main.go:99 | `filepath.Walk` from the root ends in exactly the graph of the reference walk `WalkResult`, and returns its error, with SkipDir passed up from the root counting as no error. |
| Walker.WalkEntry | main.go:99 | The walk of one entry ends in exactly the graph and outcome of `WalkResult`. A walk error stops it with the graph unchanged. A recorded entry is added and its SkipDir passed up. A directory the callback lets through has its children walked. Any other entry passes nil up. |
| Walker.WalkChildren | main.go:99 | The loop over a directory's children ends in exactly the graph and outcome of `ChildrenResult`. The children are walked in order. The first error, or SkipDir from a child that is not a directory, stops the loop and is passed up. SkipDir from a child directory does not stop it. |
| Walker.NextChildApart | main.go:99 | Before the next child is walked, every key recorded so far is apart from that child's path and from its children's paths. This is why a nested repository is never reported. |
| Walker.ReposInside | main.go:99 | Below the root, every repository a walk can record lies at or inside the entry walked from. |
| Walker.WalkResultWalked | main.go:99 | Walking from an entry over a graph whose keys are unnested and apart from it, for either callback: no recorded path lies inside another; old keys keep their values; each new key is a repository the walk reaches, with its author set; an error passed up is one the walk reaches; an error is passed up exactly when the walk reaches one; otherwise every repository it reaches is recorded. |
| Walker.ChildrenResultWalked | main.go:99 | The same outcome for the loop over a directory's children from any point, given the state the earlier children left. This covers a loop ended by a recorded non-directory. |
| Walker.WalkedFromEmpty | main.go:93-99 | From the fresh empty graph, the walk records only repositories it reaches, with no recorded path inside another. It passes an error up exactly when it reaches one, records every repository it reaches when it does not, and records nothing when it reaches none. |
| Walker.CorrectedReposOutermost | main.go:74 | With the corrected callback, the repositories the walk reaches are exactly the recordable entries of the tree that lie inside no other recordable entry. An entry is recordable when it has no walk error, opens as a repository, the since date parses and its log opens. A repository inside a git repository whose log does not open therefore counts as lying inside no other; when the date does not parse, no entry is recordable. |
| Walker.CorrectedWalkComplete | main.go:74 | With the corrected callback, a walk from the whole tree records only recordable entries that lie inside no other recordable entry, and all of them when it reaches no error. An entry is recordable when `Scan` would record it: a git repository whose log does not open is not one, and when the since date does not parse none is. |
| Walker.SymlinkSkipsSibling | main.go:74 | On a directory holding a symbolic link to a repository and then a repository `d/z`, the walk reaches no error and `d/z` lies inside no other repository. Even so, the callback as written records only the link. The corrected callback records both. |
| Walker.DotRootWalk | main.go:99 | A walk from `.` over a repository `a` holding an unreadable entry `a/d`: with a parsable since date, `a` is recorded with its distinct authors and the error inside it is never reached; otherwise the walk descends into `a` and stops with that error. |
| GraphBuild.AppendContributors | main.go:107-113 | The inner loop appends, for each non-empty contributor, one contributor node and one edge to the repository, in step. The new edges are exactly the repository's edges, each once. Project nodes are unchanged. |
| GraphBuild.AppendRepository | main.go:102-113 | One turn of the outer loop. An empty key adds nothing. A non-empty key adds one project node and its contributors' records. |
| GraphBuild.Build | main.go:101-114 | The document holds exactly one project node per non-empty key and exactly one edge per pair of a non-empty key and a non-empty contributor in its set. The contributor node ids, in order, are the edge sources. Every node is a project or a contributor node. |
| GraphBuild.ProjectionCounts | main.go:101-114 | Project-node count = number of non-empty keys; contributor-node count = edge count = number of (key, contributor) pairs; total = their sum. |
| GraphBuild.ProjectionEdges | main.go:107-112 | An edge exists iff its target is a non-empty key and its source is a non-empty contributor of that key. Every edge target is a project node. |
| GraphBuild.ProjectionNodes | main.go:103-111 | Project nodes are exactly the non-empty keys. Contributor nodes are exactly the non-empty contributors of non-empty keys. No node has an empty id. |
| GraphBuild.EmptyProjection | main.go:101-114 | A graph with no non-empty key yields no nodes and no edges. |
| GraphBuild.SourcesPermutation | main.go:111-112 | Any two emission orders of the same edges give the same contributor ids up to order, so the counts hold whatever order the map yields. |
| GraphBuild.DuplicateContributorNodes | main.go:111 | For two repositories sharing a contributor, that contributor's id is emitted twice, in every iteration order. |
| GraphBuild.EmitContributorOnce | main.go:107-112 | Corrected inner step: a non-empty contributor always gets its edge, and gets a node only if no node was emitted for it before. |
| GraphBuild.AppendContributorsOnce | main.go:107-113 | Corrected inner loop: an edge per non-empty contributor; the emitted set grows by exactly the non-empty contributors; the contributor ids stay exactly the emitted set, each once. |
| GraphBuild.AppendRepositoryOnce | main.go:102-113 | One turn of the corrected outer loop, keeping the deduplicated projection of the keys done. |
| GraphBuild.BuildDeduplicated | main.go:101-114 | The corrected document: as `Build` for project nodes and edges, but the contributor ids are exactly the distinct non-empty contributors of non-empty keys. |
| GraphBuild.DeduplicatedCounts | main.go:101-114 | In the corrected document each contributor id occurs exactly once. Node count = non-empty keys + distinct contributors. |
| GraphBuild.DeduplicatedNodes | main.go:101-114 | In the corrected document, project nodes are exactly the non-empty keys, contributor nodes exactly the non-empty contributors of non-empty keys, and edges exactly the (contributor, key) memberships. |
| GraphBuild.DeduplicatedEmpty | main.go:101-114 | A graph with no non-empty key yields an empty corrected document. |
| GraphBuild.DeduplicatedContributorNodes | main.go:111 | On the same two repositories, the corrected document holds each contributor id once. |
| Digger.ProjectsUnnested | main.go:99-106 | In the document the command builds, no project node's id lies inside another project node's id when the scanned keys are unnested. |
| Digger.Run | main.go:87-114 | An empty root path gives no document. Otherwise the graph is the result of the reference walk with `Scan` as written, from the empty graph. The document is that graph's projection by the command's loops (`IsProjection`, one contributor node per repository and contributor). Every scanned key is a repository the walk reaches, with its author set. When the walk reaches no walk error, every repository it reaches is scanned. Project ids are pairwise not nested. A walk that reaches no repository gives an empty document. |

## Left out

- The go-git calls (`git.PlainOpen`, `Repository.Log` with all references and the since filter, the commit iterator) and `time.Parse`. Their outcomes are inputs: the `Probe` fields and `Repository.sinceParses`. Which commits the since date admits is therefore part of the input `authors`.
- `Scanner.Repository.Scan`: an error returned from the commit iterator's `ForEach` is discarded by the source. The model takes `authors` to be the commits the iterator visited before stopping, so a partial set is recorded, as in the source.
- The printing of errors (`fmt.Println`), `cmd.Help` and the process exit status. `Digger.Run` returns `None` where the source prints help and exits with status 1.
- Creating `graph.graphml` and encoding the XML (`main.go:116-128`), and the cobra flag parsing (`main.go:132-138`). These are I/O.
- `filepath.Walk` itself.
  - It is modelled as a walk over a given tree of entries, children in the order the tree lists them (the library sorts them by name).
  - An `lstat` or directory-read error becomes the `walkError` of that entry.
  - Symbolic links are not followed: `lstat` reports them as entries that are not directories, and the walk does not descend into them.
  - Paths use `/` as the separator.
  - The paths are data of the tree; `filepath.Join` and `filepath.Clean` are not computed. `WalkRoot` asks only what their results satisfy: below the root, a child's path is its directory's path, a `/` and its name, and siblings are apart. The root path, and how its children's paths relate to it, are left free.
- Regular files and symbolic links are entries that are not directories. The model lets any entry open as a repository. Whether `git.PlainOpen` opens a regular file is left to the input `opensAsRepo`.
- `Digger.Run` walks with `Scan` as written, so a repository after a recorded non-directory in the same directory is not scanned (see Findings); the corrected callback is proved on its own through `Walker.Walk` with the flag set.
- `Digger.Run` builds its document with the command's loops as written (`GraphBuild.Build`), so a contributor of several repositories gets several nodes with the same id. The corrected projection `GraphBuild.BuildDeduplicated` is proved on its own and is not part of the run.
- The map iteration order of Go is not modelled as any particular order. Every property holds for each order the `:|` choices can take.

## Findings

| source | as written | input that shows it | evidently intended | confidence | as-written member | corrected member |
|---|---|---|---|---|---|---|
| main.go:74 | `Scan` returns `filepath.SkipDir` for every entry it records. For an entry that is not a directory, such as a symbolic link to a repository (which `git.PlainOpen` opens through the link), `filepath.Walk` then skips the rest of the directory holding it. | A directory `d` holding the symbolic link `d/link` to a repository, then the repository `d/z`: only `d/link` is recorded. `d/z` is never scanned, although it lies inside no other repository and the walk meets no error. | Prune only a recorded directory's own subtree: return `filepath.SkipDir` for a directory and `nil` for any other entry. | medium; not executed | Walker.SymlinkSkipsSibling | Walker.CorrectedWalkComplete |
| main.go:111 | A `contributor` node is appended for every (repository, contributor) pair, so a contributor of two repositories gets two nodes with the same id. GraphML requires node ids to be unique in a document. | Graph `{"A": {"alice@x.com", "bob@x.com"}, "B": {"alice@x.com"}}`: the contributor ids are `alice@x.com` twice and `bob@x.com` once. | One node per distinct contributor across the whole graph, with one edge per repository it contributed to. | not executed | GraphBuild.DuplicateContributorNodes | GraphBuild.BuildDeduplicated |
