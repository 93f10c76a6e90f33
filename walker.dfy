/**
 An abstract pre-order file-system walk, as filepath.Walk runs it with
 `Repository.Scan` as its callback: each entry is scanned before its children,
 SkipDir from a directory prunes that directory, SkipDir from any other entry
 skips the rest of the directory holding it, and any other error stops the
 whole walk. `WalkResult` is the reference definition of that walk; the
 methods are proved against it, and the lemmas state what it records.

 Every definition takes `corrected`, which selects the callback: `false` is
 Scan as written, `true` the corrected `ScanCorrected`.
 */
module Walker {
  import opened Paths
  import opened Scanner

  /**
   One visited entry: its path, whether lstat reports a directory (a symbolic
   link is not one), the library outcomes for it, and its children in walk order.
   */
  datatype Entry = Entry(path: string, isDir: bool, probe: Probe, children: seq<Entry>)

  /** No two children of `t` are, or lie inside, one another. */
  ghost predicate SiblingsApart(t: Entry)
  {
    forall i, j :: 0 <= i < j < |t.children| ==> Apart(t.children[i].path, t.children[j].path)
  }

  /**
   A subtree below the walk's root: every child lies inside its parent, and
   siblings are apart. filepath.Join yields `dir/name` for the clean directory
   paths the walk produces below its root.
   */
  ghost predicate WellFormed(t: Entry)
    decreases t
  {
    && (forall i :: 0 <= i < |t.children| ==> Under(t.children[i].path, t.path) && WellFormed(t.children[i]))
    && SiblingsApart(t)
  }

  /**
   The tree filepath.Walk visits from its root. The root's path is the argument
   as given, such as "." or "src/", and filepath.Join cleans its children's
   paths ("a", "src/a"), so they need not extend it; below the root, paths nest.
   */
  ghost predicate WalkRoot(t: Entry)
  {
    && SiblingsApart(t)
    && forall i :: 0 <= i < |t.children| ==> WellFormed(t.children[i])
  }

  /**
   The graph after walking from `t` over `g`, and what the walk of `t` passes
   up to its directory's loop (filepath.walk's result): the walk error, the
   callback's SkipDir for a recorded entry, or the outcome of the loop over a
   directory's children.
   */
  ghost function WalkResult(t: Entry, sinceParses: bool, corrected: bool, g: Graph): (result: (Graph, Decision))
    decreases t, 1
  {
    if t.probe.walkError.Some? then (g, Abort(t.probe.walkError.value))
    else if Records(t.probe, sinceParses) then
      (g[t.path := AuthorSet(t.probe.authors)], if corrected && !t.isDir then Continue else SkipDir)
    else if !t.isDir then (g, Continue)
    else ChildrenResult(t, 0, sinceParses, corrected, g)
  }

  /**
   Walks the children of `t` from the `i`-th on. An error stops the loop and is
   passed up; so is SkipDir from a child that is not a directory, which ends
   the loop; SkipDir from a directory only pruned that directory.
   */
  ghost function ChildrenResult(t: Entry, i: nat, sinceParses: bool, corrected: bool, g: Graph): (result: (Graph, Decision))
    requires i <= |t.children|
    decreases t, 0, |t.children| - i
  {
    if i == |t.children| then (g, Continue)
    else
      var (next, d) := WalkResult(t.children[i], sinceParses, corrected, g);
      if d.Abort? || (d.SkipDir? && !t.children[i].isDir) then (next, d)
      else ChildrenResult(t, i + 1, sinceParses, corrected, next)
  }

  /** A non-directory that Scan as written records returns SkipDir, which ends the loop over its directory. */
  predicate Ends(c: Entry, sinceParses: bool, corrected: bool)
  {
    !corrected && !c.isDir && Records(c.probe, sinceParses)
  }

  /** How many children of `t`, counting from the `i`-th, a walk without errors reaches. */
  function Reach(t: Entry, sinceParses: bool, corrected: bool, i: nat): (n: nat)
    requires i <= |t.children|
    ensures i <= n <= |t.children|
    decreases |t.children| - i
  {
    if i == |t.children| then i
    else if Ends(t.children[i], sinceParses, corrected) then i + 1
    else Reach(t, sinceParses, corrected, i + 1)
  }

  /**
   The errors the walk meets in the part of the tree it reaches, if it were to
   go on after each: the entry's own walk error, nothing below a recorded entry
   or inside a non-directory, and otherwise those of the children it reaches.
   */
  ghost function ReachableErrors(t: Entry, sinceParses: bool, corrected: bool): (errs: set<string>)
    decreases t
  {
    if t.probe.walkError.Some? then {t.probe.walkError.value}
    else if Records(t.probe, sinceParses) || !t.isDir then {}
    else
      set j, e | 0 <= j < Reach(t, sinceParses, corrected, 0) && e in ReachableErrors(t.children[j], sinceParses, corrected) :: e
  }

  /**
   The repositories a walk without errors records: none at an entry with a walk
   error, the entry itself if Scan records it (its subtree is then pruned),
   none inside a non-directory, and otherwise those of the children it reaches.
   */
  ghost function Repos(t: Entry, sinceParses: bool, corrected: bool): (repos: set<(string, Contributors)>)
    decreases t
  {
    if t.probe.walkError.Some? then {}
    else if Records(t.probe, sinceParses) then {(t.path, AuthorSet(t.probe.authors))}
    else if !t.isDir then {}
    else set j, x | 0 <= j < Reach(t, sinceParses, corrected, 0) && x in Repos(t.children[j], sinceParses, corrected) :: x
  }

  /**
   Every entry of the tree that the callback records (`Records`: no walk
   error, opens as a repository, the since date parses and the log opens) and
   that lies inside no other such entry: what a scan of the tree is meant to
   find, whichever order the walk takes. A git repository whose log does not
   open is not recorded, so repositories inside it still count as lying inside
   no other; when the date does not parse, nothing is recorded at all.
   */
  ghost function Outermost(t: Entry, sinceParses: bool): (repos: set<(string, Contributors)>)
    decreases t
  {
    if t.probe.walkError.Some? then {}
    else if Records(t.probe, sinceParses) then {(t.path, AuthorSet(t.probe.authors))}
    else if !t.isDir then {}
    else set j, x | 0 <= j < |t.children| && x in Outermost(t.children[j], sinceParses) :: x
  }

  /** No recorded path lies strictly inside another. */
  ghost predicate Unnested(keys: set<string>)
  {
    forall p, q :: p in keys && q in keys ==> !Under(p, q)
  }

  /** `k` is apart from the entry's path and from each of its children's paths. */
  ghost predicate ApartFrom(k: string, t: Entry)
  {
    Apart(k, t.path) && forall i :: 0 <= i < |t.children| ==> Apart(k, t.children[i].path)
  }

  /** Every child before the `i`-th was walked past, so the `i`-th is reached; it is the last one reached if it ends the loop. */
  lemma {:induction false} ReachStep(t: Entry, sinceParses: bool, corrected: bool, k: nat, i: nat)
    requires k <= i < |t.children|
    requires forall j :: k <= j < i ==> !Ends(t.children[j], sinceParses, corrected)
    ensures i < Reach(t, sinceParses, corrected, k)
    ensures Ends(t.children[i], sinceParses, corrected) ==> Reach(t, sinceParses, corrected, k) == i + 1
    decreases i - k
  {
    if k < i {
      ReachStep(t, sinceParses, corrected, k + 1, i);
    }
  }

  /** A loop no child ends reaches every child. */
  lemma {:induction false} ReachAll(t: Entry, sinceParses: bool, corrected: bool, k: nat)
    requires k <= |t.children|
    requires forall j :: k <= j < |t.children| ==> !Ends(t.children[j], sinceParses, corrected)
    ensures Reach(t, sinceParses, corrected, k) == |t.children|
    decreases |t.children| - k
  {
    if k < |t.children| {
      ReachAll(t, sinceParses, corrected, k + 1);
    }
  }

  lemma {:induction false} ReposInside(t: Entry, sinceParses: bool, corrected: bool, x: (string, Contributors))
    requires WellFormed(t) && x in Repos(t, sinceParses, corrected)
    ensures AtOrUnder(x.0, t.path)
    decreases t
  {
    if t.probe.walkError.None? && !Records(t.probe, sinceParses) {
      var i :| 0 <= i < Reach(t, sinceParses, corrected, 0) && x in Repos(t.children[i], sinceParses, corrected);
      ReposInside(t.children[i], sinceParses, corrected, x);
      AtOrUnderTransitive(x.0, t.children[i].path, t.path);
    }
  }

  /** With the corrected callback the walk reaches every repository that lies inside no other. */
  lemma {:induction false} CorrectedReposOutermost(t: Entry, sinceParses: bool)
    ensures Repos(t, sinceParses, true) == Outermost(t, sinceParses)
    decreases t
  {
    if t.probe.walkError.None? && !Records(t.probe, sinceParses) && t.isDir {
      ReachAll(t, sinceParses, true, 0);
      forall j | 0 <= j < |t.children|
        ensures Repos(t.children[j], sinceParses, true) == Outermost(t.children[j], sinceParses)
      {
        CorrectedReposOutermost(t.children[j], sinceParses);
      }
    }
  }

  /** Whatever lies at or inside a path apart from `t`'s is apart from `t` and its children. */
  lemma ApartBelow(a: string, k: string, t: Entry)
    requires WellFormed(t) && Apart(a, t.path) && AtOrUnder(k, a)
    ensures ApartFrom(k, t)
  {
    ApartDescendants(a, t.path, k, t.path);
    forall i | 0 <= i < |t.children|
      ensures Apart(k, t.children[i].path)
    {
      ApartDescendants(a, t.path, k, t.children[i].path);
    }
  }

  /** What a reached child's walk records or meets belongs to its parent's walk when the parent is walked into. */
  lemma ChildContained(t: Entry, i: int, sinceParses: bool, corrected: bool)
    requires t.probe.walkError.None? && !Records(t.probe, sinceParses) && t.isDir
    requires 0 <= i < Reach(t, sinceParses, corrected, 0)
    ensures Repos(t.children[i], sinceParses, corrected) <= Repos(t, sinceParses, corrected)
    ensures ReachableErrors(t.children[i], sinceParses, corrected) <= ReachableErrors(t, sinceParses, corrected)
  {
  }

  /** Every repository in `xs` is a key of `g` mapped to its author set. */
  ghost predicate Holds(g: Graph, xs: set<(string, Contributors)>)
  {
    forall x :: x in xs ==> x.0 in g && g[x.0] == x.1
  }

  /** `after` keeps every key of `before` with its value. */
  ghost predicate Extends(before: Graph, after: Graph)
  {
    forall k :: k in before ==> k in after && after[k] == before[k]
  }

  /** Every key `after` adds to `before` is recorded as one of the repositories `xs`. */
  ghost predicate NewKeysIn(before: Graph, after: Graph, xs: set<(string, Contributors)>)
  {
    forall k :: k in after && k !in before ==> (k, after[k]) in xs
  }

  /** The repositories of the first `i` children of `t`. */
  ghost function ReposBefore(t: Entry, i: nat, sinceParses: bool, corrected: bool): (repos: set<(string, Contributors)>)
    requires i <= |t.children|
  {
    set j, x | 0 <= j < i && x in Repos(t.children[j], sinceParses, corrected) :: x
  }

  lemma HoldsExtended(xs: set<(string, Contributors)>, before: Graph, after: Graph)
    requires Holds(before, xs) && Extends(before, after)
    ensures Holds(after, xs)
  {
  }

  /** Keys added in two steps come from either step's repositories, and the first graph is kept. */
  lemma NewKeysStep(start: Graph, before: Graph, after: Graph, xs: set<(string, Contributors)>, ys: set<(string, Contributors)>)
    requires Extends(start, before) && NewKeysIn(start, before, xs)
    requires Extends(before, after) && NewKeysIn(before, after, ys)
    ensures Extends(start, after) && NewKeysIn(start, after, xs + ys)
  {
    forall k | k in after && k !in start
      ensures (k, after[k]) in xs + ys
    {
      if k in before {
        assert after[k] == before[k];
      }
    }
  }

  /** The repositories of the first `i + 1` children add those of the `i`-th. */
  lemma ReposBeforeStep(t: Entry, i: nat, sinceParses: bool, corrected: bool)
    requires i < |t.children|
    ensures ReposBefore(t, i + 1, sinceParses, corrected) ==
            ReposBefore(t, i, sinceParses, corrected) + Repos(t.children[i], sinceParses, corrected)
  {
  }

  /** The repositories of children the walk reaches are the directory's, and all of them when it reaches the last. */
  lemma ReposBeforeReached(t: Entry, m: nat, sinceParses: bool, corrected: bool)
    requires t.probe.walkError.None? && !Records(t.probe, sinceParses) && t.isDir
    requires m <= Reach(t, sinceParses, corrected, 0)
    ensures ReposBefore(t, m, sinceParses, corrected) <= Repos(t, sinceParses, corrected)
    ensures m == Reach(t, sinceParses, corrected, 0) ==> ReposBefore(t, m, sinceParses, corrected) == Repos(t, sinceParses, corrected)
  {
  }

  /**
   The outcome of walking from `t`, taking the graph from `before` to `after`
   and passing up `d`: no recorded path lies inside another, the keys present
   before are untouched, every new key is a repository the walk reaches with
   its author set, an error passed up is one the walk reaches, an error is
   passed up exactly when the walk reaches one, and otherwise every repository
   the walk reaches is recorded.
   */
  ghost predicate Walked(t: Entry, sinceParses: bool, corrected: bool, before: Graph, after: Graph, d: Decision)
  {
    && Unnested(after.Keys)
    && Extends(before, after)
    && NewKeysIn(before, after, Repos(t, sinceParses, corrected))
    && (d.Abort? ==> d.err in ReachableErrors(t, sinceParses, corrected))
    && (d.Abort? <==> ReachableErrors(t, sinceParses, corrected) != {})
    && (!d.Abort? ==> Holds(after, Repos(t, sinceParses, corrected)))
  }

  /** The state of the loop over the children of `t` once the first `i` have been walked past. */
  ghost predicate ChildrenWalked(t: Entry, i: nat, sinceParses: bool, corrected: bool, start: Graph, now: Graph)
    requires i <= |t.children|
  {
    && Unnested(now.Keys)
    && Extends(start, now)
    && NewKeysIn(start, now, ReposBefore(t, i, sinceParses, corrected))
    && (forall j :: 0 <= j < i ==> !Ends(t.children[j], sinceParses, corrected))
    && (forall j :: 0 <= j < i ==>
          ReachableErrors(t.children[j], sinceParses, corrected) == {} && Holds(now, Repos(t.children[j], sinceParses, corrected)))
  }

  /** Every key recorded so far is apart from the next child to walk and from its children. */
  lemma NextChildApart(t: Entry, i: nat, sinceParses: bool, corrected: bool, start: Graph, now: Graph)
    requires WalkRoot(t) && i < |t.children|
    requires forall k :: k in start ==> ApartFrom(k, t)
    requires NewKeysIn(start, now, ReposBefore(t, i, sinceParses, corrected))
    ensures forall k :: k in now ==> ApartFrom(k, t.children[i])
  {
    forall k | k in now
      ensures ApartFrom(k, t.children[i])
    {
      if k in start {
        ApartBelow(k, k, t.children[i]);
      } else {
        var j :| 0 <= j < i && (k, now[k]) in Repos(t.children[j], sinceParses, corrected);
        ReposInside(t.children[j], sinceParses, corrected, (k, now[k]));
        ApartBelow(t.children[j].path, k, t.children[i]);
      }
    }
  }

  /** The keys the loop has added once it walked the `i`-th child are repositories of the first `i + 1` children. */
  lemma NextChildKeys(t: Entry, i: nat, sinceParses: bool, corrected: bool, start: Graph, before: Graph, after: Graph)
    requires i < |t.children|
    requires Extends(start, before) && NewKeysIn(start, before, ReposBefore(t, i, sinceParses, corrected))
    requires Extends(before, after) && NewKeysIn(before, after, Repos(t.children[i], sinceParses, corrected))
    ensures Extends(start, after) && NewKeysIn(start, after, ReposBefore(t, i + 1, sinceParses, corrected))
  {
    NewKeysStep(start, before, after, ReposBefore(t, i, sinceParses, corrected), Repos(t.children[i], sinceParses, corrected));
    ReposBeforeStep(t, i, sinceParses, corrected);
  }

  /** Every child walked so far without error has all its repositories recorded. */
  lemma NextChildComplete(t: Entry, i: nat, sinceParses: bool, corrected: bool, start: Graph, before: Graph, after: Graph, d: Decision)
    requires i < |t.children| && !d.Abort?
    requires ChildrenWalked(t, i, sinceParses, corrected, start, before)
    requires Walked(t.children[i], sinceParses, corrected, before, after, d)
    ensures forall j :: 0 <= j < i + 1 ==>
              ReachableErrors(t.children[j], sinceParses, corrected) == {} && Holds(after, Repos(t.children[j], sinceParses, corrected))
  {
    forall j | 0 <= j < i + 1
      ensures ReachableErrors(t.children[j], sinceParses, corrected) == {} && Holds(after, Repos(t.children[j], sinceParses, corrected))
    {
      if j < i {
        HoldsExtended(Repos(t.children[j], sinceParses, corrected), before, after);
      }
    }
  }

  /** Walking past the next child, which does not end the loop, extends the loop state by that child. */
  lemma NextChildWalked(t: Entry, i: nat, sinceParses: bool, corrected: bool, start: Graph, before: Graph, after: Graph, d: Decision)
    requires i < |t.children| && !d.Abort? && !Ends(t.children[i], sinceParses, corrected)
    requires ChildrenWalked(t, i, sinceParses, corrected, start, before)
    requires Walked(t.children[i], sinceParses, corrected, before, after, d)
    ensures ChildrenWalked(t, i + 1, sinceParses, corrected, start, after)
  {
    NextChildKeys(t, i, sinceParses, corrected, start, before, after);
    NextChildComplete(t, i, sinceParses, corrected, start, before, after, d);
  }

  /** The loop stops at the `i`-th child, which it reaches: the keys added are repositories of the directory. */
  lemma LastChildKeys(t: Entry, i: nat, sinceParses: bool, corrected: bool, start: Graph, before: Graph, after: Graph)
    requires t.probe.walkError.None? && !Records(t.probe, sinceParses) && t.isDir
    requires i < Reach(t, sinceParses, corrected, 0)
    requires Extends(start, before) && NewKeysIn(start, before, ReposBefore(t, i, sinceParses, corrected))
    requires Extends(before, after) && NewKeysIn(before, after, Repos(t.children[i], sinceParses, corrected))
    ensures Extends(start, after) && NewKeysIn(start, after, Repos(t, sinceParses, corrected))
  {
    NextChildKeys(t, i, sinceParses, corrected, start, before, after);
    ReposBeforeReached(t, i + 1, sinceParses, corrected);
  }

  /** A child's walk that stops with an error stops its parent's walk with that error. */
  lemma ChildAborted(t: Entry, i: nat, sinceParses: bool, corrected: bool, start: Graph, before: Graph, after: Graph, d: Decision)
    requires t.probe.walkError.None? && !Records(t.probe, sinceParses) && t.isDir && d.Abort?
    requires i < Reach(t, sinceParses, corrected, 0)
    requires ChildrenWalked(t, i, sinceParses, corrected, start, before)
    requires Walked(t.children[i], sinceParses, corrected, before, after, d)
    ensures Walked(t, sinceParses, corrected, start, after, d)
  {
    ChildContained(t, i, sinceParses, corrected);
    LastChildKeys(t, i, sinceParses, corrected, start, before, after);
  }

  /** The repositories and errors of a directory walked into are those of the children it reaches. */
  lemma ChildrenUnion(t: Entry, sinceParses: bool, corrected: bool, g: Graph)
    requires t.probe.walkError.None? && !Records(t.probe, sinceParses) && t.isDir
    requires forall j :: 0 <= j < Reach(t, sinceParses, corrected, 0) ==>
               ReachableErrors(t.children[j], sinceParses, corrected) == {} && Holds(g, Repos(t.children[j], sinceParses, corrected))
    ensures ReachableErrors(t, sinceParses, corrected) == {}
    ensures Holds(g, Repos(t, sinceParses, corrected))
  {
    forall x | x in Repos(t, sinceParses, corrected)
      ensures x.0 in g && g[x.0] == x.1
    {
      var j :| 0 <= j < Reach(t, sinceParses, corrected, 0) && x in Repos(t.children[j], sinceParses, corrected);
    }
  }

  /** A non-directory child that ends the loop ends its parent's walk, which passes its SkipDir up. */
  lemma ChildEnded(t: Entry, i: nat, sinceParses: bool, corrected: bool, start: Graph, before: Graph, after: Graph, d: Decision)
    requires t.probe.walkError.None? && !Records(t.probe, sinceParses) && t.isDir && !d.Abort?
    requires Reach(t, sinceParses, corrected, 0) == i + 1
    requires ChildrenWalked(t, i, sinceParses, corrected, start, before)
    requires Walked(t.children[i], sinceParses, corrected, before, after, d)
    ensures Walked(t, sinceParses, corrected, start, after, d)
  {
    LastChildKeys(t, i, sinceParses, corrected, start, before, after);
    NextChildComplete(t, i, sinceParses, corrected, start, before, after, d);
    ChildrenUnion(t, sinceParses, corrected, after);
  }

  /** Once every child is walked past, the parent's walk is complete. */
  lemma ChildrenDone(t: Entry, sinceParses: bool, corrected: bool, start: Graph, now: Graph)
    requires t.probe.walkError.None? && !Records(t.probe, sinceParses) && t.isDir
    requires ChildrenWalked(t, |t.children|, sinceParses, corrected, start, now)
    ensures Walked(t, sinceParses, corrected, start, now, Continue)
  {
    ReachAll(t, sinceParses, corrected, 0);
    ReposBeforeReached(t, |t.children|, sinceParses, corrected);
    ChildrenUnion(t, sinceParses, corrected, now);
  }

  /**
   The reference walk from `t` over a graph whose paths are unnested and apart
   from `t` and its children keeps that graph and records what `Walked` says.
   */
  lemma {:induction false} WalkResultWalked(t: Entry, sinceParses: bool, corrected: bool, g: Graph)
    requires WalkRoot(t) && Unnested(g.Keys)
    requires forall k :: k in g ==> ApartFrom(k, t)
    ensures Walked(t, sinceParses, corrected, g, WalkResult(t, sinceParses, corrected, g).0, WalkResult(t, sinceParses, corrected, g).1)
    decreases t, 1
  {
    if t.probe.walkError.None? && !Records(t.probe, sinceParses) && t.isDir {
      ChildrenResultWalked(t, 0, sinceParses, corrected, g, g);
    }
  }

  /** The reference walk over the children from the `i`-th on completes the loop state to `Walked`. */
  lemma {:induction false} ChildrenResultWalked(t: Entry, i: nat, sinceParses: bool, corrected: bool, start: Graph, now: Graph)
    requires WalkRoot(t) && i <= |t.children|
    requires t.probe.walkError.None? && !Records(t.probe, sinceParses) && t.isDir
    requires forall k :: k in start ==> ApartFrom(k, t)
    requires ChildrenWalked(t, i, sinceParses, corrected, start, now)
    ensures var (after, d) := ChildrenResult(t, i, sinceParses, corrected, now);
      Walked(t, sinceParses, corrected, start, after, d)
    decreases t, 0, |t.children| - i
  {
    if i == |t.children| {
      ChildrenDone(t, sinceParses, corrected, start, now);
    } else {
      ReachStep(t, sinceParses, corrected, 0, i);
      NextChildApart(t, i, sinceParses, corrected, start, now);
      WalkResultWalked(t.children[i], sinceParses, corrected, now);
      var (next, d) := WalkResult(t.children[i], sinceParses, corrected, now);
      if d.Abort? {
        ChildAborted(t, i, sinceParses, corrected, start, now, next, d);
      } else if d.SkipDir? && !t.children[i].isDir {
        ChildEnded(t, i, sinceParses, corrected, start, now, next, d);
      } else {
        NextChildWalked(t, i, sinceParses, corrected, start, now, next, d);
        ChildrenResultWalked(t, i + 1, sinceParses, corrected, start, next);
      }
    }
  }

  /**
   A walk from the whole tree over the empty graph records only repositories it
   reaches, stops with an error exactly when it reaches one, records every
   repository it reaches when it does not, and records nothing when it reaches
   none.
   */
  lemma WalkedFromEmpty(t: Entry, sinceParses: bool, corrected: bool)
    requires WalkRoot(t)
    ensures var (after, d) := WalkResult(t, sinceParses, corrected, map[]);
      && Unnested(after.Keys)
      && (forall k :: k in after ==> (k, after[k]) in Repos(t, sinceParses, corrected))
      && (d.Abort? ==> d.err in ReachableErrors(t, sinceParses, corrected))
      && (d.Abort? <==> ReachableErrors(t, sinceParses, corrected) != {})
      && (!d.Abort? ==> Holds(after, Repos(t, sinceParses, corrected)))
      && (Repos(t, sinceParses, corrected) == {} ==> after == map[])
  {
    WalkResultWalked(t, sinceParses, corrected, map[]);
  }

  /**
   With the corrected callback, a walk from the whole tree records exactly the
   repositories that lie inside no other when it reaches no error, and only
   such repositories in any case.
   */
  lemma CorrectedWalkComplete(t: Entry, sinceParses: bool)
    requires WalkRoot(t)
    ensures var (after, d) := WalkResult(t, sinceParses, true, map[]);
      && (forall k :: k in after ==> (k, after[k]) in Outermost(t, sinceParses))
      && (ReachableErrors(t, sinceParses, true) == {} ==> !d.Abort? && Holds(after, Outermost(t, sinceParses)))
  {
    WalkResultWalked(t, sinceParses, true, map[]);
    CorrectedReposOutermost(t, sinceParses);
  }

  /**
   A walk from "." whose child "a" is a repository with an unreadable entry
   "a/d" inside it: the root's child need not extend ".", and the error below
   the recorded repository is never reached, so the walk records "a" and
   passes no error up.
   */
  function DotRootTree(): (t: Entry)
  {
    var plain := Probe(None, false, false, []);
    var denied := Probe(Some("permission denied"), false, false, []);
    var repo := Probe(None, true, true, ["alice@x.com", "bob@x.com", "alice@x.com"]);
    Entry(".", true, plain, [Entry("a", true, repo, [Entry("a/d", true, denied, [])])])
  }

  lemma DotRootWalk(sinceParses: bool)
    ensures WalkRoot(DotRootTree())
    ensures ReachableErrors(DotRootTree(), sinceParses, false) == (if sinceParses then {} else {"permission denied"})
    ensures WalkResult(DotRootTree(), sinceParses, false, map[]) ==
              if sinceParses then (map["a" := {"alice@x.com", "bob@x.com"}], Continue)
              else (map[], Abort("permission denied"))
  {
    var t := DotRootTree();
    var a := t.children[0];
    var d := a.children[0];
    assert Under(d.path, a.path);
    assert Reach(t, sinceParses, false, 0) == 1;
    assert ReachableErrors(d, sinceParses, false) == {"permission denied"};
    if sinceParses {
      assert ReachableErrors(a, sinceParses, false) == {};
      assert AuthorSet(a.probe.authors) == {"alice@x.com", "bob@x.com"} by {
        assert a.probe.authors[1] == "bob@x.com";
      }
    } else {
      assert Reach(a, sinceParses, false, 0) == 1;
      assert ReachableErrors(a, sinceParses, false) == ReachableErrors(d, sinceParses, false) by {
        assert "permission denied" in ReachableErrors(d, sinceParses, false);
      }
      assert WalkResult(d, sinceParses, false, map[]) == (map[], Abort("permission denied"));
      assert ChildrenResult(a, 0, sinceParses, false, map[]) == WalkResult(d, sinceParses, false, map[]);
    }
    assert WalkResult(t, sinceParses, false, map[]) == ChildrenResult(t, 0, sinceParses, false, map[]);
    var (g1, e1) := WalkResult(a, sinceParses, false, map[]);
    if !e1.Abort? {
      assert ChildrenResult(t, 1, sinceParses, false, g1) == (g1, Continue);
    }
    assert "permission denied" in ReachableErrors(a, sinceParses, false) ==> "permission denied" in ReachableErrors(t, sinceParses, false);
  }

  /**
   A directory "d" holding a symbolic link "d/link" to a repository and then a
   repository "d/z". Scan as written records the link and returns SkipDir for
   it, so the walk skips the rest of "d": "d/z" lies inside no other
   repository and the walk reaches no error, yet it is never scanned. The
   corrected callback records both.
   */
  function SymlinkTree(): (t: Entry)
  {
    var plain := Probe(None, false, false, []);
    var repo := Probe(None, true, true, ["x@y.com"]);
    Entry(".", true, plain, [Entry("d", true, plain, [Entry("d/link", false, repo, []), Entry("d/z", true, repo, [])])])
  }

  lemma SymlinkSkipsSibling()
    ensures WalkRoot(SymlinkTree())
    ensures ReachableErrors(SymlinkTree(), true, false) == {}
    ensures ("d/z", {"x@y.com"}) in Outermost(SymlinkTree(), true)
    ensures WalkResult(SymlinkTree(), true, false, map[]) == (map["d/link" := {"x@y.com"}], Continue)
    ensures WalkResult(SymlinkTree(), true, true, map[]) == (map["d/link" := {"x@y.com"}, "d/z" := {"x@y.com"}], Continue)
  {
    SymlinkShape();
    SymlinkReach();
    SymlinkOutermost();
    SymlinkAsWritten();
    SymlinkCorrected();
  }

  lemma SymlinkShape()
    ensures WalkRoot(SymlinkTree())
  {
    var d := SymlinkTree().children[0];
    assert Under(d.children[0].path, d.path) && Under(d.children[1].path, d.path);
  }

  lemma SymlinkReach()
    ensures Reach(SymlinkTree().children[0], true, false, 0) == 1
    ensures Reach(SymlinkTree(), true, false, 0) == 1
    ensures ReachableErrors(SymlinkTree(), true, false) == {}
  {
    var d := SymlinkTree().children[0];
    assert ReachableErrors(d.children[0], true, false) == {};
    assert ReachableErrors(d, true, false) == {};
  }

  lemma SymlinkOutermost()
    ensures ("d/z", {"x@y.com"}) in Outermost(SymlinkTree(), true)
  {
    var d := SymlinkTree().children[0];
    assert AuthorSet(["x@y.com"]) == {"x@y.com"};
    assert ("d/z", {"x@y.com"}) in Outermost(d.children[1], true);
    assert ("d/z", {"x@y.com"}) in Outermost(d, true);
  }

  lemma SymlinkAsWritten()
    ensures WalkResult(SymlinkTree(), true, false, map[]) == (map["d/link" := {"x@y.com"}], Continue)
  {
    var t := SymlinkTree();
    var d := t.children[0];
    assert AuthorSet(["x@y.com"]) == {"x@y.com"};
    assert WalkResult(d.children[0], true, false, map[]) == (map["d/link" := {"x@y.com"}], SkipDir);
    assert ChildrenResult(d, 0, true, false, map[]) == (map["d/link" := {"x@y.com"}], SkipDir);
    assert ChildrenResult(t, 0, true, false, map[]) == ChildrenResult(t, 1, true, false, map["d/link" := {"x@y.com"}]);
  }

  lemma SymlinkCorrected()
    ensures WalkResult(SymlinkTree(), true, true, map[]) == (map["d/link" := {"x@y.com"}, "d/z" := {"x@y.com"}], Continue)
  {
    var t := SymlinkTree();
    var d := t.children[0];
    var g1 := map["d/link" := {"x@y.com"}];
    var g2 := map["d/link" := {"x@y.com"}, "d/z" := {"x@y.com"}];
    assert AuthorSet(["x@y.com"]) == {"x@y.com"};
    assert WalkResult(d.children[0], true, true, map[]) == (g1, Continue);
    assert WalkResult(d.children[1], true, true, g1) == (g2, SkipDir);
    assert ChildrenResult(d, 0, true, true, map[]) == ChildrenResult(d, 1, true, true, g1);
    assert ChildrenResult(d, 1, true, true, g1) == ChildrenResult(d, 2, true, true, g2);
    assert ChildrenResult(t, 0, true, true, map[]) == ChildrenResult(t, 1, true, true, g2);
  }

  /**
   filepath.Walk: walks the tree from its root with the callback `corrected`
   selects, and returns the error that stopped the walk, if any; a SkipDir
   passed up from the root is no error.
   */
  method Walk(r: Repository, root: Entry, corrected: bool) returns (err: Option<string>)
    modifies r
    ensures r.graph == WalkResult(root, r.sinceParses, corrected, old(r.graph)).0
    ensures var d := WalkResult(root, r.sinceParses, corrected, old(r.graph)).1;
      err == if d.Abort? then Some(d.err) else None
  {
    var d := WalkEntry(r, root, corrected);
    err := if d.Abort? then Some(d.err) else None;
  }

  /**
   filepath.walk: scans `t`, walks a directory's children when the callback
   let the walk descend, and passes the outcome up to the directory's loop.
   */
  method WalkEntry(r: Repository, t: Entry, corrected: bool) returns (d: Decision)
    modifies r
    ensures (r.graph, d) == WalkResult(t, r.sinceParses, corrected, old(r.graph))
    decreases t, 1
  {
    if corrected {
      d := r.ScanCorrected(t.path, t.isDir, t.probe);
    } else {
      d := r.Scan(t.path, t.probe);
    }
    if t.isDir && d == Continue {
      d := WalkChildren(r, t, corrected);
    }
  }

  /**
   The loop over a directory's children once the callback has let the walk
   descend into it: an error, or SkipDir from a child that is not a directory,
   stops it and is passed up.
   */
  method WalkChildren(r: Repository, t: Entry, corrected: bool) returns (d: Decision)
    modifies r
    ensures (r.graph, d) == ChildrenResult(t, 0, r.sinceParses, corrected, old(r.graph))
    decreases t, 0
  {
    var i := 0;
    while i < |t.children|
      invariant 0 <= i <= |t.children|
      invariant ChildrenResult(t, i, r.sinceParses, corrected, r.graph) == ChildrenResult(t, 0, r.sinceParses, corrected, old(r.graph))
    {
      d := WalkEntry(r, t.children[i], corrected);
      if d.Abort? || (d.SkipDir? && !t.children[i].isDir) {
        return;
      }
      i := i + 1;
    }
    return Continue;
  }
}
