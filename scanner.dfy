/**
 The per-entry scan step of git-digger: `Repository.Scan`, the callback that
 filepath.Walk invokes for every entry under the root directory.

 The library calls it makes (git.PlainOpen, time.Parse, Repository.Log and the
 commit iterator's ForEach) are not modelled; their outcomes for one entry are
 gathered in a `Probe` and passed in.
 */
module Scanner {

  datatype Option<T> = None | Some(value: T)

  /** The set of author emails of one repository (Go: `map[string]struct{}`). */
  type Contributors = set<string>

  /** Repository path to its contributors. */
  type Graph = map<string, Contributors>

  /**
   What the callback returns for an entry, and what filepath.walk passes up to
   the loop over the entry's directory: go on (nil), filepath.SkipDir (which
   prunes a directory, and for any other entry skips the rest of the directory
   holding it) or an error that stops the walk.
   */
  datatype Decision = Continue | SkipDir | Abort(err: string)

  /**
   The outcomes of the calls Scan makes for one entry:
   - walkError: the error filepath.Walk hands to the callback, if any;
   - opensAsRepo: whether git.PlainOpen succeeds on the path;
   - logOpens: whether the commit log (all references, since the date) can be opened;
   - authors: the author email of every commit the log's ForEach visits, in order.
   */
  datatype Probe = Probe(walkError: Option<string>, opensAsRepo: bool, logOpens: bool, authors: seq<string>)

  /** The distinct emails of a sequence of commit authors. */
  function AuthorSet(authors: seq<string>): (s: Contributors)
  {
    set a | a in authors
  }

  /** Scan records the entry: no walk error, it opens as a repository, the date parses and the log opens. */
  predicate Records(probe: Probe, sinceParses: bool)
  {
    probe.walkError.None? && probe.opensAsRepo && sinceParses && probe.logOpens
  }

  /** The state of one run: the since-date setting and the graph being filled. */
  class Repository {
    /** Whether the configured since-date parses in the day/month/year layout. */
    const sinceParses: bool
    var graph: Graph

    constructor (sinceParses: bool)
      ensures this.sinceParses == sinceParses
      ensures graph == map[]
    {
      this.sinceParses := sinceParses;
      graph := map[];
    }

    /**
     Visits one entry. A walk error is returned as is; an entry that is not a
     repository, a date that does not parse or a log that does not open leaves
     the graph alone and lets the walk descend; otherwise the entry's key is
     replaced by the set of its authors and SkipDir is returned.
     */
    method Scan(path: string, probe: Probe) returns (d: Decision)
      modifies this
      ensures probe.walkError.Some? ==> d == Abort(probe.walkError.value) && graph == old(graph)
      ensures probe.walkError.None? && !Records(probe, sinceParses) ==> d == Continue && graph == old(graph)
      ensures Records(probe, sinceParses) ==> graph == old(graph)[path := AuthorSet(probe.authors)]
      ensures d == SkipDir <==> Records(probe, sinceParses)
    {
      if probe.walkError.Some? {
        return Abort(probe.walkError.value);
      }
      if !probe.opensAsRepo {
        return Continue;
      }
      if !sinceParses {
        return Continue;
      }
      if !probe.logOpens {
        return Continue;
      }
      graph := graph[path := {}];
      var i := 0;
      assert AuthorSet(probe.authors[..0]) == {};
      while i < |probe.authors|
        invariant 0 <= i <= |probe.authors|
        invariant graph == old(graph)[path := AuthorSet(probe.authors[..i])]
      {
        assert probe.authors[..i + 1] == probe.authors[..i] + [probe.authors[i]];
        assert AuthorSet(probe.authors[..i + 1]) == AuthorSet(probe.authors[..i]) + {probe.authors[i]};
        graph := graph[path := graph[path] + {probe.authors[i]}];
        i := i + 1;
      }
      assert probe.authors[..i] == probe.authors;
      return SkipDir;
    }

    /**
     The corrected callback: as Scan, but a recorded entry that is not a
     directory (a symbolic link to a repository) lets the walk go on, because
     filepath.Walk takes SkipDir from a non-directory as skipping the rest of
     the directory holding it.
     */
    method ScanCorrected(path: string, isDir: bool, probe: Probe) returns (d: Decision)
      modifies this
      ensures probe.walkError.Some? ==> d == Abort(probe.walkError.value) && graph == old(graph)
      ensures probe.walkError.None? && !Records(probe, sinceParses) ==> d == Continue && graph == old(graph)
      ensures Records(probe, sinceParses) ==> graph == old(graph)[path := AuthorSet(probe.authors)]
      ensures d == SkipDir <==> Records(probe, sinceParses) && isDir
      ensures Records(probe, sinceParses) && !isDir ==> d == Continue
    {
      d := Scan(path, probe);
      if d == SkipDir && !isDir {
        d := Continue;
      }
    }
  }
}
