/**
 One run of git-digger: refuse an empty root path, walk the tree under the
 root path with a fresh Repository, ignore the walk's error, and project the
 resulting graph onto GraphML records with the two loops of the command.
 Writing the file and encoding the XML are not modelled.
 */
module Digger {
  import opened Paths
  import opened Scanner
  import opened Walker
  import opened GraphBuild

  /** Project nodes come from graph keys, so unnested keys give unnested project ids. */
  lemma ProjectsUnnested(graph: Graph, out: GraphML)
    requires IsProjection(graph, out) && Unnested(graph.Keys)
    ensures forall p, q :: Node(p, ProjectType) in out.nodes && Node(q, ProjectType) in out.nodes ==> !Under(p, q)
  {
    ProjectionNodes(graph, out);
  }

  /**
   Runs the scan and the projection over the entry tree `tree`, whose root is
   the repository path; an empty path yields no document. `graph` is the
   scanned graph the records were built from.
   */
  method Run(tree: Entry, sinceParses: bool) returns (out: Option<GraphML>, ghost graph: Graph)
    requires WalkRoot(tree)
    ensures out.None? <==> tree.path == ""
    ensures out.Some? ==> graph == WalkResult(tree, sinceParses, false, map[]).0 && IsProjection(graph, out.value)
    ensures out.Some? ==> forall k :: k in graph ==> (k, graph[k]) in Repos(tree, sinceParses, false)
    ensures out.Some? && ReachableErrors(tree, sinceParses, false) == {} ==>
              forall x :: x in Repos(tree, sinceParses, false) ==> x.0 in graph && graph[x.0] == x.1
    ensures out.Some? ==> forall p, q :: Node(p, ProjectType) in out.value.nodes && Node(q, ProjectType) in out.value.nodes ==> !Under(p, q)
    ensures out.Some? && Repos(tree, sinceParses, false) == {} ==> out.value.nodes == [] && out.value.edges == []
  {
    graph := map[];
    if |tree.path| == 0 {
      return None, graph;
    }
    var r := new Repository(sinceParses);
    var err := Walk(r, tree, false);
    WalkedFromEmpty(tree, sinceParses, false);
    var document := Build(r.graph);
    graph := r.graph;
    ProjectsUnnested(graph, document);
    if Repos(tree, sinceParses, false) == {} {
      EmptyProjection(graph, document);
    }
    out := Some(document);
  }
}
