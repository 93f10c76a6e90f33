/**
 The projection of the scanned graph onto GraphML records: the loop in the
 command's Run closure that appends one node per repository and, per
 contributor of that repository, one contributor node and one edge.
 Go's map iteration order is unspecified, so the loops pick the next key with
 `:|`; properties are stated as contents and counts, never as order.
 */
module GraphBuild {
  import opened Scanner

  const ProjectType := "project"
  const ContributorType := "contributor"

  /** A `node` element of the GraphML document. */
  datatype Node = Node(id: string, kind: string)

  /** An `edge` element, from a contributor to a repository. */
  datatype Edge = Edge(source: string, target: string)

  /** The `graph` element's children, in the order they are written. */
  datatype GraphML = GraphML(nodes: seq<Node>, edges: seq<Edge>)

  /** The ids of the nodes of one kind, in order. */
  function IdsOfKind(nodes: seq<Node>, kind: string): (ids: seq<string>)
  {
    if nodes == [] then []
    else IdsOfKind(nodes[..|nodes| - 1], kind) + (if nodes[|nodes| - 1].kind == kind then [nodes[|nodes| - 1].id] else [])
  }

  /** The sources of the edges, in order. */
  function Sources(edges: seq<Edge>): (sources: seq<string>)
  {
    seq(|edges|, i requires 0 <= i < |edges| => edges[i].source)
  }

  /** Every node is a project node or a contributor node. */
  predicate WellTyped(nodes: seq<Node>)
  {
    forall n :: n in nodes ==> n.kind == ProjectType || n.kind == ContributorType
  }

  /** One edge per non-empty contributor of each non-empty repository key in `repos`. */
  ghost function EdgeSet(g: Graph, repos: set<string>): (edges: set<Edge>)
  {
    set r, c | r in repos && r in g && r != "" && c in g[r] && c != "" :: Edge(c, r)
  }

  /** The edges of one repository for the contributors in `cs`. */
  ghost function RepoEdges(repo: string, cs: set<string>): (edges: set<Edge>)
  {
    set c | c in cs && c != "" && repo != "" :: Edge(c, repo)
  }

  /**
   The records emitted for the repository keys in `done`: exactly one project node
   per non-empty key, exactly one edge per pair of a non-empty key and a non-empty
   contributor in its set, and one contributor node per edge, emitted together
   with it.
   */
  ghost predicate Projected(g: Graph, done: set<string>, nodes: seq<Node>, edges: seq<Edge>)
  {
    && WellTyped(nodes)
    && multiset(IdsOfKind(nodes, ProjectType)) == multiset(done - {""})
    && multiset(edges) == multiset(EdgeSet(g, done))
    && IdsOfKind(nodes, ContributorType) == Sources(edges)
  }

  /** What the source's projection produces from the whole graph. */
  ghost predicate IsProjection(g: Graph, out: GraphML)
  {
    Projected(g, g.Keys, out.nodes, out.edges)
  }

  lemma IdsOfKindAppend(nodes: seq<Node>, n: Node, kind: string)
    ensures IdsOfKind(nodes + [n], kind) == IdsOfKind(nodes, kind) + (if n.kind == kind then [n.id] else [])
  {
    assert (nodes + [n])[..|nodes|] == nodes;
  }

  lemma SourcesAppend(edges: seq<Edge>, e: Edge)
    ensures Sources(edges + [e]) == Sources(edges) + [e.source]
  {
  }

  lemma MultisetOfDisjointUnion<T>(a: set<T>, b: set<T>)
    requires a !! b
    ensures multiset(a + b) == multiset(a) + multiset(b)
  {
    assert forall x :: multiset(a + b)[x] == (multiset(a) + multiset(b))[x];
  }

  /** Taking `repo` off the keys still to do adds it to the keys done. */
  lemma DoneStep(keys: set<string>, rest: set<string>, repo: string)
    requires repo in rest && rest <= keys
    ensures keys - (rest - {repo}) == (keys - rest) + {repo} && repo !in keys - rest
  {
  }

  /** Finishing `repo` adds its edges. */
  lemma EdgeSetStep(g: Graph, rest: set<string>, repo: string)
    requires repo in rest && rest <= g.Keys
    ensures multiset(EdgeSet(g, g.Keys - (rest - {repo}))) == multiset(EdgeSet(g, g.Keys - rest)) + multiset(RepoEdges(repo, g[repo]))
  {
    var done := g.Keys - rest;
    DoneStep(g.Keys, rest, repo);
    assert EdgeSet(g, done + {repo}) == EdgeSet(g, done) + RepoEdges(repo, g[repo]);
    forall e | e in RepoEdges(repo, g[repo])
      ensures e !in EdgeSet(g, done)
    {
      assert e.target == repo;
    }
    MultisetOfDisjointUnion(EdgeSet(g, done), RepoEdges(repo, g[repo]));
  }

  /** Finishing `repo` adds it to the non-empty keys done unless it is empty. */
  lemma KeysStep(keys: set<string>, rest: set<string>, repo: string)
    requires repo in rest && rest <= keys
    ensures multiset((keys - (rest - {repo})) - {""}) == multiset((keys - rest) - {""}) + (if repo != "" then multiset{repo} else multiset{})
  {
    var done := keys - rest;
    DoneStep(keys, rest, repo);
    if repo != "" {
      assert (done + {repo}) - {""} == (done - {""}) + {repo};
      MultisetOfDisjointUnion(done - {""}, {repo});
    } else {
      assert (done + {repo}) - {""} == done - {""};
    }
  }

  /** Appending a project node leaves the contributor ids alone. */
  lemma ProjectStep(nodes: seq<Node>, repo: string)
    ensures IdsOfKind(nodes + [Node(repo, ProjectType)], ProjectType) == IdsOfKind(nodes, ProjectType) + [repo]
    ensures IdsOfKind(nodes + [Node(repo, ProjectType)], ContributorType) == IdsOfKind(nodes, ContributorType)
  {
    IdsOfKindAppend(nodes, Node(repo, ProjectType), ProjectType);
    IdsOfKindAppend(nodes, Node(repo, ProjectType), ContributorType);
  }

  /** Appending a contributor node and its edge together keeps contributor ids equal to edge sources. */
  lemma ContributorStep(nodes: seq<Node>, edges: seq<Edge>, c: string, repo: string)
    requires IdsOfKind(nodes, ContributorType) == Sources(edges)
    ensures IdsOfKind(nodes + [Node(c, ContributorType)], ContributorType) == Sources(edges + [Edge(c, repo)])
    ensures IdsOfKind(nodes + [Node(c, ContributorType)], ProjectType) == IdsOfKind(nodes, ProjectType)
  {
    IdsOfKindAppend(nodes, Node(c, ContributorType), ProjectType);
    IdsOfKindAppend(nodes, Node(c, ContributorType), ContributorType);
    SourcesAppend(edges, Edge(c, repo));
  }

  /**
   What the inner loop has appended for repository `repo` once the contributors
   in `seen` are done, starting from `nodes` and `edges`: no project node, and
   one contributor node and one edge per non-empty contributor, in step.
   */
  ghost predicate Appended(repo: string, seen: set<string>, nodes: seq<Node>, edges: seq<Edge>, nodes': seq<Node>, edges': seq<Edge>)
  {
    && WellTyped(nodes')
    && IdsOfKind(nodes', ProjectType) == IdsOfKind(nodes, ProjectType)
    && IdsOfKind(nodes', ContributorType) == Sources(edges')
    && multiset(edges') == multiset(edges) + multiset(RepoEdges(repo, seen))
  }

  lemma AppendedStart(repo: string, cs: set<string>, nodes: seq<Node>, edges: seq<Edge>)
    requires WellTyped(nodes) && IdsOfKind(nodes, ContributorType) == Sources(edges)
    ensures Appended(repo, cs - cs, nodes, edges, nodes, edges)
  {
    assert RepoEdges(repo, cs - cs) == {};
  }

  /** One turn of the inner loop, for the contributor `c` taken off the pending ones. */
  lemma AppendedStep(repo: string, cs: set<string>, pending: set<string>, c: string,
                     nodes: seq<Node>, edges: seq<Edge>, nodes': seq<Node>, edges': seq<Edge>)
    requires repo != "" && c in pending && pending <= cs
    requires Appended(repo, cs - pending, nodes, edges, nodes', edges')
    ensures c != "" ==> Appended(repo, cs - (pending - {c}), nodes, edges, nodes' + [Node(c, ContributorType)], edges' + [Edge(c, repo)])
    ensures c == "" ==> Appended(repo, cs - (pending - {c}), nodes, edges, nodes', edges')
  {
    var seen := cs - pending;
    DoneStep(cs, pending, c);
    if c != "" {
      ContributorStep(nodes', edges', c, repo);
      assert RepoEdges(repo, seen + {c}) == RepoEdges(repo, seen) + {Edge(c, repo)};
      MultisetOfDisjointUnion(RepoEdges(repo, seen), {Edge(c, repo)});
    } else {
      assert RepoEdges(repo, seen + {c}) == RepoEdges(repo, seen);
    }
  }

  /**
   The inner loop for one non-empty repository key: per non-empty contributor,
   one contributor node and one edge to the repository.
   */
  method AppendContributors(repo: string, cs: set<string>, nodes: seq<Node>, edges: seq<Edge>)
    returns (nodes': seq<Node>, edges': seq<Edge>)
    requires repo != ""
    requires WellTyped(nodes) && IdsOfKind(nodes, ContributorType) == Sources(edges)
    ensures WellTyped(nodes')
    ensures IdsOfKind(nodes', ProjectType) == IdsOfKind(nodes, ProjectType)
    ensures IdsOfKind(nodes', ContributorType) == Sources(edges')
    ensures multiset(edges') == multiset(edges) + multiset(RepoEdges(repo, cs))
  {
    nodes', edges' := nodes, edges;
    var pending := cs;
    AppendedStart(repo, cs, nodes, edges);
    while pending != {}
      invariant pending <= cs
      invariant Appended(repo, cs - pending, nodes, edges, nodes', edges')
      decreases pending
    {
      var contributor :| contributor in pending;
      AppendedStep(repo, cs, pending, contributor, nodes, edges, nodes', edges');
      if contributor != "" {
        nodes' := nodes' + [Node(contributor, ContributorType)];
        edges' := edges' + [Edge(contributor, repo)];
      }
      pending := pending - {contributor};
    }
    assert cs - pending == cs;
  }

  /** One turn of the outer loop: the records of `repo`, one of the keys still to do. */
  method AppendRepository(g: Graph, rest: set<string>, repo: string, nodes: seq<Node>, edges: seq<Edge>)
    returns (nodes': seq<Node>, edges': seq<Edge>)
    requires repo in rest && rest <= g.Keys
    requires Projected(g, g.Keys - rest, nodes, edges)
    ensures Projected(g, g.Keys - (rest - {repo}), nodes', edges')
  {
    EdgeSetStep(g, rest, repo);
    KeysStep(g.Keys, rest, repo);
    if repo == "" {
      assert RepoEdges(repo, g[repo]) == {};
      return nodes, edges;
    }
    ProjectStep(nodes, repo);
    nodes', edges' := AppendContributors(repo, g[repo], nodes + [Node(repo, ProjectType)], edges);
  }

  lemma ProjectedStart(g: Graph)
    ensures Projected(g, g.Keys - g.Keys, [], [])
  {
    assert g.Keys - g.Keys == {};
    assert EdgeSet(g, {}) == {};
  }

  /** Builds the GraphML records from the scanned graph. */
  method Build(g: Graph) returns (out: GraphML)
    ensures IsProjection(g, out)
  {
    var nodes: seq<Node> := [];
    var edges: seq<Edge> := [];
    var rest := g.Keys;
    ProjectedStart(g);
    while rest != {}
      invariant rest <= g.Keys
      invariant Projected(g, g.Keys - rest, nodes, edges)
      decreases rest
    {
      var repo :| repo in rest;
      nodes, edges := AppendRepository(g, rest, repo, nodes, edges);
      rest := rest - {repo};
    }
    assert g.Keys - rest == g.Keys;
    out := GraphML(nodes, edges);
  }

  // Properties of the projection.

  lemma {:induction false} KindPartition(nodes: seq<Node>)
    requires WellTyped(nodes)
    ensures |nodes| == |IdsOfKind(nodes, ProjectType)| + |IdsOfKind(nodes, ContributorType)|
  {
    if nodes != [] {
      var init := nodes[..|nodes| - 1];
      assert forall n :: n in init ==> n in nodes;
      KindPartition(init);
    }
  }

  lemma {:induction false} IdsOfKindMembership(nodes: seq<Node>, kind: string, x: string)
    ensures x in IdsOfKind(nodes, kind) <==> Node(x, kind) in nodes
  {
    if nodes != [] {
      var init := nodes[..|nodes| - 1];
      assert nodes == init + [nodes[|nodes| - 1]];
      IdsOfKindMembership(init, kind, x);
    }
  }

  lemma SourcesMembership(edges: seq<Edge>, x: string)
    ensures x in Sources(edges) <==> exists e :: e in edges && e.source == x
  {
    if x in Sources(edges) {
      var i :| 0 <= i < |edges| && Sources(edges)[i] == x;
      assert edges[i] in edges;
    }
    if e :| e in edges && e.source == x {
      var i :| 0 <= i < |edges| && edges[i] == e;
      assert Sources(edges)[i] == x;
    }
  }

  /** Taking the element at `k` out of a sequence takes one copy of it out of its multiset. */
  lemma MultisetRemove<T>(xs: seq<T>, k: int)
    requires 0 <= k < |xs|
    ensures multiset(xs[..k] + xs[k + 1..]) == multiset(xs) - multiset{xs[k]}
  {
    assert xs == xs[..k] + [xs[k]] + xs[k + 1..];
    assert multiset(xs) == multiset(xs[..k]) + multiset{xs[k]} + multiset(xs[k + 1..]);
  }

  /** Taking the edge at `k` out of a sequence takes one copy of its source out of the sources. */
  lemma SourcesRemove(edges: seq<Edge>, k: int)
    requires 0 <= k < |edges|
    ensures multiset(Sources(edges)) == multiset(Sources(edges[..k] + edges[k + 1..])) + multiset{edges[k].source}
  {
    var before, after := edges[..k], edges[k + 1..];
    assert edges == before + [edges[k]] + after;
    assert Sources(edges) == Sources(before) + [edges[k].source] + Sources(after);
    assert Sources(before + after) == Sources(before) + Sources(after);
  }

  /** Two orderings of the same edges have the same sources, up to order. */
  lemma {:induction false} SourcesPermutation(edges: seq<Edge>, other: seq<Edge>)
    requires multiset(edges) == multiset(other)
    ensures multiset(Sources(edges)) == multiset(Sources(other))
    decreases |edges|
  {
    if edges == [] {
      assert |other| == |multiset(other)| == 0;
    } else {
      var last := edges[|edges| - 1];
      assert last in multiset(other);
      var k :| 0 <= k < |other| && other[k] == last;
      MultisetRemove(edges, |edges| - 1);
      MultisetRemove(other, k);
      SourcesRemove(edges, |edges| - 1);
      SourcesRemove(other, k);
      assert edges[..|edges| - 1] + edges[|edges|..] == edges[..|edges| - 1];
      SourcesPermutation(edges[..|edges| - 1], other[..k] + other[k + 1..]);
    }
  }

  /**
   In the projection, the node count is the number of non-empty repository keys
   plus the number of edges: one contributor node is emitted per edge.
   */
  lemma ProjectionCounts(g: Graph, out: GraphML)
    requires IsProjection(g, out)
    ensures |IdsOfKind(out.nodes, ProjectType)| == |g.Keys - {""}|
    ensures |IdsOfKind(out.nodes, ContributorType)| == |out.edges| == |EdgeSet(g, g.Keys)|
    ensures |out.nodes| == |g.Keys - {""}| + |out.edges|
  {
    calc {
      |IdsOfKind(out.nodes, ProjectType)|;
      |multiset(IdsOfKind(out.nodes, ProjectType))|;
      |multiset(g.Keys - {""})|;
      |g.Keys - {""}|;
    }
    calc {
      |out.edges|;
      |multiset(out.edges)|;
      |multiset(EdgeSet(g, g.Keys))|;
      |EdgeSet(g, g.Keys)|;
    }
    KindPartition(out.nodes);
  }

  /**
   An edge is emitted exactly for a non-empty contributor of a non-empty
   repository key, from the contributor to the repository, and its target is
   the id of a project node.
   */
  lemma ProjectionEdges(g: Graph, out: GraphML)
    requires IsProjection(g, out)
    ensures forall e :: e in out.edges <==> e.target in g && e.target != "" && e.source in g[e.target] && e.source != ""
    ensures forall e :: e in out.edges ==> Node(e.target, ProjectType) in out.nodes
  {
    forall e
      ensures e in out.edges <==> e in EdgeSet(g, g.Keys)
    {
      assert e in out.edges <==> e in multiset(out.edges);
    }
    forall e | e in out.edges
      ensures Node(e.target, ProjectType) in out.nodes
    {
      assert e.target in multiset(g.Keys - {""});
      IdsOfKindMembership(out.nodes, ProjectType, e.target);
    }
  }

  /**
   The project nodes are exactly the non-empty repository keys, the contributor
   nodes exactly the non-empty contributors of those repositories, and no node
   has an empty id.
   */
  lemma ProjectionNodes(g: Graph, out: GraphML)
    requires IsProjection(g, out)
    ensures forall r :: Node(r, ProjectType) in out.nodes <==> r in g && r != ""
    ensures forall c :: Node(c, ContributorType) in out.nodes <==> exists r :: r in g && r != "" && c in g[r] && c != ""
    ensures forall n :: n in out.nodes ==> n.id != ""
  {
    ProjectionEdges(g, out);
    forall r
      ensures Node(r, ProjectType) in out.nodes <==> r in g && r != ""
    {
      IdsOfKindMembership(out.nodes, ProjectType, r);
      assert r in IdsOfKind(out.nodes, ProjectType) <==> r in multiset(g.Keys - {""});
    }
    forall c
      ensures Node(c, ContributorType) in out.nodes <==> exists r :: r in g && r != "" && c in g[r] && c != ""
    {
      IdsOfKindMembership(out.nodes, ContributorType, c);
      SourcesMembership(out.edges, c);
      if exists r :: r in g && r != "" && c in g[r] && c != "" {
        var r :| r in g && r != "" && c in g[r] && c != "";
        assert Edge(c, r) in out.edges;
      }
    }
    forall n | n in out.nodes
      ensures n.id != ""
    {
      assert n == Node(n.id, n.kind);
    }
  }

  /** A graph with no non-empty key projects to a document with no node and no edge. */
  lemma EmptyProjection(g: Graph, out: GraphML)
    requires IsProjection(g, out) && g.Keys - {""} == {}
    ensures out.nodes == [] && out.edges == []
  {
    assert EdgeSet(g, g.Keys) == {};
    ProjectionCounts(g, out);
  }

  /** The graph of two repositories that share a contributor. */
  function SharedContributorGraph(): (g: Graph)
  {
    map["A" := {"alice@x.com", "bob@x.com"}, "B" := {"alice@x.com"}]
  }

  /** Its edges, listed in one of the orders the source may emit them. */
  function SharedContributorListing(): (edges: seq<Edge>)
  {
    [Edge("alice@x.com", "A"), Edge("bob@x.com", "A"), Edge("alice@x.com", "B")]
  }

  lemma SharedContributorEdges()
    ensures multiset(EdgeSet(SharedContributorGraph(), SharedContributorGraph().Keys)) == multiset(SharedContributorListing())
  {
    var g := SharedContributorGraph();
    assert g.Keys == {"A", "B"};
    assert Edge("alice@x.com", "A") in EdgeSet(g, g.Keys);
    assert Edge("bob@x.com", "A") in EdgeSet(g, g.Keys);
    assert Edge("alice@x.com", "B") in EdgeSet(g, g.Keys);
    assert EdgeSet(g, g.Keys) == {Edge("alice@x.com", "A"), Edge("bob@x.com", "A"), Edge("alice@x.com", "B")};
  }

  lemma SharedContributorSources()
    ensures Sources(SharedContributorListing()) == ["alice@x.com", "bob@x.com", "alice@x.com"]
  {
  }

  /**
   Two repositories sharing a contributor: the source emits that contributor's
   node twice, once per repository, so the GraphML document holds two nodes
   with the same id.
   */
  lemma DuplicateContributorNodes(out: GraphML)
    requires IsProjection(SharedContributorGraph(), out)
    ensures multiset(IdsOfKind(out.nodes, ContributorType)) == multiset{"alice@x.com", "alice@x.com", "bob@x.com"}
  {
    SharedContributorEdges();
    SourcesPermutation(out.edges, SharedContributorListing());
    SharedContributorSources();
  }

  // The intended projection: one node per distinct contributor.

  /** Every non-empty contributor of a non-empty repository key in `repos`, once. */
  ghost function ContributorSet(g: Graph, repos: set<string>): (cs: set<string>)
  {
    set r, c | r in repos && r in g && r != "" && c in g[r] && c != "" :: c
  }

  /**
   The records emitted for the keys in `done` when contributor nodes are
   deduplicated: as `Projected`, except that the contributor nodes are exactly
   one per distinct contributor.
   */
  ghost predicate DeduplicatedProjected(g: Graph, done: set<string>, nodes: seq<Node>, edges: seq<Edge>)
  {
    && WellTyped(nodes)
    && multiset(IdsOfKind(nodes, ProjectType)) == multiset(done - {""})
    && multiset(edges) == multiset(EdgeSet(g, done))
    && multiset(IdsOfKind(nodes, ContributorType)) == multiset(ContributorSet(g, done))
  }

  ghost predicate IsDeduplicatedProjection(g: Graph, out: GraphML)
  {
    DeduplicatedProjected(g, g.Keys, out.nodes, out.edges)
  }

  /** Finishing `repo` adds its non-empty contributors, if its key is non-empty. */
  lemma ContributorSetStep(g: Graph, rest: set<string>, repo: string)
    requires repo in rest && rest <= g.Keys
    ensures ContributorSet(g, g.Keys - (rest - {repo})) == ContributorSet(g, g.Keys - rest) + (if repo != "" then g[repo] - {""} else {})
  {
    DoneStep(g.Keys, rest, repo);
  }

  /** Appending the node of a contributor not emitted before. */
  lemma EmitStep(nodes: seq<Node>, emitted: set<string>, c: string)
    requires multiset(IdsOfKind(nodes, ContributorType)) == multiset(emitted) && c !in emitted
    ensures multiset(IdsOfKind(nodes + [Node(c, ContributorType)], ContributorType)) == multiset(emitted + {c})
    ensures IdsOfKind(nodes + [Node(c, ContributorType)], ProjectType) == IdsOfKind(nodes, ProjectType)
  {
    IdsOfKindAppend(nodes, Node(c, ContributorType), ProjectType);
    IdsOfKindAppend(nodes, Node(c, ContributorType), ContributorType);
    MultisetOfDisjointUnion(emitted, {c});
  }

  /** The corrected body of the inner loop, for one contributor. */
  method EmitContributorOnce(repo: string, c: string, nodes: seq<Node>, edges: seq<Edge>, emitted: set<string>)
    returns (nodes': seq<Node>, edges': seq<Edge>, emitted': set<string>)
    requires repo != ""
    requires WellTyped(nodes) && multiset(IdsOfKind(nodes, ContributorType)) == multiset(emitted)
    ensures WellTyped(nodes')
    ensures IdsOfKind(nodes', ProjectType) == IdsOfKind(nodes, ProjectType)
    ensures edges' == edges + (if c != "" then [Edge(c, repo)] else [])
    ensures emitted' == if c != "" && c !in emitted then emitted + {c} else emitted
    ensures multiset(IdsOfKind(nodes', ContributorType)) == multiset(emitted')
  {
    nodes', edges', emitted' := nodes, edges, emitted;
    if c == "" {
      assert edges + [] == edges;
      return;
    }
    if c !in emitted {
      EmitStep(nodes, emitted, c);
      nodes' := nodes + [Node(c, ContributorType)];
      emitted' := emitted + {c};
    }
    edges' := edges + [Edge(c, repo)];
  }

  /**
   What the corrected inner loop has emitted for repository `repo` once the
   contributors in `seen` are done, starting from `nodes`, `edges`, `emitted`.
   */
  ghost predicate EmittedOnce(repo: string, seen: set<string>, nodes: seq<Node>, edges: seq<Edge>, emitted: set<string>,
                              nodes': seq<Node>, edges': seq<Edge>, emitted': set<string>)
  {
    && WellTyped(nodes')
    && IdsOfKind(nodes', ProjectType) == IdsOfKind(nodes, ProjectType)
    && multiset(edges') == multiset(edges) + multiset(RepoEdges(repo, seen))
    && emitted' == emitted + (seen - {""})
    && multiset(IdsOfKind(nodes', ContributorType)) == multiset(emitted')
  }

  lemma EmittedOnceStart(repo: string, cs: set<string>, nodes: seq<Node>, edges: seq<Edge>, emitted: set<string>)
    requires WellTyped(nodes) && multiset(IdsOfKind(nodes, ContributorType)) == multiset(emitted)
    ensures EmittedOnce(repo, cs - cs, nodes, edges, emitted, nodes, edges, emitted)
  {
    assert RepoEdges(repo, cs - cs) == {};
    assert emitted + ((cs - cs) - {""}) == emitted;
  }

  /** Finishing contributor `c` of repository `repo` adds its edge, if `c` is non-empty. */
  lemma RepoEdgesStep(repo: string, cs: set<string>, pending: set<string>, c: string, edges: seq<Edge>, e1: seq<Edge>, e2: seq<Edge>)
    requires repo != "" && c in pending && pending <= cs
    requires multiset(e1) == multiset(edges) + multiset(RepoEdges(repo, cs - pending))
    requires e2 == e1 + (if c != "" then [Edge(c, repo)] else [])
    ensures multiset(e2) == multiset(edges) + multiset(RepoEdges(repo, cs - (pending - {c})))
  {
    var seen := cs - pending;
    DoneStep(cs, pending, c);
    if c != "" {
      assert RepoEdges(repo, seen + {c}) == RepoEdges(repo, seen) + {Edge(c, repo)};
      MultisetOfDisjointUnion(RepoEdges(repo, seen), {Edge(c, repo)});
    } else {
      assert RepoEdges(repo, seen + {c}) == RepoEdges(repo, seen);
      assert e2 == e1;
    }
  }

  /** One turn of the corrected inner loop, for the contributor `c` taken off the pending ones. */
  lemma EmittedOnceStep(repo: string, cs: set<string>, pending: set<string>, c: string,
                        nodes: seq<Node>, edges: seq<Edge>, emitted: set<string>,
                        n1: seq<Node>, e1: seq<Edge>, m1: set<string>, n2: seq<Node>, e2: seq<Edge>, m2: set<string>)
    requires repo != "" && c in pending && pending <= cs
    requires EmittedOnce(repo, cs - pending, nodes, edges, emitted, n1, e1, m1)
    requires WellTyped(n2) && IdsOfKind(n2, ProjectType) == IdsOfKind(n1, ProjectType)
    requires e2 == e1 + (if c != "" then [Edge(c, repo)] else [])
    requires m2 == if c != "" && c !in m1 then m1 + {c} else m1
    requires multiset(IdsOfKind(n2, ContributorType)) == multiset(m2)
    ensures EmittedOnce(repo, cs - (pending - {c}), nodes, edges, emitted, n2, e2, m2)
  {
    RepoEdgesStep(repo, cs, pending, c, edges, e1, e2);
    DoneStep(cs, pending, c);
    assert m2 == emitted + (((cs - pending) + {c}) - {""});
  }

  /**
   The corrected inner loop: an edge for every non-empty contributor, a
   contributor node only for one not emitted before.
   */
  method AppendContributorsOnce(repo: string, cs: set<string>, nodes: seq<Node>, edges: seq<Edge>, emitted: set<string>)
    returns (nodes': seq<Node>, edges': seq<Edge>, emitted': set<string>)
    requires repo != ""
    requires WellTyped(nodes) && multiset(IdsOfKind(nodes, ContributorType)) == multiset(emitted)
    ensures EmittedOnce(repo, cs, nodes, edges, emitted, nodes', edges', emitted')
  {
    nodes', edges', emitted' := nodes, edges, emitted;
    var pending := cs;
    EmittedOnceStart(repo, cs, nodes, edges, emitted);
    while pending != {}
      invariant pending <= cs
      invariant EmittedOnce(repo, cs - pending, nodes, edges, emitted, nodes', edges', emitted')
      decreases pending
    {
      var contributor :| contributor in pending;
      var n2, e2, m2 := EmitContributorOnce(repo, contributor, nodes', edges', emitted');
      EmittedOnceStep(repo, cs, pending, contributor, nodes, edges, emitted, nodes', edges', emitted', n2, e2, m2);
      nodes', edges', emitted' := n2, e2, m2;
      pending := pending - {contributor};
    }
    assert cs - pending == cs;
  }

  /** One turn of the corrected outer loop: the records of `repo`, one of the keys still to do. */
  method AppendRepositoryOnce(g: Graph, rest: set<string>, repo: string, nodes: seq<Node>, edges: seq<Edge>, emitted: set<string>)
    returns (nodes': seq<Node>, edges': seq<Edge>, emitted': set<string>)
    requires repo in rest && rest <= g.Keys
    requires DeduplicatedProjected(g, g.Keys - rest, nodes, edges) && emitted == ContributorSet(g, g.Keys - rest)
    ensures DeduplicatedProjected(g, g.Keys - (rest - {repo}), nodes', edges') && emitted' == ContributorSet(g, g.Keys - (rest - {repo}))
  {
    EdgeSetStep(g, rest, repo);
    KeysStep(g.Keys, rest, repo);
    ContributorSetStep(g, rest, repo);
    if repo == "" {
      assert RepoEdges(repo, g[repo]) == {};
      return nodes, edges, emitted;
    }
    ProjectStep(nodes, repo);
    nodes', edges', emitted' := AppendContributorsOnce(repo, g[repo], nodes + [Node(repo, ProjectType)], edges, emitted);
  }

  lemma DeduplicatedStart(g: Graph)
    ensures DeduplicatedProjected(g, g.Keys - g.Keys, [], []) && {} == ContributorSet(g, g.Keys - g.Keys)
  {
    assert g.Keys - g.Keys == {};
    assert EdgeSet(g, {}) == {};
    assert ContributorSet(g, {}) == {};
  }

  /** The corrected projection: contributor nodes deduplicated across the whole graph. */
  method BuildDeduplicated(g: Graph) returns (out: GraphML)
    ensures IsDeduplicatedProjection(g, out)
  {
    var nodes: seq<Node> := [];
    var edges: seq<Edge> := [];
    var emitted: set<string> := {};
    var rest := g.Keys;
    DeduplicatedStart(g);
    while rest != {}
      invariant rest <= g.Keys
      invariant DeduplicatedProjected(g, g.Keys - rest, nodes, edges) && emitted == ContributorSet(g, g.Keys - rest)
      decreases rest
    {
      var repo :| repo in rest;
      nodes, edges, emitted := AppendRepositoryOnce(g, rest, repo, nodes, edges, emitted);
      rest := rest - {repo};
    }
    assert g.Keys - rest == g.Keys;
    out := GraphML(nodes, edges);
  }

  /**
   In the corrected projection every distinct contributor has exactly one node,
   so the node count is the number of non-empty repository keys plus the number
   of distinct contributors.
   */
  lemma DeduplicatedCounts(g: Graph, out: GraphML)
    requires IsDeduplicatedProjection(g, out)
    ensures forall c :: c in ContributorSet(g, g.Keys) ==> multiset(IdsOfKind(out.nodes, ContributorType))[c] == 1
    ensures |out.nodes| == |g.Keys - {""}| + |ContributorSet(g, g.Keys)|
  {
    calc {
      |IdsOfKind(out.nodes, ProjectType)|;
      |multiset(IdsOfKind(out.nodes, ProjectType))|;
      |multiset(g.Keys - {""})|;
      |g.Keys - {""}|;
    }
    calc {
      |IdsOfKind(out.nodes, ContributorType)|;
      |multiset(IdsOfKind(out.nodes, ContributorType))|;
      |multiset(ContributorSet(g, g.Keys))|;
      |ContributorSet(g, g.Keys)|;
    }
    KindPartition(out.nodes);
  }

  /**
   In the corrected projection the project nodes are exactly the non-empty
   keys, the contributor nodes exactly the distinct non-empty contributors of
   non-empty keys, and the edges exactly those of the source's projection.
   */
  lemma DeduplicatedNodes(g: Graph, out: GraphML)
    requires IsDeduplicatedProjection(g, out)
    ensures forall r :: Node(r, ProjectType) in out.nodes <==> r in g && r != ""
    ensures forall c :: Node(c, ContributorType) in out.nodes <==> exists r :: r in g && r != "" && c in g[r] && c != ""
    ensures forall e :: e in out.edges <==> e.target in g && e.target != "" && e.source in g[e.target] && e.source != ""
  {
    forall r
      ensures Node(r, ProjectType) in out.nodes <==> r in g && r != ""
    {
      IdsOfKindMembership(out.nodes, ProjectType, r);
      assert r in IdsOfKind(out.nodes, ProjectType) <==> r in multiset(g.Keys - {""});
    }
    forall c
      ensures Node(c, ContributorType) in out.nodes <==> exists r :: r in g && r != "" && c in g[r] && c != ""
    {
      IdsOfKindMembership(out.nodes, ContributorType, c);
      assert c in IdsOfKind(out.nodes, ContributorType) <==> c in multiset(ContributorSet(g, g.Keys));
    }
    forall e
      ensures e in out.edges <==> e in EdgeSet(g, g.Keys)
    {
      assert e in out.edges <==> e in multiset(out.edges);
    }
  }

  /** A graph with no non-empty key has an empty corrected projection. */
  lemma DeduplicatedEmpty(g: Graph, out: GraphML)
    requires IsDeduplicatedProjection(g, out) && g.Keys - {""} == {}
    ensures out.nodes == [] && out.edges == []
  {
    assert EdgeSet(g, g.Keys) == {};
    assert ContributorSet(g, g.Keys) == {};
    assert |out.edges| == |multiset(out.edges)| == 0;
    DeduplicatedCounts(g, out);
  }

  lemma SharedContributors()
    ensures ContributorSet(SharedContributorGraph(), SharedContributorGraph().Keys) == {"alice@x.com", "bob@x.com"}
  {
    var g := SharedContributorGraph();
    assert g.Keys == {"A", "B"};
    assert "alice@x.com" in ContributorSet(g, g.Keys);
    assert "bob@x.com" in ContributorSet(g, g.Keys);
  }

  /** On the two repositories sharing a contributor, the corrected projection emits each contributor once. */
  lemma DeduplicatedContributorNodes(out: GraphML)
    requires IsDeduplicatedProjection(SharedContributorGraph(), out)
    ensures multiset(IdsOfKind(out.nodes, ContributorType)) == multiset{"alice@x.com", "bob@x.com"}
  {
    SharedContributors();
  }
}
