/**
 * buildResourceGraph (packages/shared/src/utils/cli/graph.ts): one node per
 * ARN, and an edge from each resource to every inferred dependency that is
 * itself a node. The graph's Maps and Sets are insertion-ordered, so the node
 * map carries its key order and the two sets of a node are duplicate-free
 * sequences in the order their elements were added.
 */
module Graph {
  import opened Wrappers
  import opened Seqs
  import opened Resources
  import opened Dependencies

  /** Set.prototype.add on an insertion-ordered set. */
  function SetAdd<T(==)>(s: seq<T>, x: T): (r: seq<T>)
    ensures Elems(r) == Elems(s) + {x}
    ensures Distinct(s) ==> Distinct(r)
  {
    if x in s then s else s + [x]
  }

  /** The keys a Map ends up with, in its iteration order: each first occurrence, in order. */
  ghost function FirstOccurrences(xs: seq<string>): seq<string> {
    if xs == [] then [] else SetAdd(FirstOccurrences(xs[..|xs| - 1]), xs[|xs| - 1])
  }

  /** The key order lists every key exactly once. */
  lemma FirstOccurrencesSpec(xs: seq<string>)
    ensures Distinct(FirstOccurrences(xs))
    ensures Elems(FirstOccurrences(xs)) == Elems(xs)
  {
    FirstOccurrencesDistinct(xs);
    FirstOccurrencesElems(xs);
  }

  lemma {:induction false} FirstOccurrencesDistinct(xs: seq<string>)
    ensures Distinct(FirstOccurrences(xs))
  {
    if xs != [] {
      FirstOccurrencesDistinct(xs[..|xs| - 1]);
    }
  }

  lemma {:induction false} FirstOccurrencesElems(xs: seq<string>)
    ensures Elems(FirstOccurrences(xs)) == Elems(xs)
  {
    if xs != [] {
      var init := xs[..|xs| - 1];
      var x := xs[|xs| - 1];
      FirstOccurrencesElems(init);
      assert xs == init + [x];
      assert Elems(xs) == Elems(init) + {x};
    }
  }

  /** Without repeated keys, the key order is the order of the input. */
  lemma {:induction false} FirstOccurrencesOfDistinct(xs: seq<string>)
    requires Distinct(xs)
    ensures FirstOccurrences(xs) == xs
  {
    if xs != [] {
      var init := xs[..|xs| - 1];
      var x := xs[|xs| - 1];
      DistinctInit(xs);
      FirstOccurrencesOfDistinct(init);
      assert FirstOccurrences(xs) == SetAdd(init, x);
      assert xs == init + [x];
    }
  }

  lemma FirstOccurrencesSnoc(xs: seq<string>, x: string)
    ensures FirstOccurrences(xs + [x]) == SetAdd(FirstOccurrences(xs), x)
  {
    assert (xs + [x])[..|xs|] == xs;
  }

  /** The resource a Map keyed by ARN keeps for a: the last one set. */
  ghost function LastWithArn(rs: seq<Resource>, a: string): (r: Option<Resource>)
    ensures r.Some? ==> r.value.arn == a
  {
    if rs == [] then None
    else if rs[|rs| - 1].arn == a then Some(rs[|rs| - 1])
    else LastWithArn(rs[..|rs| - 1], a)
  }

  lemma {:induction false} LastWithArnSpec(rs: seq<Resource>, a: string)
    ensures LastWithArn(rs, a).None? <==> a !in Arns(rs)
    ensures LastWithArn(rs, a).Some? ==> exists k :: (0 <= k < |rs| && rs[k] == LastWithArn(rs, a).value
      && forall j :: k < j < |rs| ==> rs[j].arn != a)
  {
    if rs != [] && rs[|rs| - 1].arn != a {
      var init := rs[..|rs| - 1];
      LastWithArnSpec(init, a);
      assert Arns(rs) == Arns(init) + [rs[|rs| - 1].arn];
    }
  }

  /** An edge (a, b): resource a depends on resource b. */
  type Edge = (string, string)

  /** The edges from `from` to those of the inferred ARNs ds that are nodes, in order. */
  ghost function KnownEdges(from: string, ds: seq<string>, known: set<string>): seq<Edge> {
    if ds == [] then []
    else KnownEdges(from, ds[..|ds| - 1], known) + (if ds[|ds| - 1] in known then [(from, ds[|ds| - 1])] else [])
  }

  /**
   * The edges added while processing the first i resources, in the order they
   * were added, when the k-th resource has ARN froms[k] and inferred dependencies lists[k].
   */
  ghost function EdgesOf(froms: seq<string>, lists: seq<seq<string>>, known: set<string>, i: nat): seq<Edge>
    requires i <= |froms| == |lists|
  {
    if i == 0 then []
    else EdgesOf(froms, lists, known, i - 1) + KnownEdges(froms[i - 1], lists[i - 1], known)
  }

  /** The inferred dependencies of every resource, in input order. */
  ghost function AllDependencies(rs: seq<Resource>): seq<seq<string>> {
    seq(|rs|, k requires 0 <= k < |rs| => FindResourceDependencies(rs[k], rs))
  }

  /** Every edge buildResourceGraph adds, in the order it adds them. */
  ghost function InferredEdges(rs: seq<Resource>): seq<Edge> {
    EdgesOf(Arns(rs), AllDependencies(rs), Elems(Arns(rs)), |rs|)
  }

  /** The dependency set of a: the targets of its edges, in the order they were first added. */
  ghost function Targets(es: seq<Edge>, a: string): seq<string> {
    if es == [] then []
    else
      var e := es[|es| - 1];
      var p := Targets(es[..|es| - 1], a);
      if e.0 == a then SetAdd(p, e.1) else p
  }

  /** The dependent set of b: the sources of the edges into it, in the order they were first added. */
  ghost function Sources(es: seq<Edge>, b: string): seq<string> {
    if es == [] then []
    else
      var e := es[|es| - 1];
      var p := Sources(es[..|es| - 1], b);
      if e.1 == b then SetAdd(p, e.0) else p
  }

  lemma {:induction false} TargetsSpec(es: seq<Edge>, a: string)
    ensures Distinct(Targets(es, a))
    ensures forall x :: x in Targets(es, a) <==> (a, x) in es
  {
    if es != [] {
      var init := es[..|es| - 1];
      TargetsSpec(init, a);
      assert es == init + [es[|es| - 1]];
    }
  }

  lemma {:induction false} SourcesSpec(es: seq<Edge>, b: string)
    ensures Distinct(Sources(es, b))
    ensures forall x :: x in Sources(es, b) <==> (x, b) in es
  {
    if es != [] {
      var init := es[..|es| - 1];
      SourcesSpec(init, b);
      assert es == init + [es[|es| - 1]];
    }
  }

  lemma {:induction false} KnownEdgesSpec(from: string, ds: seq<string>, known: set<string>)
    ensures forall e :: e in KnownEdges(from, ds, known) <==> e.0 == from && e.1 in ds && e.1 in known
  {
    if ds != [] {
      var init := ds[..|ds| - 1];
      KnownEdgesSpec(from, init, known);
      assert ds == init + [ds[|ds| - 1]];
    }
  }

  lemma {:induction false} EdgesOfSpec(froms: seq<string>, lists: seq<seq<string>>, known: set<string>, i: nat)
    requires i <= |froms| == |lists|
    ensures forall e :: e in EdgesOf(froms, lists, known, i) <==>
      e.1 in known && exists k :: 0 <= k < i && e.0 == froms[k] && e.1 in lists[k]
  {
    if i > 0 {
      EdgesOfSpec(froms, lists, known, i - 1);
      KnownEdgesSpec(froms[i - 1], lists[i - 1], known);
    }
  }

  /** The node map the first loop leaves: an edgeless node per ARN, holding the last resource set under it. */
  ghost function InitialNodes(rs: seq<Resource>): map<string, ResourceNode> {
    if rs == [] then map[]
    else InitialNodes(rs[..|rs| - 1])[rs[|rs| - 1].arn := ResourceNode(rs[|rs| - 1], [], [])]
  }

  /** The edge map the first loop leaves: an empty set per ARN. */
  ghost function InitialEdges(rs: seq<Resource>): map<string, seq<string>> {
    if rs == [] then map[]
    else InitialEdges(rs[..|rs| - 1])[rs[|rs| - 1].arn := []]
  }

  lemma InitialSnoc(rs: seq<Resource>, i: nat)
    requires i < |rs|
    ensures InitialNodes(rs[..i + 1]) == InitialNodes(rs[..i])[rs[i].arn := ResourceNode(rs[i], [], [])]
    ensures InitialEdges(rs[..i + 1]) == InitialEdges(rs[..i])[rs[i].arn := []]
  {
    assert rs[..i + 1][..i] == rs[..i];
  }

  lemma {:induction false} InitialKeys(rs: seq<Resource>)
    ensures InitialNodes(rs).Keys == InitialEdges(rs).Keys == Elems(Arns(rs))
  {
    if rs != [] {
      var init := rs[..|rs| - 1];
      InitialKeys(init);
      assert Arns(rs) == Arns(init) + [rs[|rs| - 1].arn];
      assert Elems(Arns(rs)) == Elems(Arns(init)) + {rs[|rs| - 1].arn};
    }
  }

  lemma {:induction false} InitialNodesSpec(rs: seq<Resource>)
    ensures InitialNodes(rs).Keys == InitialEdges(rs).Keys == Elems(Arns(rs))
    ensures forall a :: a in InitialNodes(rs) ==>
      && LastWithArn(rs, a).Some?
      && InitialNodes(rs)[a] == ResourceNode(LastWithArn(rs, a).value, [], [])
      && InitialEdges(rs)[a] == []
  {
    if rs != [] {
      var init := rs[..|rs| - 1];
      InitialNodesSpec(init);
      assert Arns(rs) == Arns(init) + [rs[|rs| - 1].arn];
      assert Elems(Arns(rs)) == Elems(Arns(init)) + {rs[|rs| - 1].arn};
    }
  }

  /** Recording that a depends on b in both nodes: one round of the inner loop of the second pass. */
  ghost function AddEdge(nodes: map<string, ResourceNode>, a: string, b: string): (m: map<string, ResourceNode>)
    ensures m.Keys == nodes.Keys
  {
    if a !in nodes || b !in nodes then nodes
    else
      var n1 := nodes[a := nodes[a].(dependencies := SetAdd(nodes[a].dependencies, b))];
      n1[b := n1[b].(dependents := SetAdd(n1[b].dependents, a))]
  }

  /** The node map after the edges es have been recorded, one by one. */
  ghost function AddEdges(nodes: map<string, ResourceNode>, es: seq<Edge>): (m: map<string, ResourceNode>)
    ensures m.Keys == nodes.Keys
  {
    if es == [] then nodes
    else AddEdge(AddEdges(nodes, es[..|es| - 1]), es[|es| - 1].0, es[|es| - 1].1)
  }

  /** The edge map after the edges es have been recorded, one by one. */
  ghost function AddTargets(edges: map<string, seq<string>>, es: seq<Edge>): (m: map<string, seq<string>>)
    ensures m.Keys == edges.Keys
  {
    if es == [] then edges
    else
      var e := es[|es| - 1];
      var m := AddTargets(edges, es[..|es| - 1]);
      if e.0 in m then m[e.0 := SetAdd(m[e.0], e.1)] else m
  }

  lemma AddEdgesSnoc(nodes: map<string, ResourceNode>, edges: map<string, seq<string>>, es: seq<Edge>, e: Edge)
    ensures AddEdges(nodes, es + [e]) == AddEdge(AddEdges(nodes, es), e.0, e.1)
    ensures AddTargets(edges, es + [e]) == var m := AddTargets(edges, es); if e.0 in m then m[e.0 := SetAdd(m[e.0], e.1)] else m
  {
    assert (es + [e])[..|es|] == es;
  }

  lemma {:induction false} AddEdgesAppend(nodes: map<string, ResourceNode>, edges: map<string, seq<string>>, es: seq<Edge>, more: seq<Edge>)
    ensures AddEdges(nodes, es + more) == AddEdges(AddEdges(nodes, es), more)
    ensures AddTargets(edges, es + more) == AddTargets(AddTargets(edges, es), more)
  {
    if more == [] {
      assert es + more == es;
    } else {
      var init := more[..|more| - 1];
      AddEdgesAppend(nodes, edges, es, init);
      assert (es + more)[..|es + more| - 1] == es + init;
    }
  }

  lemma KnownEdgesSnoc(from: string, ds: seq<string>, t: nat, known: set<string>)
    requires t < |ds|
    ensures KnownEdges(from, ds[..t + 1], known)
      == KnownEdges(from, ds[..t], known) + (if ds[t] in known then [(from, ds[t])] else [])
  {
    assert ds[..t + 1][..t] == ds[..t];
  }

  /** Recording edges between existing edgeless nodes leaves each node with exactly its targets and sources. */
  lemma {:induction false} AddEdgesSpec(nodes: map<string, ResourceNode>, es: seq<Edge>)
    requires EndpointsIn(es, nodes)
    requires forall a :: a in nodes ==> nodes[a].dependencies == [] && nodes[a].dependents == []
    ensures forall a :: a in nodes ==>
      AddEdges(nodes, es)[a] == ResourceNode(nodes[a].resource, Targets(es, a), Sources(es, a))
  {
    if es != [] {
      var init := es[..|es| - 1];
      assert EndpointsIn(init, nodes) by {
        forall x | x in init ensures x in es { }
      }
      AddEdgesSpec(nodes, init);
    }
  }

  lemma {:induction false} AddTargetsSpec(edges: map<string, seq<string>>, es: seq<Edge>)
    requires EndpointsIn(es, edges)
    requires forall a :: a in edges ==> edges[a] == []
    ensures forall a :: a in edges ==> AddTargets(edges, es)[a] == Targets(es, a)
  {
    if es != [] {
      var init := es[..|es| - 1];
      assert EndpointsIn(init, edges) by {
        forall x | x in init ensures x in es { }
      }
      AddTargetsSpec(edges, init);
    }
  }

  ghost predicate EndpointsIn<V>(es: seq<Edge>, m: map<string, V>) {
    forall e :: e in es ==> e.0 in m && e.1 in m
  }

  /**
   * The shape every built graph has: the key order lists each node once, each
   * node is filed under its own ARN, its sets are duplicate-free and name only
   * nodes, and its edge set is its dependency set.
   */
  ghost predicate WellFormed(g: ResourceGraph) {
    && Distinct(g.order)
    && g.nodes.Keys == Elems(g.order)
    && g.edges.Keys == g.nodes.Keys
    && forall a :: a in g.nodes ==>
      && g.nodes[a].resource.arn == a
      && Distinct(g.nodes[a].dependencies)
      && Distinct(g.nodes[a].dependents)
      && (forall b :: b in g.nodes[a].dependencies ==> b in g.nodes)
      && (forall b :: b in g.nodes[a].dependents ==> b in g.nodes)
      && g.edges[a] == g.nodes[a].dependencies
  }

  /** a depends on b exactly when b records a as a dependent. */
  ghost predicate Symmetric(g: ResourceGraph) {
    forall a, b :: a in g.nodes && b in g.nodes ==>
      (b in g.nodes[a].dependencies <==> a in g.nodes[b].dependents)
  }

  /**
   * The inner loop of buildResourceGraph's second pass: for each inferred ARN
   * in turn that is a node, `from` records it as a dependency and it records
   * `from` as a dependent.
   */
  method RecordDependencies(nodes0: map<string, ResourceNode>, edges0: map<string, seq<string>>, from: string, deps: seq<string>)
    returns (nodes: map<string, ResourceNode>, edges: map<string, seq<string>>)
    requires from in nodes0 && from in edges0
    ensures nodes == AddEdges(nodes0, KnownEdges(from, deps, nodes0.Keys))
    ensures edges == AddTargets(edges0, KnownEdges(from, deps, nodes0.Keys))
  {
    nodes, edges := nodes0, edges0;
    for t := 0 to |deps|
      invariant nodes == AddEdges(nodes0, KnownEdges(from, deps[..t], nodes0.Keys))
      invariant edges == AddTargets(edges0, KnownEdges(from, deps[..t], nodes0.Keys))
    {
      var depArn := deps[t];
      KnownEdgesSnoc(from, deps, t, nodes0.Keys);
      AddEdgesSnoc(nodes0, edges0, KnownEdges(from, deps[..t], nodes0.Keys), (from, depArn));
      ghost var es := KnownEdges(from, deps[..t], nodes0.Keys);
      assert nodes.Keys == nodes0.Keys;
      if depArn in nodes {
        assert KnownEdges(from, deps[..t + 1], nodes0.Keys) == es + [(from, depArn)];
        assert AddEdges(nodes0, es + [(from, depArn)]) == AddEdge(nodes, from, depArn);
        var self := nodes[from];
        nodes := nodes[from := self.(dependencies := SetAdd(self.dependencies, depArn))];
        var depNode := nodes[depArn];
        nodes := nodes[depArn := depNode.(dependents := SetAdd(depNode.dependents, from))];
        edges := edges[from := SetAdd(edges[from], depArn)];
        assert nodes == AddEdges(nodes0, KnownEdges(from, deps[..t + 1], nodes0.Keys));
      } else {
        assert KnownEdges(from, deps[..t + 1], nodes0.Keys) == es;
      }
    }
    assert deps[..|deps|] == deps;
  }

  /** Every inferred edge joins two nodes. */
  lemma InferredEdgesEndpoints(rs: seq<Resource>)
    ensures forall e :: e in InferredEdges(rs) ==> e.0 in Elems(Arns(rs)) && e.1 in Elems(Arns(rs))
  {
    EdgesOfSpec(Arns(rs), AllDependencies(rs), Elems(Arns(rs)), |rs|);
  }

  /** Each node of the built graph: the last resource with its ARN, its targets and its sources. */
  lemma BuiltNodes(rs: seq<Resource>, g: ResourceGraph)
    requires g.nodes == AddEdges(InitialNodes(rs), InferredEdges(rs))
    requires g.edges == AddTargets(InitialEdges(rs), InferredEdges(rs))
    ensures g.nodes.Keys == g.edges.Keys == Elems(Arns(rs))
    ensures forall a :: a in g.nodes ==>
      && LastWithArn(rs, a).Some?
      && g.nodes[a] == ResourceNode(LastWithArn(rs, a).value, Targets(InferredEdges(rs), a), Sources(InferredEdges(rs), a))
      && g.edges[a] == Targets(InferredEdges(rs), a)
  {
    var es := InferredEdges(rs);
    InitialNodesSpec(rs);
    InferredEdgesEndpoints(rs);
    assert EndpointsIn(es, InitialNodes(rs));
    assert EndpointsIn(es, InitialEdges(rs));
    AddEdgesSpec(InitialNodes(rs), es);
    AddTargetsSpec(InitialEdges(rs), es);
  }

  /** The built graph is well formed and its two directions agree. */
  lemma BuiltGraph(rs: seq<Resource>, g: ResourceGraph)
    requires g.order == FirstOccurrences(Arns(rs))
    requires g.nodes == AddEdges(InitialNodes(rs), InferredEdges(rs))
    requires g.edges == AddTargets(InitialEdges(rs), InferredEdges(rs))
    ensures WellFormed(g) && Symmetric(g)
  {
    var es := InferredEdges(rs);
    BuiltNodes(rs, g);
    InferredEdgesEndpoints(rs);
    FirstOccurrencesSpec(Arns(rs));
    forall a | a in g.nodes
      ensures Distinct(g.nodes[a].dependencies) && Distinct(g.nodes[a].dependents)
      ensures forall x :: x in g.nodes[a].dependencies <==> (a, x) in es
      ensures forall x :: x in g.nodes[a].dependents <==> (x, a) in es
    {
      TargetsSpec(es, a);
      SourcesSpec(es, a);
    }
  }

  /** A dependency inferred for a resource, when it is a node, is recorded on the resource's node. */
  lemma DependencyRecorded(rs: seq<Resource>, k: nat, b: string)
    requires k < |rs| && b in Arns(rs) && b in FindResourceDependencies(rs[k], rs)
    ensures b in Targets(InferredEdges(rs), rs[k].arn)
  {
    var es, froms, lists := InferredEdges(rs), Arns(rs), AllDependencies(rs);
    TargetsSpec(es, rs[k].arn);
    EdgesOfSpec(froms, lists, Elems(froms), |rs|);
    assert rs[k].arn == froms[k] && b in lists[k];
  }

  /** A recorded dependency of a node was inferred for some resource with the node's ARN. */
  lemma DependencyInferred(rs: seq<Resource>, a: string, b: string) returns (k: nat)
    requires b in Targets(InferredEdges(rs), a)
    ensures k < |rs| && rs[k].arn == a && b in Arns(rs) && b in FindResourceDependencies(rs[k], rs)
  {
    var es, froms, lists := InferredEdges(rs), Arns(rs), AllDependencies(rs);
    TargetsSpec(es, a);
    EdgesOfSpec(froms, lists, Elems(froms), |rs|);
    k :| 0 <= k < |rs| && a == froms[k] && b in lists[k];
  }

  /**
   * The dependency set buildResourceGraph gives the node a: every ARN that the
   * inference names for some resource with ARN a, provided it is a node.
   */
  lemma DependenciesMeaning(rs: seq<Resource>, a: string)
    ensures forall b :: b in Targets(InferredEdges(rs), a) <==>
      b in Arns(rs) && exists k :: 0 <= k < |rs| && rs[k].arn == a && b in FindResourceDependencies(rs[k], rs)
  {
    forall b | b in Targets(InferredEdges(rs), a)
      ensures b in Arns(rs) && exists k :: 0 <= k < |rs| && rs[k].arn == a && b in FindResourceDependencies(rs[k], rs)
    {
      var k := DependencyInferred(rs, a, b);
    }
    forall b, k | 0 <= k < |rs| && rs[k].arn == a && b in Arns(rs) && b in FindResourceDependencies(rs[k], rs)
      ensures b in Targets(InferredEdges(rs), a)
    {
      DependencyRecorded(rs, k, b);
    }
  }

  /** Recording the edges of the i-th resource extends the edges recorded so far. */
  lemma LinkStep(froms: seq<string>, lists: seq<seq<string>>, known: set<string>, i: nat,
                 nodes0: map<string, ResourceNode>, edges0: map<string, seq<string>>,
                 nodes: map<string, ResourceNode>, edges: map<string, seq<string>>)
    requires i < |froms| == |lists|
    requires nodes == AddEdges(AddEdges(nodes0, EdgesOf(froms, lists, known, i)), KnownEdges(froms[i], lists[i], known))
    requires edges == AddTargets(AddTargets(edges0, EdgesOf(froms, lists, known, i)), KnownEdges(froms[i], lists[i], known))
    ensures nodes == AddEdges(nodes0, EdgesOf(froms, lists, known, i + 1))
    ensures edges == AddTargets(edges0, EdgesOf(froms, lists, known, i + 1))
  {
    AddEdgesAppend(nodes0, edges0, EdgesOf(froms, lists, known, i), KnownEdges(froms[i], lists[i], known));
  }

  lemma LinkedEverything(rs: seq<Resource>, known: set<string>)
    requires known == Elems(Arns(rs))
    ensures EdgesOf(Arns(rs), AllDependencies(rs), known, |rs|) == InferredEdges(rs)
  {
  }

  /**
   * The second pass of buildResourceGraph: every resource in turn records the
   * dependencies inferred for it.
   */
  method LinkDependencies(rs: seq<Resource>, nodes0: map<string, ResourceNode>, edges0: map<string, seq<string>>)
    returns (nodes: map<string, ResourceNode>, edges: map<string, seq<string>>)
    requires nodes0 == InitialNodes(rs) && edges0 == InitialEdges(rs)
    ensures nodes == AddEdges(nodes0, InferredEdges(rs)) && edges == AddTargets(edges0, InferredEdges(rs))
  {
    InitialKeys(rs);
    nodes, edges := nodes0, edges0;
    ghost var froms, lists, known := Arns(rs), AllDependencies(rs), nodes.Keys;
    for i := 0 to |rs|
      invariant nodes == AddEdges(nodes0, EdgesOf(froms, lists, known, i))
      invariant edges == AddTargets(edges0, EdgesOf(froms, lists, known, i))
    {
      var r := rs[i];
      var deps := FindResourceDependencies(r, rs);
      assert deps == lists[i] && r.arn == froms[i];
      assert nodes.Keys == known;
      nodes, edges := RecordDependencies(nodes, edges, r.arn, deps);
      LinkStep(froms, lists, known, i, nodes0, edges0, nodes, edges);
    }
    LinkedEverything(rs, known);
  }

  /**
   * g is the graph buildResourceGraph returns for rs: well-formed and
   * symmetric, keyed by rs's ARNs in first-set order, each node holding the
   * last resource with its ARN and exactly the inferred edges.
   */
  ghost predicate BuiltFrom(g: ResourceGraph, rs: seq<Resource>) {
    && WellFormed(g) && Symmetric(g)
    && g.order == FirstOccurrences(Arns(rs))
    && g.nodes.Keys == Elems(Arns(rs))
    && (forall a :: a in g.nodes ==> LastWithArn(rs, a) == Some(g.nodes[a].resource))
    && (forall a :: a in g.nodes ==>
      && g.nodes[a].dependencies == Targets(InferredEdges(rs), a)
      && g.nodes[a].dependents == Sources(InferredEdges(rs), a))
  }

  /**
   * buildResourceGraph. A later resource with an ARN already seen replaces the
   * node's resource but keeps its place in the key order; its inferred
   * dependencies are added to the same node.
   */
  method BuildResourceGraph(rs: seq<Resource>) returns (g: ResourceGraph)
    ensures WellFormed(g) && Symmetric(g)
    ensures g.order == FirstOccurrences(Arns(rs))
    ensures g.nodes.Keys == Elems(Arns(rs))
    ensures forall a :: a in g.nodes ==> LastWithArn(rs, a) == Some(g.nodes[a].resource)
    ensures forall a :: a in g.nodes ==>
      && g.nodes[a].dependencies == Targets(InferredEdges(rs), a)
      && g.nodes[a].dependents == Sources(InferredEdges(rs), a)
  {
    var nodes: map<string, ResourceNode> := map[];
    var edges: map<string, seq<string>> := map[];
    var order: seq<string> := [];
    for i := 0 to |rs|
      invariant nodes == InitialNodes(rs[..i]) && edges == InitialEdges(rs[..i])
      invariant order == FirstOccurrences(Arns(rs[..i]))
    {
      var r := rs[i];
      assert Arns(rs[..i + 1]) == Arns(rs[..i]) + [r.arn];
      InitialSnoc(rs, i);
      InitialKeys(rs[..i]);
      FirstOccurrencesElems(Arns(rs[..i]));
      FirstOccurrencesSnoc(Arns(rs[..i]), r.arn);
      assert r.arn in order <==> r.arn in nodes;
      if r.arn !in nodes {
        order := order + [r.arn];
      }
      nodes := nodes[r.arn := ResourceNode(r, [], [])];
      edges := edges[r.arn := []];
    }
    assert rs[..|rs|] == rs;
    InitialNodesSpec(rs);

    nodes, edges := LinkDependencies(rs, nodes, edges);
    g := ResourceGraph(nodes, edges, order);
    BuiltNodes(rs, g);
    BuiltGraph(rs, g);
  }
}
