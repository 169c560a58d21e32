/**
 * getOptimalDeletionOrder (packages/shared/src/utils/cli/graph.ts): build the
 * graph, sort it topologically, then re-sort the result stably by a fixed
 * service priority. Every priority is doubled so that the source's 1.5 and
 * 2.5 stay integers; only their order matters.
 */
module DeletionOrder {
  import opened Wrappers
  import opened Seqs
  import opened Resources
  import opened Graph
  import opened TopoSort

  // ---------------------------------------------------------------------------
  // Priorities
  // ---------------------------------------------------------------------------

  /** The servicePriorities record, doubled; a service it does not list has none. */
  function ServicePriority(service: string): (p: Option<int>)
    ensures p.Some? ==> 2 <= p.value <= 14 && p.value % 2 == 0
    ensures p.Some? <==> service in ListedServices()
  {
    if service == "events" then Some(2)
    else if service == "lambda" then Some(4)
    else if service == "apigateway" then Some(6)
    else if service == "logs" || service == "cloudwatch" then Some(8)
    else if service == "s3" || service == "dynamodb" || service == "sqs"
         || service == "elasticache" || service == "rds" then Some(10)
    else if service == "ec2" || service == "servicediscovery" then Some(12)
    else if service == "iam" then Some(14)
    else None
  }

  function ListedServices(): set<string> {
    {"events", "lambda", "apigateway", "logs", "cloudwatch", "s3", "dynamodb", "sqs",
     "elasticache", "rds", "ec2", "servicediscovery", "iam"}
  }

  /**
   * The priority assigned to a resource: the service's entry or 99 (doubled:
   * 198), overridden to 1.5 for event source mappings and 2.5 for functions.
   */
  function Priority(r: Resource): (p: int)
    ensures 2 <= p <= 198
    ensures p % 2 == 1 <==> r.service == "lambda" && (r.resourceType == "event-source-mapping" || r.resourceType == "function")
    ensures p == 198 <==> r.service !in ListedServices()
  {
    var base := match ServicePriority(r.service)
      case Some(v) => v
      case None => 198;
    if r.service == "lambda" && r.resourceType == "event-source-mapping" then 3
    else if r.service == "lambda" && r.resourceType == "function" then 5
    else base
  }

  /**
   * The precedence the table encodes (lower is deleted first), link by link:
   * event rules, event source mappings, the other lambda resources, functions,
   * API Gateway, logs and alarms, storage, networking, IAM, and unlisted
   * services last. The remaining clauses are consequences of that chain that
   * the table's comments single out.
   */
  lemma DeletionPrecedence(a: Resource, b: Resource)
    ensures a.service == "events" && b.service != "events" ==> Priority(a) < Priority(b)
    ensures (a.service == "lambda" && a.resourceType == "event-source-mapping"
             && b.service == "lambda" && b.resourceType != "event-source-mapping") ==> Priority(a) < Priority(b)
    ensures (a.service == "lambda" && a.resourceType !in {"event-source-mapping", "function"}
             && b.service == "lambda" && b.resourceType == "function") ==> Priority(a) < Priority(b)
    ensures (a.service == "lambda" && a.resourceType == "function"
             && b.service == "apigateway") ==> Priority(a) < Priority(b)
    ensures (a.service == "apigateway" && b.service in {"logs", "cloudwatch"}) ==> Priority(a) < Priority(b)
    ensures (a.service in {"logs", "cloudwatch"}
             && b.service in {"s3", "dynamodb", "sqs", "elasticache", "rds"}) ==> Priority(a) < Priority(b)
    ensures (a.service in {"s3", "dynamodb", "sqs", "elasticache", "rds"}
             && b.service in {"ec2", "servicediscovery"}) ==> Priority(a) < Priority(b)
    ensures (a.service in {"ec2", "servicediscovery"} && b.service == "iam") ==> Priority(a) < Priority(b)
    ensures b.service in ListedServices() && a.service !in ListedServices() ==> Priority(b) < Priority(a)
    ensures (a.service == "lambda" && a.resourceType == "function"
             && b.service in {"logs", "cloudwatch", "iam"}) ==> Priority(a) < Priority(b)
    ensures (a.service in {"ec2", "servicediscovery"} && b.service in ListedServices()
             && b.service !in {"ec2", "servicediscovery", "iam"}) ==> Priority(b) < Priority(a)
  {
  }

  /**
   * In an order sorted by priority, a mapping comes before every function,
   * and a function before every role and every log group.
   */
  lemma PrecedenceInOrder(result: seq<Resource>, i: nat, j: nat)
    requires forall m, n :: 0 <= m < n < |result| ==> Priority(result[m]) <= Priority(result[n])
    requires i < |result| && j < |result|
    requires || (result[i].service == "lambda" && result[i].resourceType == "event-source-mapping"
                 && result[j].service == "lambda" && result[j].resourceType == "function")
             || (result[i].service == "lambda" && result[i].resourceType == "function"
                 && result[j].service in {"iam", "logs"})
    ensures i < j
  {
    DeletionPrecedence(result[i], result[j]);
  }

  /** The sort key: the priority recorded for the ARN, or 999 (doubled) when none is. */
  function Key(pm: map<string, int>, r: Resource): int {
    if r.arn in pm then pm[r.arn] else 1998
  }

  /** The priorityMap after recording rs in order; a later ARN overwrites an earlier one. */
  ghost function PriorityTable(rs: seq<Resource>): map<string, int> {
    if rs == [] then map[]
    else PriorityTable(rs[..|rs| - 1])[rs[|rs| - 1].arn := Priority(rs[|rs| - 1])]
  }

  lemma {:induction false} PriorityTableSpec(rs: seq<Resource>)
    ensures PriorityTable(rs).Keys == Elems(Arns(rs))
    ensures DistinctArns(rs) ==> forall k :: 0 <= k < |rs| ==> PriorityTable(rs)[rs[k].arn] == Priority(rs[k])
  {
    if rs != [] {
      var init := rs[..|rs| - 1];
      PriorityTableSpec(init);
      assert Arns(rs) == Arns(init) + [rs[|rs| - 1].arn];
      if DistinctArns(rs) {
        assert DistinctArns(init);
        forall k | 0 <= k < |rs|
          ensures PriorityTable(rs)[rs[k].arn] == Priority(rs[k])
        {
          if k < |rs| - 1 {
            assert rs[k] == init[k];
            assert rs[k].arn != rs[|rs| - 1].arn;
          }
        }
      }
    }
  }

  /** The loop filling priorityMap over the topological order. */
  method AssignPriorities(topo: seq<Resource>) returns (pm: map<string, int>)
    ensures pm == PriorityTable(topo)
    ensures pm.Keys == Elems(Arns(topo))
    ensures DistinctArns(topo) ==> forall k :: 0 <= k < |topo| ==> Key(pm, topo[k]) == Priority(topo[k])
  {
    pm := map[];
    for i := 0 to |topo|
      invariant pm == PriorityTable(topo[..i])
    {
      assert topo[..i + 1][..i] == topo[..i];
      pm := pm[topo[i].arn := Priority(topo[i])];
    }
    assert topo[..|topo|] == topo;
    PriorityTableSpec(topo);
  }

  // ---------------------------------------------------------------------------
  // The stable sort
  // ---------------------------------------------------------------------------

  /**
   * Array.prototype.sort with the comparator Key(a) - Key(b). The sort is
   * stable, so the result is the insertion sort below; SortUnique shows that
   * any stable sort by the same key gives this result.
   */
  function Insert(x: Resource, s: seq<Resource>, pm: map<string, int>): seq<Resource> {
    if s == [] || Key(pm, x) <= Key(pm, s[0]) then [x] + s
    else [s[0]] + Insert(x, s[1..], pm)
  }

  function SortByKey(rs: seq<Resource>, pm: map<string, int>): seq<Resource> {
    if rs == [] then [] else Insert(rs[0], SortByKey(rs[1..], pm), pm)
  }

  ghost predicate SortedBy(s: seq<Resource>, pm: map<string, int>) {
    forall i, j :: 0 <= i < j < |s| ==> Key(pm, s[i]) <= Key(pm, s[j])
  }

  /** The elements of s with key p, in their order in s. */
  ghost function WithKey(s: seq<Resource>, pm: map<string, int>, p: int): seq<Resource> {
    if s == [] then [] else (if Key(pm, s[0]) == p then [s[0]] else []) + WithKey(s[1..], pm, p)
  }

  lemma {:induction false} InsertMultiset(x: Resource, s: seq<Resource>, pm: map<string, int>)
    ensures multiset(Insert(x, s, pm)) == multiset(s) + multiset{x}
  {
    if s != [] && Key(pm, x) > Key(pm, s[0]) {
      InsertMultiset(x, s[1..], pm);
      assert s == [s[0]] + s[1..];
    }
  }

  lemma {:induction false} InsertSorted(x: Resource, s: seq<Resource>, pm: map<string, int>)
    requires SortedBy(s, pm)
    ensures SortedBy(Insert(x, s, pm), pm)
  {
    var r := Insert(x, s, pm);
    if s == [] || Key(pm, x) <= Key(pm, s[0]) {
      assert r[1..] == s;
      forall i, j | 0 <= i < j < |r| ensures Key(pm, r[i]) <= Key(pm, r[j]) {
        if i == 0 && j > 1 {
          assert r[j] == s[j - 1];
        }
      }
    } else {
      var t := Insert(x, s[1..], pm);
      InsertSorted(x, s[1..], pm);
      InsertMultiset(x, s[1..], pm);
      assert r[1..] == t;
      forall i, j | 0 <= i < j < |r| ensures Key(pm, r[i]) <= Key(pm, r[j]) {
        if i == 0 {
          assert r[j] == t[j - 1];
          assert r[j] in multiset(s[1..]) + multiset{x};
          if r[j] != x {
            var k :| 0 <= k < |s[1..]| && s[1..][k] == r[j];
            assert s[k + 1] == r[j];
          }
        } else {
          assert r[i] == t[i - 1] && r[j] == t[j - 1];
        }
      }
    }
  }

  lemma WithKeyCons(h: Resource, t: seq<Resource>, pm: map<string, int>, p: int)
    ensures WithKey([h] + t, pm, p) == (if Key(pm, h) == p then [h] else []) + WithKey(t, pm, p)
  {
    assert ([h] + t)[0] == h && ([h] + t)[1..] == t;
  }

  lemma {:induction false} InsertWithKey(x: Resource, s: seq<Resource>, pm: map<string, int>, p: int)
    ensures WithKey(Insert(x, s, pm), pm, p) == (if Key(pm, x) == p then [x] else []) + WithKey(s, pm, p)
  {
    if s == [] || Key(pm, x) <= Key(pm, s[0]) {
      assert Insert(x, s, pm) == [x] + s;
      WithKeyCons(x, s, pm, p);
    } else {
      var t := Insert(x, s[1..], pm);
      assert Insert(x, s, pm) == [s[0]] + t;
      InsertWithKey(x, s[1..], pm, p);
      WithKeyCons(s[0], t, pm, p);
      assert s == [s[0]] + s[1..];
      WithKeyCons(s[0], s[1..], pm, p);
    }
  }

  lemma {:induction false} SortSpec(rs: seq<Resource>, pm: map<string, int>)
    ensures SortedBy(SortByKey(rs, pm), pm)
    ensures multiset(SortByKey(rs, pm)) == multiset(rs)
    ensures forall p :: WithKey(SortByKey(rs, pm), pm, p) == WithKey(rs, pm, p)
  {
    if rs != [] {
      var t := SortByKey(rs[1..], pm);
      SortSpec(rs[1..], pm);
      InsertSorted(rs[0], t, pm);
      InsertMultiset(rs[0], t, pm);
      forall p ensures WithKey(SortByKey(rs, pm), pm, p) == WithKey(rs, pm, p) {
        InsertWithKey(rs[0], t, pm, p);
      }
      assert rs == [rs[0]] + rs[1..];
    }
  }

  lemma {:induction false} WithKeyMember(s: seq<Resource>, pm: map<string, int>, p: int, x: Resource)
    ensures x in WithKey(s, pm, p) <==> x in s && Key(pm, x) == p
  {
    if s != [] {
      WithKeyMember(s[1..], pm, p, x);
      assert s == [s[0]] + s[1..];
    }
  }

  lemma FirstHasClass(s: seq<Resource>, pm: map<string, int>)
    ensures s != [] ==> WithKey(s, pm, Key(pm, s[0])) != []
  {
  }

  lemma EmptyTogether(t1: seq<Resource>, t2: seq<Resource>, pm: map<string, int>)
    requires forall p :: WithKey(t1, pm, p) == WithKey(t2, pm, p)
    ensures t1 == [] <==> t2 == []
  {
    FirstHasClass(t1, pm);
    FirstHasClass(t2, pm);
  }

  /** Two sorted sequences with the same per-key subsequences start alike. */
  lemma HeadsAgree(t1: seq<Resource>, t2: seq<Resource>, pm: map<string, int>)
    requires t1 != [] && t2 != [] && SortedBy(t1, pm) && SortedBy(t2, pm)
    requires forall p :: WithKey(t1, pm, p) == WithKey(t2, pm, p)
    ensures t1[0] == t2[0]
  {
    var k1, k2 := Key(pm, t1[0]), Key(pm, t2[0]);
    WithKeyMember(t1, pm, k2, t2[0]);
    WithKeyMember(t2, pm, k1, t1[0]);
    var i :| 0 <= i < |t2| && t2[i] == t1[0];
    var j :| 0 <= j < |t1| && t1[j] == t2[0];
    assert k1 == k2;
    assert WithKey(t1, pm, k1)[0] == t1[0];
    assert WithKey(t2, pm, k2)[0] == t2[0];
  }

  lemma TailsAgree(t1: seq<Resource>, t2: seq<Resource>, pm: map<string, int>)
    requires t1 != [] && t2 != [] && t1[0] == t2[0]
    requires forall p :: WithKey(t1, pm, p) == WithKey(t2, pm, p)
    ensures forall p :: WithKey(t1[1..], pm, p) == WithKey(t2[1..], pm, p)
  {
    forall p ensures WithKey(t1[1..], pm, p) == WithKey(t2[1..], pm, p) {
      var h := if Key(pm, t1[0]) == p then [t1[0]] else [];
      assert WithKey(t1, pm, p) == h + WithKey(t1[1..], pm, p);
      assert WithKey(t2, pm, p) == h + WithKey(t2[1..], pm, p);
      assert WithKey(t1[1..], pm, p) == WithKey(t1, pm, p)[|h|..];
      assert WithKey(t2[1..], pm, p) == WithKey(t2, pm, p)[|h|..];
    }
  }

  /** A sequence sorted by key is determined by its per-key subsequences. */
  lemma {:induction false} SortUnique(t1: seq<Resource>, t2: seq<Resource>, pm: map<string, int>)
    requires SortedBy(t1, pm) && SortedBy(t2, pm)
    requires forall p :: WithKey(t1, pm, p) == WithKey(t2, pm, p)
    ensures t1 == t2
    decreases |t1|
  {
    EmptyTogether(t1, t2, pm);
    if t1 != [] {
      HeadsAgree(t1, t2, pm);
      TailsAgree(t1, t2, pm);
      assert SortedBy(t1[1..], pm) && SortedBy(t2[1..], pm);
      SortUnique(t1[1..], t2[1..], pm);
      assert t1 == [t1[0]] + t1[1..];
      assert t2 == [t2[0]] + t2[1..];
    }
  }

  /** Whatever stable sort the engine runs, its result is SortByKey. */
  lemma AnyStableSort(rs: seq<Resource>, t: seq<Resource>, pm: map<string, int>)
    requires SortedBy(t, pm) && forall p :: WithKey(t, pm, p) == WithKey(rs, pm, p)
    ensures t == SortByKey(rs, pm)
  {
    SortSpec(rs, pm);
    SortUnique(t, SortByKey(rs, pm), pm);
  }

  // ---------------------------------------------------------------------------
  // From keys to priorities
  // ---------------------------------------------------------------------------

  /** The resources of s of rank p, in their order in s. */
  ghost function WithRank(s: seq<Resource>, rank: Resource -> int, p: int): seq<Resource> {
    if s == [] then [] else (if rank(s[0]) == p then [s[0]] else []) + WithRank(s[1..], rank, p)
  }

  /** The resources of s with priority p, in their order in s. */
  ghost function WithPriority(s: seq<Resource>, p: int): seq<Resource> {
    WithRank(s, Priority, p)
  }

  /** For each priority, result lists that priority's resources in the order s does. */
  ghost predicate StableByPriority(result: seq<Resource>, s: seq<Resource>) {
    forall p :: WithPriority(result, p) == WithPriority(s, p)
  }

  ghost predicate KeysArePriorities(s: seq<Resource>, pm: map<string, int>) {
    forall k :: 0 <= k < |s| ==> Key(pm, s[k]) == Priority(s[k])
  }

  lemma {:induction false} WithKeyIsWithPriority(s: seq<Resource>, pm: map<string, int>, p: int)
    requires KeysArePriorities(s, pm)
    ensures WithKey(s, pm, p) == WithPriority(s, p)
  {
    if s != [] {
      assert KeysArePriorities(s[1..], pm) by {
        forall k | 0 <= k < |s| - 1 ensures Key(pm, s[1..][k]) == Priority(s[1..][k]) {
          assert s[1..][k] == s[k + 1];
        }
      }
      WithKeyIsWithPriority(s[1..], pm, p);
    }
  }

  lemma {:induction false} WithPriorityMember(s: seq<Resource>, p: int, x: Resource)
    ensures x in WithPriority(s, p) <==> x in s && Priority(x) == p
  {
    if s != [] {
      WithPriorityMember(s[1..], p, x);
      assert s == [s[0]] + s[1..];
    }
  }

  // The lemmas below hold for any ranking; keeping the rank abstract spares
  // the solver the body of Priority.

  lemma ClassUnfold(s: seq<Resource>, rank: Resource -> int, p: int)
    requires s != []
    ensures rank(s[0]) == p ==> WithRank(s, rank, p) == [s[0]] + WithRank(s[1..], rank, p)
    ensures rank(s[0]) != p ==> WithRank(s, rank, p) == WithRank(s[1..], rank, p)
  {
  }

  /**
   * Where the a-th element of the p-subsequence sits in s: at m, with the
   * rest of the p-subsequence drawn from after m.
   */
  lemma {:induction false} ClassIndex(s: seq<Resource>, rank: Resource -> int, p: int, a: nat) returns (m: nat)
    requires a < |WithRank(s, rank, p)|
    ensures m < |s| && s[m] == WithRank(s, rank, p)[a]
    ensures WithRank(s[m + 1..], rank, p) == WithRank(s, rank, p)[a + 1..]
  {
    var c, t := WithRank(s, rank, p), WithRank(s[1..], rank, p);
    ClassUnfold(s, rank, p);
    if rank(s[0]) == p && a == 0 {
      m := 0;
    } else if rank(s[0]) == p {
      var n := ClassIndex(s[1..], rank, p, a - 1);
      assert c[a + 1..] == t[a..];
      assert s[1..][n + 1..] == s[n + 2..];
      m := n + 1;
    } else {
      var n := ClassIndex(s[1..], rank, p, a);
      assert s[1..][n + 1..] == s[n + 2..];
      m := n + 1;
    }
  }

  /** Order within the p-subsequence is order in s. */
  lemma ClassPositions(s: seq<Resource>, rank: Resource -> int, p: int, a: nat, b: nat) returns (m: nat, n: nat)
    requires a < b < |WithRank(s, rank, p)|
    ensures m < n < |s| && s[m] == WithRank(s, rank, p)[a] && s[n] == WithRank(s, rank, p)[b]
  {
    var c := WithRank(s, rank, p);
    m := ClassIndex(s, rank, p, a);
    assert c[b] == c[a + 1..][b - a - 1];
    var k := ClassIndex(s[m + 1..], rank, p, b - a - 1);
    n := m + 1 + k;
  }

  /** The position in the p-subsequence of an element of s of rank p. */
  lemma {:induction false} ClassPosition(s: seq<Resource>, rank: Resource -> int, p: int, i: nat) returns (a: nat)
    requires i < |s| && rank(s[i]) == p
    ensures a < |WithRank(s, rank, p)| && WithRank(s, rank, p)[a] == s[i]
  {
    ClassUnfold(s, rank, p);
    if i == 0 {
      a := 0;
    } else {
      var k := ClassPosition(s[1..], rank, p, i - 1);
      assert s[1..][i - 1] == s[i];
      a := if rank(s[0]) == p then k + 1 else k;
    }
  }

  /** Two elements of s of rank p keep their order in the p-subsequence. */
  lemma {:induction false} ClassOrder(s: seq<Resource>, rank: Resource -> int, p: int, i: nat, j: nat) returns (a: nat, b: nat)
    requires i < j < |s| && rank(s[i]) == p && rank(s[j]) == p
    ensures a < b < |WithRank(s, rank, p)|
    ensures WithRank(s, rank, p)[a] == s[i] && WithRank(s, rank, p)[b] == s[j]
  {
    var c, t := WithRank(s, rank, p), WithRank(s[1..], rank, p);
    ClassUnfold(s, rank, p);
    assert s[1..][j - 1] == s[j];
    if i == 0 {
      var l := ClassPosition(s[1..], rank, p, j - 1);
      assert c == [s[0]] + t;
      a, b := 0, l + 1;
    } else {
      assert s[1..][i - 1] == s[i];
      var k, l := ClassOrder(s[1..], rank, p, i - 1, j - 1);
      if rank(s[0]) == p {
        assert c == [s[0]] + t;
        assert c[k + 1] == t[k] && c[l + 1] == t[l];
        a, b := k + 1, l + 1;
      } else {
        assert c == t;
        a, b := k, l;
      }
    }
  }

  /** Two resources of equal priority in the stable result stand in the same order in topo. */
  lemma StableTies(topo: seq<Resource>, result: seq<Resource>, i: nat, j: nat) returns (m: nat, n: nat)
    requires StableByPriority(result, topo)
    requires i < j < |result| && Priority(result[i]) == Priority(result[j])
    ensures m < n < |topo| && topo[m] == result[i] && topo[n] == result[j]
  {
    var p := Priority(result[i]);
    var a, b := ClassOrder(result, Priority, p, i, j);
    assert WithPriority(result, p) == WithPriority(topo, p);
    m, n := ClassPositions(topo, Priority, p, a, b);
  }

  // ---------------------------------------------------------------------------
  // What the priority pass guarantees
  // ---------------------------------------------------------------------------

  /**
   * Sorting the topological order by the recorded priorities: a permutation,
   * ordered by priority, and stable (each priority's resources keep their
   * topological order).
   */
  lemma PriorityPass(topo: seq<Resource>, pm: map<string, int>)
    requires DistinctArns(topo) && pm == PriorityTable(topo)
    ensures multiset(SortByKey(topo, pm)) == multiset(topo)
    ensures forall i, j :: 0 <= i < j < |SortByKey(topo, pm)| ==> Priority(SortByKey(topo, pm)[i]) <= Priority(SortByKey(topo, pm)[j])
    ensures StableByPriority(SortByKey(topo, pm), topo)
  {
    var result := SortByKey(topo, pm);
    PriorityTableSpec(topo);
    SortSpec(topo, pm);
    assert KeysArePriorities(topo, pm);
    assert KeysArePriorities(result, pm) by {
      forall k | 0 <= k < |result| ensures Key(pm, result[k]) == Priority(result[k]) {
        assert result[k] in multiset(topo);
      }
    }
    forall p ensures WithPriority(result, p) == WithPriority(topo, p) {
      WithKeyIsWithPriority(result, pm, p);
      WithKeyIsWithPriority(topo, pm, p);
    }
  }

  /** A permutation of resources of the graph holds resources of the graph. */
  lemma PermutedNodes(g: ResourceGraph, topo: seq<Resource>, result: seq<Resource>)
    requires forall k :: 0 <= k < |topo| ==> topo[k].arn in g.nodes
    requires multiset(result) == multiset(topo)
    ensures forall k :: 0 <= k < |result| ==> result[k].arn in g.nodes
  {
    forall k | 0 <= k < |result| ensures result[k].arn in g.nodes {
      assert result[k] in multiset(topo);
    }
  }

  /** When topo never puts a resource after one of its dependencies, neither do ties in result. */
  lemma TiesKeepDependencyOrder(g: ResourceGraph, topo: seq<Resource>, result: seq<Resource>)
    requires forall k :: 0 <= k < |topo| ==> topo[k].arn in g.nodes
    requires forall k :: 0 <= k < |result| ==> result[k].arn in g.nodes
    requires forall m, n :: 0 <= m < n < |topo| ==> topo[m].arn !in g.nodes[topo[n].arn].dependencies
    requires StableByPriority(result, topo)
    ensures forall i, j :: 0 <= i < j < |result| && Priority(result[i]) == Priority(result[j]) ==>
      result[i].arn !in g.nodes[result[j].arn].dependencies
  {
    forall i, j | 0 <= i < j < |result|
      ensures Priority(result[i]) == Priority(result[j]) ==> result[i].arn !in g.nodes[result[j].arn].dependencies
    {
      if Priority(result[i]) == Priority(result[j]) {
        var m, n := StableTies(topo, result, i, j);
        assert topo[m].arn !in g.nodes[topo[n].arn].dependencies;
      }
    }
  }

  /**
   * A role depending on its function is emitted before it by the topological
   * sort, but the priority pass puts the function (2.5) ahead of the role (7):
   * priority outranks the graph's edges.
   */
  lemma PriorityOverridesEdges(role: Resource, fn: Resource)
    requires role.service == "iam" && fn.service == "lambda" && fn.resourceType == "function"
    requires role.arn != fn.arn
    ensures SortByKey([role, fn], PriorityTable([role, fn])) == [fn, role]
  {
    var pm := PriorityTable([role, fn]);
    assert [role, fn][..1] == [role] && [role][..0] == [];
    assert Priority(role) == 14 && Priority(fn) == 5;
    assert PriorityTable([role]) == map[role.arn := 14];
    assert pm == PriorityTable([role])[fn.arn := 5];
    assert Key(pm, fn) == 5 && Key(pm, role) == 14;
    assert [role, fn][1..] == [fn] && [fn][1..] == [];
    assert SortByKey([fn], pm) == [fn];
    assert Insert(role, [fn], pm) == [fn] + Insert(role, [], pm);
  }

  /** Each resource read off the node map is the last one listed with its ARN. */
  lemma KeptResources(resources: seq<Resource>, g: ResourceGraph, arns: seq<string>)
    requires forall a :: a in g.nodes ==> LastWithArn(resources, a) == Some(g.nodes[a].resource)
    requires forall k :: 0 <= k < |arns| ==> arns[k] in g.nodes
    ensures forall k :: 0 <= k < |arns| ==>
      LastWithArn(resources, ResourcesOf(g, arns)[k].arn) == Some(ResourcesOf(g, arns)[k])
  {
  }

  /** Without repeated ARNs, the last resource listed with an ARN is the only one. */
  lemma OnlyWithArn(resources: seq<Resource>, j: nat)
    requires DistinctArns(resources) && j < |resources|
    ensures LastWithArn(resources, resources[j].arn) == Some(resources[j])
  {
    var a := resources[j].arn;
    LastWithArnSpec(resources, a);
    assert Arns(resources)[j] == a;
    var k :| 0 <= k < |resources| && resources[k] == LastWithArn(resources, a).value
      && forall i :: k < i < |resources| ==> resources[i].arn != a;
  }

  /**
   * Resources with distinct ARNs, each the last listed with its ARN and
   * covering every ARN of the input, are a permutation of an input without
   * repeated ARNs.
   */
  lemma {:induction false} KeptCoverInput(resources: seq<Resource>, topo: seq<Resource>)
    requires DistinctArns(resources) && DistinctArns(topo)
    requires forall k :: 0 <= k < |topo| ==> LastWithArn(resources, topo[k].arn) == Some(topo[k])
    requires forall j :: 0 <= j < |resources| ==> resources[j].arn in Arns(topo)
    ensures multiset(topo) == multiset(resources)
  {
    assert Distinct(topo) && Distinct(resources);
    forall r | r in topo
      ensures r in resources
    {
      var m :| 0 <= m < |topo| && topo[m] == r;
      LastWithArnSpec(resources, r.arn);
    }
    forall r | r in resources
      ensures r in topo
    {
      var j :| 0 <= j < |resources| && resources[j] == r;
      var m :| 0 <= m < |topo| && Arns(topo)[m] == r.arn;
      OnlyWithArn(resources, j);
    }
    assert Elems(topo) == Elems(resources);
    SameElemsPermutation(topo, resources);
  }

  /**
   * The plan holds the input's resources: each is the last one listed with
   * its ARN (the one the node map keeps), and without repeated ARNs the plan
   * is a permutation of the input, every resource exactly once.
   */
  ghost predicate PlanOf(result: seq<Resource>, resources: seq<Resource>) {
    && (forall k :: 0 <= k < |result| ==> LastWithArn(resources, result[k].arn) == Some(result[k]))
    && (DistinctArns(resources) ==> multiset(result) == multiset(resources))
  }

  /** Any reordering of the resources the sort read off the built graph is a plan of the input. */
  lemma PlanPermutesInput(resources: seq<Resource>, g: ResourceGraph, arns: seq<string>, topo: seq<Resource>, result: seq<Resource>)
    requires g.nodes.Keys == Elems(Arns(resources)) && g.nodes.Keys == Elems(g.order)
    requires forall a :: a in g.nodes ==> LastWithArn(resources, a) == Some(g.nodes[a].resource)
    requires forall k :: 0 <= k < |arns| ==> arns[k] in g.nodes
    requires multiset(arns) == multiset(g.order)
    requires topo == ResourcesOf(g, arns) && DistinctArns(topo)
    requires multiset(result) == multiset(topo)
    ensures PlanOf(result, resources)
  {
    KeptResources(resources, g, arns);
    forall k | 0 <= k < |result|
      ensures LastWithArn(resources, result[k].arn) == Some(result[k])
    {
      assert result[k] in multiset(topo);
    }
    if DistinctArns(resources) {
      forall j | 0 <= j < |resources|
        ensures resources[j].arn in Arns(topo)
      {
        assert Arns(resources)[j] == resources[j].arn;
        assert resources[j].arn in Elems(g.order);
        assert resources[j].arn in multiset(g.order);
        var m :| 0 <= m < |arns| && arns[m] == resources[j].arn;
        assert Arns(topo)[m] == arns[m];
      }
      KeptCoverInput(resources, topo);
    }
  }

  // ---------------------------------------------------------------------------
  // The operation
  // ---------------------------------------------------------------------------

  /**
   * getOptimalDeletionOrder. Besides the result it yields, as ghosts, the
   * graph, the run of Kahn's algorithm and the topological order it sorted.
   */
  method GetOptimalDeletionOrder(resources: seq<Resource>)
    returns (result: seq<Resource>, ghost g: ResourceGraph, ghost done: seq<string>, ghost topo: seq<Resource>)
    ensures resources == [] ==> result == []
    ensures BuiltFrom(g, resources)
    ensures KahnRun(g, done)
    ensures forall k :: 0 <= k < |done + Unprocessed(g.order, done)| ==> (done + Unprocessed(g.order, done))[k] in g.nodes
    ensures topo == ResourcesOf(g, done + Unprocessed(g.order, done))
    ensures DistinctArns(topo) && multiset(Arns(topo)) == multiset(g.order)
    ensures result == SortByKey(topo, PriorityTable(topo))
    ensures forall k :: 0 <= k < |result| ==> result[k].arn in g.nodes
    ensures multiset(result) == multiset(topo)
    ensures forall i, j :: 0 <= i < j < |result| ==> Priority(result[i]) <= Priority(result[j])
    ensures StableByPriority(result, topo)
    ensures PlanOf(result, resources)
    ensures Acyclic(g) ==> forall i, j :: 0 <= i < j < |result| && Priority(result[i]) == Priority(result[j]) ==>
      result[i].arn !in g.nodes[result[j].arn].dependencies
  {
    if |resources| == 0 {
      g, done, topo := ResourceGraph(map[], map[], []), [], [];
      assert Arns(resources) == [];
      return [], g, done, topo;
    }
    var graph := BuildResourceGraph(resources);
    var topoSorted;
    topoSorted, done := TopologicalSort(graph);
    var priorityMap := AssignPriorities(topoSorted);
    result := SortByKey(topoSorted, priorityMap);
    g, topo := graph, topoSorted;
    PriorityPass(topo, priorityMap);
    PermutedNodes(g, topo, result);
    PlanPermutesInput(resources, g, done + Unprocessed(g.order, done), topo, result);
    if Acyclic(g) {
      TiesKeepDependencyOrder(g, topo, result);
    }
  }
}
