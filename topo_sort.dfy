/**
 * topologicalSort (packages/shared/src/utils/cli/graph.ts): Kahn's algorithm
 * run on dependents. A node's in-degree is its number of dependents; a node
 * enters the FIFO queue when that count reaches zero, and emitting it lowers
 * the count of each of its dependencies. Whatever is never freed (a cycle and
 * everything that depends on it) is appended afterwards in the Map's
 * insertion order.
 */
module TopoSort {
  import opened Seqs
  import opened Resources
  import opened Graph

  /** How many of ds have not been emitted yet. */
  ghost function Remaining(ds: seq<string>, done: seq<string>): nat {
    if ds == [] then 0
    else Remaining(ds[..|ds| - 1], done) + (if ds[|ds| - 1] in done then 0 else 1)
  }

  /** The dependents of a not emitted yet: the in-degree the algorithm keeps for a. */
  ghost function Pending(g: ResourceGraph, a: string, done: seq<string>): nat
    requires a in g.nodes
  {
    Remaining(g.nodes[a].dependents, done)
  }

  /** The nodes of os with no dependents, in the order of os: the initial queue. */
  ghost function Zero(g: ResourceGraph, os: seq<string>): seq<string> {
    if os == [] then []
    else
      var a := os[|os| - 1];
      Zero(g, os[..|os| - 1]) + (if a in g.nodes && g.nodes[a].dependents == [] then [a] else [])
  }

  /** The members of ds left with no pending dependent once `done` is emitted, in the order of ds. */
  ghost function Freed(g: ResourceGraph, done: seq<string>, ds: seq<string>): seq<string> {
    if ds == [] then []
    else
      var b := ds[|ds| - 1];
      Freed(g, done, ds[..|ds| - 1]) + (if b in g.nodes && Pending(g, b, done) == 0 then [b] else [])
  }

  /**
   * Everything that has entered the queue once the nodes of `done` have been
   * emitted in turn: the initial queue, then, for each emitted node, the
   * dependencies it freed, in the order of its dependency Set.
   */
  ghost function Schedule(g: ResourceGraph, done: seq<string>): seq<string> {
    if done == [] then Zero(g, g.order)
    else
      var x := done[|done| - 1];
      Schedule(g, done[..|done| - 1]) + (if x in g.nodes then Freed(g, done, g.nodes[x].dependencies) else [])
  }

  /** Before each emitted node the queue was not empty: the j-th node emitted is the j-th queued. */
  ghost predicate Ahead(g: ResourceGraph, done: seq<string>) {
    forall j :: 0 <= j < |done| ==> j < |Schedule(g, done[..j])|
  }

  /**
   * `done` is what the while loop emits, in order: each node the next one in
   * the FIFO queue, until the queue holds nothing that was not emitted.
   */
  ghost predicate KahnRun(g: ResourceGraph, done: seq<string>) {
    done == Schedule(g, done) && Ahead(g, done)
  }

  /** The resources of the nodes named by arns, in that order. */
  ghost function ResourcesOf(g: ResourceGraph, arns: seq<string>): (rs: seq<Resource>)
    requires forall k :: 0 <= k < |arns| ==> arns[k] in g.nodes
    ensures |rs| == |arns|
  {
    seq(|arns|, k requires 0 <= k < |arns| => g.nodes[arns[k]].resource)
  }

  /** The members of os not in done, in the order of os. */
  ghost function Unprocessed(os: seq<string>, done: seq<string>): (r: seq<string>)
    ensures forall k :: 0 <= k < |r| ==> r[k] in os && r[k] !in done
  {
    if os == [] then []
    else
      var a := os[|os| - 1];
      Unprocessed(os[..|os| - 1], done) + (if a in done then [] else [a])
  }

  /** p is a chain in which each node is a dependent of the one before it. */
  ghost predicate DependentChain(g: ResourceGraph, p: seq<string>) {
    && (forall k :: 0 <= k < |p| ==> p[k] in g.nodes)
    && (forall k :: 0 <= k < |p| - 1 ==> p[k + 1] in g.nodes[p[k]].dependents)
  }

  /** No chain of dependents comes back to a node it has passed. */
  ghost predicate Acyclic(g: ResourceGraph) {
    forall p :: DependentChain(g, p) ==> Distinct(p)
  }

  // ---------------------------------------------------------------------------
  // The pieces of the schedule

  lemma {:induction false} ZeroSpec(g: ResourceGraph, os: seq<string>)
    ensures forall a :: a in Zero(g, os) <==> a in os && a in g.nodes && g.nodes[a].dependents == []
    ensures Distinct(os) ==> Distinct(Zero(g, os))
  {
    if os != [] {
      var init := os[..|os| - 1];
      ZeroSpec(g, init);
      assert os == init + [os[|os| - 1]];
    }
  }

  lemma {:induction false} FreedSpec(g: ResourceGraph, done: seq<string>, ds: seq<string>)
    ensures forall b :: b in Freed(g, done, ds) <==> b in ds && b in g.nodes && Pending(g, b, done) == 0
    ensures Distinct(ds) ==> Distinct(Freed(g, done, ds))
  {
    if ds != [] {
      var init := ds[..|ds| - 1];
      FreedSpec(g, done, init);
      assert ds == init + [ds[|ds| - 1]];
    }
  }

  lemma ScheduleSnoc(g: ResourceGraph, done: seq<string>, x: string)
    requires x in g.nodes
    ensures Schedule(g, done + [x]) == Schedule(g, done) + Freed(g, done + [x], g.nodes[x].dependencies)
  {
    assert (done + [x])[..|done|] == done;
  }

  /** The schedule only ever grows at its end. */
  lemma {:induction false} SchedulePrefix(g: ResourceGraph, d: seq<string>, j: nat)
    requires j <= |d|
    ensures Schedule(g, d[..j]) <= Schedule(g, d)
    decreases |d|
  {
    if j < |d| {
      var init := d[..|d| - 1];
      SchedulePrefix(g, init, j);
      assert init[..j] == d[..j];
    } else {
      assert d[..j] == d;
    }
  }

  lemma AheadStep(g: ResourceGraph, done: seq<string>, x: string)
    requires Ahead(g, done) && |done| < |Schedule(g, done)|
    ensures Ahead(g, done + [x])
  {
    var d := done + [x];
    forall j | 0 <= j < |d|
      ensures j < |Schedule(g, d[..j])|
    {
      assert d[..j] == done[..j];
      if j == |done| {
        assert done[..j] == done;
      }
    }
  }

  /** Emitting x lowers the count of the sequences that hold x, by one. */
  lemma {:induction false} RemainingStep(ds: seq<string>, done: seq<string>, x: string)
    requires Distinct(ds) && x !in done
    ensures Remaining(ds, done) == Remaining(ds, done + [x]) + (if x in ds then 1 else 0)
  {
    if ds != [] {
      var init := ds[..|ds| - 1];
      assert Distinct(init);
      RemainingStep(init, done, x);
      assert ds == init + [ds[|ds| - 1]];
    }
  }

  /** Before anything is emitted, every member remains. */
  lemma {:induction false} RemainingNone(ds: seq<string>)
    ensures Remaining(ds, []) == |ds|
  {
    if ds != [] {
      RemainingNone(ds[..|ds| - 1]);
    }
  }

  /** Nothing remains exactly when every member has been emitted. */
  lemma {:induction false} RemainingZero(ds: seq<string>, done: seq<string>)
    ensures Remaining(ds, done) == 0 <==> forall k :: 0 <= k < |ds| ==> ds[k] in done
  {
    if ds != [] {
      var init := ds[..|ds| - 1];
      RemainingZero(init, done);
      assert forall k :: 0 <= k < |init| ==> init[k] == ds[k];
    }
  }

  lemma ResourcesOfSnoc(g: ResourceGraph, arns: seq<string>, x: string)
    requires forall k :: 0 <= k < |arns| ==> arns[k] in g.nodes
    requires x in g.nodes
    ensures ResourcesOf(g, arns + [x]) == ResourcesOf(g, arns) + [g.nodes[x].resource]
  {
  }

  /** Emitting more never raises what remains. */
  lemma {:induction false} RemainingMono(ds: seq<string>, done: seq<string>, more: seq<string>)
    requires forall y :: y in done ==> y in more
    ensures Remaining(ds, more) <= Remaining(ds, done)
  {
    if ds != [] {
      RemainingMono(ds[..|ds| - 1], done, more);
    }
  }

  lemma AheadPrefix(g: ResourceGraph, d: seq<string>)
    requires d != [] && Ahead(g, d)
    ensures Ahead(g, d[..|d| - 1])
  {
    var init := d[..|d| - 1];
    forall j | 0 <= j < |init|
      ensures j < |Schedule(g, init[..j])|
    {
      assert init[..j] == d[..j];
    }
  }

  /**
   * Each node that has entered the queue had no pending dependent left once
   * the nodes emitted before its place in the queue were emitted.
   */
  lemma {:induction false} ScheduledWhenFree(g: ResourceGraph, d: seq<string>)
    requires Ahead(g, d)
    ensures forall k :: 0 <= k < |Schedule(g, d)| ==>
      Schedule(g, d)[k] in g.nodes && Pending(g, Schedule(g, d)[k], d[..if k < |d| then k else |d|]) == 0
  {
    var S := Schedule(g, d);
    if d == [] {
      ZeroSpec(g, g.order);
      forall k | 0 <= k < |S|
        ensures S[k] in g.nodes && Pending(g, S[k], d[..0]) == 0
      {
        assert S[k] in S;
      }
    } else {
      var init := d[..|d| - 1];
      var x := d[|d| - 1];
      AheadPrefix(g, d);
      ScheduledWhenFree(g, init);
      var S' := Schedule(g, init);
      assert d == init + [x];
      forall k | 0 <= k < |S|
        ensures S[k] in g.nodes && Pending(g, S[k], d[..if k < |d| then k else |d|]) == 0
      {
        var m := if k < |d| then k else |d|;
        if k < |S'| {
          SchedulePrefix(g, d, |init|);
          assert S[k] == S'[k];
          var m' := if k < |init| then k else |init|;
          assert init[..m'] == d[..m'];
          RemainingMono(g.nodes[S[k]].dependents, init[..m'], d[..m]);
        } else {
          assert |init| < |S'| by { assert d[..|init|] == init; }
          assert x in g.nodes by { assert S != S'; }
          FreedSpec(g, d, g.nodes[x].dependencies);
          assert S[k] in Freed(g, d, g.nodes[x].dependencies);
          assert d[..m] == d;
        }
      }
    }
  }

  // ---------------------------------------------------------------------------
  // What a run of Kahn's algorithm guarantees

  /** The nodes without dependents come first, in the Map's order. */
  lemma KahnZeroFirst(g: ResourceGraph, done: seq<string>)
    requires KahnRun(g, done)
    ensures Zero(g, g.order) <= done
  {
    SchedulePrefix(g, done, 0);
    assert done[..0] == [];
  }

  /** Every dependent of an emitted node was emitted before it. */
  lemma KahnDependentsFirst(g: ResourceGraph, done: seq<string>)
    requires KahnRun(g, done)
    ensures forall k :: 0 <= k < |done| ==>
      done[k] in g.nodes && forall b :: b in g.nodes[done[k]].dependents ==> b in done[..k]
  {
    ScheduledWhenFree(g, done);
    forall k | 0 <= k < |done|
      ensures done[k] in g.nodes && forall b :: b in g.nodes[done[k]].dependents ==> b in done[..k]
    {
      var ds := g.nodes[done[k]].dependents;
      RemainingZero(ds, done[..k]);
      forall b | b in ds
        ensures b in done[..k]
      {
        var i :| 0 <= i < |ds| && ds[i] == b;
      }
    }
  }

  /** The shortest prefix of done that holds all of ds ends with a member of ds. */
  lemma {:induction false} LastCover(done: seq<string>, ds: seq<string>) returns (m: nat)
    requires ds != [] && forall k :: 0 <= k < |ds| ==> ds[k] in done
    ensures 0 < m <= |done| && done[m - 1] in ds
    ensures forall k :: 0 <= k < |ds| ==> ds[k] in done[..m]
  {
    assert ds[0] in done;
    var x := done[|done| - 1];
    if x in ds {
      m := |done|;
      assert done[..m] == done;
    } else {
      var init := done[..|done| - 1];
      forall k | 0 <= k < |ds|
        ensures ds[k] in init
      {
        assert done == init + [x];
      }
      m := LastCover(init, ds);
      assert init[..m] == done[..m];
    }
  }

  /** The dependents of every node are nodes. */
  ghost predicate DependentsAreNodes(g: ResourceGraph) {
    forall a, b :: a in g.nodes && b in g.nodes[a].dependents ==> b in g.nodes
  }

  /** A member of a prefix is a member of the whole. */
  lemma PrefixMember(s: seq<string>, t: seq<string>, x: string)
    requires s <= t && x in s
    ensures x in t
  {
    var i :| 0 <= i < |s| && s[i] == x;
    assert t[i] == x;
  }

  /** A node all of whose dependents were emitted was emitted itself. */
  lemma FreeIsEmitted(g: ResourceGraph, done: seq<string>, a: string)
    requires Symmetric(g) && DependentsAreNodes(g) && g.nodes.Keys == Elems(g.order)
    requires KahnRun(g, done) && a in g.nodes
    requires forall k :: 0 <= k < |g.nodes[a].dependents| ==> g.nodes[a].dependents[k] in done
    ensures a in done
  {
    var ds := g.nodes[a].dependents;
    if ds == [] {
      ZeroSpec(g, g.order);
      KahnZeroFirst(g, done);
      PrefixMember(Zero(g, g.order), done, a);
    } else {
      var m := LastCover(done, ds);
      var x := done[m - 1];
      assert x in g.nodes && a in g.nodes[x].dependencies;
      assert done[..m] == done[..m - 1] + [x];
      RemainingZero(ds, done[..m]);
      FreedSpec(g, done[..m], g.nodes[x].dependencies);
      ScheduleSnoc(g, done[..m - 1], x);
      SchedulePrefix(g, done, m);
      PrefixMember(Schedule(g, done[..m]), done, a);
    }
  }

  /**
   * A node that was never emitted still has a dependent that was never
   * emitted: the loop stops only when nothing else could be freed.
   */
  lemma KahnBlocked(g: ResourceGraph, done: seq<string>, a: string)
    requires Symmetric(g) && DependentsAreNodes(g) && g.nodes.Keys == Elems(g.order)
    requires KahnRun(g, done) && a in g.nodes && a !in done
    ensures exists b :: b in g.nodes[a].dependents && b !in done
  {
    var ds := g.nodes[a].dependents;
    if forall k :: 0 <= k < |ds| ==> ds[k] in done {
      FreeIsEmitted(g, done, a);
    }
    var k :| 0 <= k < |ds| && ds[k] !in done;
  }

  /** Never-emitted dependents can be followed from a never-emitted node for as long as one likes. */
  lemma {:induction false} BlockedChain(g: ResourceGraph, done: seq<string>, a: string, n: nat) returns (p: seq<string>)
    requires Symmetric(g) && DependentsAreNodes(g) && g.nodes.Keys == Elems(g.order) && KahnRun(g, done)
    requires a in g.nodes && a !in done && n >= 1
    ensures |p| == n && p[0] == a && DependentChain(g, p)
    decreases n
  {
    if n == 1 {
      p := [a];
    } else {
      KahnBlocked(g, done, a);
      var b :| b in g.nodes[a].dependents && b !in done;
      var rest := BlockedChain(g, done, b, n - 1);
      p := [a] + rest;
      forall k | 0 <= k < |p| - 1
        ensures p[k + 1] in g.nodes[p[k]].dependents
      {
        if k > 0 {
          assert p[k] == rest[k - 1] && p[k + 1] == rest[k];
        }
      }
    }
  }

  /** On an acyclic graph the loop emits every node. */
  lemma KahnComplete(g: ResourceGraph, done: seq<string>)
    requires Symmetric(g) && DependentsAreNodes(g) && Distinct(g.order) && g.nodes.Keys == Elems(g.order)
    requires KahnRun(g, done) && Acyclic(g)
    ensures forall a :: a in g.nodes ==> a in done
  {
    forall a | a in g.nodes
      ensures a in done
    {
      if a !in done {
        var p := BlockedChain(g, done, a, |g.order| + 1);
        DistinctCard(g.order);
        Pigeonhole(p, g.nodes.Keys);
      }
    }
  }

  /** Kahn's order puts every resource before all of its dependencies. */
  lemma KahnOrder(g: ResourceGraph, done: seq<string>)
    requires Symmetric(g) && KahnRun(g, done) && Distinct(done)
    ensures forall k :: 0 <= k < |done| ==> done[k] in g.nodes
    ensures forall i, j :: 0 <= i < j < |done| ==> done[i] !in g.nodes[done[j]].dependencies
  {
    KahnDependentsFirst(g, done);
  }

  lemma {:induction false} UnprocessedSpec(os: seq<string>, done: seq<string>)
    ensures forall a :: a in Unprocessed(os, done) <==> a in os && a !in done
    ensures Distinct(os) ==> Distinct(Unprocessed(os, done))
  {
    if os != [] {
      var init := os[..|os| - 1];
      UnprocessedSpec(init, done);
      assert os == init + [os[|os| - 1]];
    }
  }

  /** The ARNs of the resources of some nodes are those nodes. */
  lemma ArnsOfResources(g: ResourceGraph, arns: seq<string>)
    requires KeyedByArn(g) && forall k :: 0 <= k < |arns| ==> arns[k] in g.nodes
    ensures Arns(ResourcesOf(g, arns)) == arns
  {
  }

  /**
   * The emitted nodes followed by the leftovers name every node exactly
   * once, and on an acyclic graph nothing is left over.
   */
  lemma EveryNodeOnce(g: ResourceGraph, done: seq<string>)
    requires Distinct(g.order) && g.nodes.Keys == Elems(g.order)
    requires Distinct(done) && forall k :: 0 <= k < |done| ==> done[k] in g.nodes
    ensures Distinct(done + Unprocessed(g.order, done))
    ensures multiset(done + Unprocessed(g.order, done)) == multiset(g.order)
  {
    var rest := Unprocessed(g.order, done);
    UnprocessedSpec(g.order, done);
    DistinctConcat(done, rest);
    assert Elems(done + rest) == Elems(g.order);
    SameElemsPermutation(done + rest, g.order);
  }

  /**
   * What the output of a run followed by the leftovers amounts to: every
   * node once, and on an acyclic graph no leftovers and no resource after
   * one of its dependencies.
   */
  lemma KahnOutput(g: ResourceGraph, done: seq<string>)
    requires Symmetric(g) && DependentsAreNodes(g) && KeyedByArn(g)
    requires Distinct(g.order) && g.nodes.Keys == Elems(g.order)
    requires KahnRun(g, done) && Distinct(done)
    ensures forall k :: 0 <= k < |done| ==> done[k] in g.nodes
    ensures Arns(ResourcesOf(g, done + Unprocessed(g.order, done))) == done + Unprocessed(g.order, done)
    ensures Distinct(done + Unprocessed(g.order, done))
    ensures multiset(done + Unprocessed(g.order, done)) == multiset(g.order)
    ensures Acyclic(g) ==> Unprocessed(g.order, done) == []
    ensures Acyclic(g) ==> forall i, j :: 0 <= i < j < |done| ==> done[i] !in g.nodes[done[j]].dependencies
  {
    KahnOrder(g, done);
    UnprocessedSpec(g.order, done);
    ArnsOfResources(g, done + Unprocessed(g.order, done));
    EveryNodeOnce(g, done);
    if Acyclic(g) {
      NothingLeftOver(g, done);
    }
  }

  /** On an acyclic graph the run leaves no node unprocessed. */
  lemma NothingLeftOver(g: ResourceGraph, done: seq<string>)
    requires Symmetric(g) && DependentsAreNodes(g) && Distinct(g.order) && g.nodes.Keys == Elems(g.order)
    requires KahnRun(g, done) && Acyclic(g)
    ensures Unprocessed(g.order, done) == []
  {
    KahnComplete(g, done);
    forall k | 0 <= k < |g.order|
      ensures g.order[k] in done
    {
      assert g.order[k] in g.nodes;
    }
    UnprocessedNone(g.order, done);
  }

  // ---------------------------------------------------------------------------
  // The algorithm

  /** The first loop: every node's in-degree, and the queue of nodes without dependents. */
  method InitialInDegrees(g: ResourceGraph) returns (inDegree: map<string, int>, queue: seq<string>)
    requires g.nodes.Keys == Elems(g.order)
    ensures inDegree.Keys == g.nodes.Keys
    ensures forall a :: a in g.nodes ==> inDegree[a] == Pending(g, a, [])
    ensures queue == Zero(g, g.order)
  {
    inDegree := map[];
    queue := [];
    for i := 0 to |g.order|
      invariant inDegree.Keys == Elems(g.order[..i])
      invariant forall a :: a in inDegree ==> a in g.nodes && inDegree[a] == |g.nodes[a].dependents|
      invariant queue == Zero(g, g.order[..i])
    {
      var a := g.order[i];
      assert g.order[..i + 1] == g.order[..i] + [a];
      var count := |g.nodes[a].dependents|;
      inDegree := inDegree[a := count];
      if count == 0 {
        queue := queue + [a];
      }
    }
    assert g.order[..|g.order|] == g.order;
    forall a | a in g.nodes
      ensures inDegree[a] == Pending(g, a, [])
    {
      RemainingNone(g.nodes[a].dependents);
    }
  }

  /** The inner loop run over ds: the in-degrees after the decrements, and the nodes it queued. */
  ghost function Released(g: ResourceGraph, inDegree0: map<string, int>, ds: seq<string>): (map<string, int>, seq<string>)
  {
    if ds == [] then (inDegree0, [])
    else
      var (inDegree, queued) := Released(g, inDegree0, ds[..|ds| - 1]);
      var b := ds[|ds| - 1];
      if b in g.nodes && b in inDegree then
        var count := inDegree[b] - 1;
        (inDegree[b := count], if count == 0 then queued + [b] else queued)
      else (inDegree, queued)
  }

  /**
   * When the in-degrees count x as pending for each dependency of x, running
   * the inner loop over a prefix of those dependencies leaves the in-degrees
   * counting what is still pending...
   */
  lemma {:induction false} ReleasedCounts(g: ResourceGraph, inDegree0: map<string, int>, done: seq<string>, x: string, t: nat)
    requires x in g.nodes && Distinct(g.nodes[x].dependencies) && t <= |g.nodes[x].dependencies|
    requires inDegree0.Keys == g.nodes.Keys
    requires forall a :: a in g.nodes ==>
      inDegree0[a] == Pending(g, a, done) + (if a in g.nodes[x].dependencies then 1 else 0)
    ensures Released(g, inDegree0, g.nodes[x].dependencies[..t]).0.Keys == g.nodes.Keys
    ensures forall a :: a in g.nodes ==>
      Released(g, inDegree0, g.nodes[x].dependencies[..t]).0[a]
        == Pending(g, a, done) + (if a in g.nodes[x].dependencies[t..] then 1 else 0)
  {
    var deps := g.nodes[x].dependencies;
    if t == 0 {
      assert deps[..0] == [] && deps[0..] == deps;
    } else {
      ReleasedCounts(g, inDegree0, done, x, t - 1);
      var b := deps[t - 1];
      assert deps[..t][..t - 1] == deps[..t - 1];
      assert deps[t - 1..] == [b] + deps[t..];
      assert b !in deps[t..];
    }
  }

  /** ... and queues exactly the dependencies it freed, in their order. */
  lemma {:induction false} ReleasedQueue(g: ResourceGraph, inDegree0: map<string, int>, done: seq<string>, x: string, t: nat)
    requires x in g.nodes && Distinct(g.nodes[x].dependencies) && t <= |g.nodes[x].dependencies|
    requires inDegree0.Keys == g.nodes.Keys
    requires forall a :: a in g.nodes ==>
      inDegree0[a] == Pending(g, a, done) + (if a in g.nodes[x].dependencies then 1 else 0)
    ensures Released(g, inDegree0, g.nodes[x].dependencies[..t]).1 == Freed(g, done, g.nodes[x].dependencies[..t])
  {
    var deps := g.nodes[x].dependencies;
    if t == 0 {
      assert deps[..0] == [];
    } else {
      ReleasedQueue(g, inDegree0, done, x, t - 1);
      ReleasedCounts(g, inDegree0, done, x, t - 1);
      var ds, b := deps[..t], deps[t - 1];
      assert ds[..|ds| - 1] == deps[..t - 1] && ds[|ds| - 1] == b;
      assert b in deps[t - 1..];
      var (inDegree, queued) := Released(g, inDegree0, deps[..t - 1]);
      assert b in g.nodes ==> inDegree[b] == Pending(g, b, done) + 1;
    }
  }

  /**
   * The inner loop: x has just been emitted; each of its dependencies loses
   * one pending dependent and joins the queue when it has none left.
   */
  method Release(g: ResourceGraph, inDegree0: map<string, int>, queue0: seq<string>, ghost done: seq<string>, x: string)
    returns (inDegree: map<string, int>, queue: seq<string>)
    requires x in g.nodes && Distinct(g.nodes[x].dependencies)
    requires inDegree0.Keys == g.nodes.Keys
    requires forall a :: a in g.nodes ==>
      inDegree0[a] == Pending(g, a, done) + (if a in g.nodes[x].dependencies then 1 else 0)
    ensures inDegree.Keys == g.nodes.Keys
    ensures forall a :: a in g.nodes ==> inDegree[a] == Pending(g, a, done)
    ensures queue == queue0 + Freed(g, done, g.nodes[x].dependencies)
  {
    var deps := g.nodes[x].dependencies;
    inDegree := inDegree0;
    queue := queue0;
    for t := 0 to |deps|
      invariant inDegree == Released(g, inDegree0, deps[..t]).0
      invariant queue == queue0 + Released(g, inDegree0, deps[..t]).1
      invariant inDegree.Keys == g.nodes.Keys
    {
      var b := deps[t];
      assert deps[..t + 1][..t] == deps[..t];
      if b in g.nodes {
        var count := inDegree[b] - 1;
        inDegree := inDegree[b := count];
        if count == 0 {
          queue := queue + [b];
        }
      }
    }
    assert deps[..|deps|] == deps;
    ReleasedCounts(g, inDegree0, done, x, |deps|);
    ReleasedQueue(g, inDegree0, done, x, |deps|);
    assert deps[|deps|..] == [];
  }

  /** Emitting x counts x off the pending dependents of exactly its dependencies. */
  lemma PendingStep(g: ResourceGraph, done: seq<string>, x: string)
    requires Symmetric(g) && forall a :: a in g.nodes ==> Distinct(g.nodes[a].dependents)
    requires x in g.nodes && x !in done
    ensures forall a :: a in g.nodes ==>
      Pending(g, a, done) == Pending(g, a, done + [x]) + (if a in g.nodes[x].dependencies then 1 else 0)
  {
    forall a | a in g.nodes
      ensures Pending(g, a, done) == Pending(g, a, done + [x]) + (if a in g.nodes[x].dependencies then 1 else 0)
    {
      RemainingStep(g.nodes[a].dependents, done, x);
    }
  }

  /** Emitting the head x of the queue and queueing what it frees extends the schedule. */
  lemma ScheduleStep(g: ResourceGraph, done: seq<string>, queue: seq<string>)
    requires done + queue == Schedule(g, done) && Ahead(g, done) && queue != [] && queue[0] in g.nodes
    ensures
      var done' := done + [queue[0]];
      var queue' := queue[1..] + Freed(g, done', g.nodes[queue[0]].dependencies);
      done' + queue' == Schedule(g, done') && Ahead(g, done')
  {
    var x := queue[0];
    var done' := done + [x];
    assert done' + (queue[1..] + Freed(g, done', g.nodes[x].dependencies))
      == (done + queue) + Freed(g, done', g.nodes[x].dependencies);
    ScheduleSnoc(g, done, x);
    AheadStep(g, done, x);
  }

  /** The nodes x frees were not queued before: x was still pending for each of them. */
  lemma FreedAreNew(g: ResourceGraph, done: seq<string>, queue: seq<string>, x: string)
    requires x in g.nodes
    requires forall a :: a in g.nodes ==> (a in done + queue <==> Pending(g, a, done) == 0)
    requires forall a :: a in g.nodes ==>
      Pending(g, a, done) == Pending(g, a, done + [x]) + (if a in g.nodes[x].dependencies then 1 else 0)
    ensures forall b :: b in Freed(g, done + [x], g.nodes[x].dependencies) ==> b !in done + queue
    ensures forall a :: a in g.nodes ==>
      (a in done + queue + Freed(g, done + [x], g.nodes[x].dependencies) <==> Pending(g, a, done + [x]) == 0)
  {
    FreedSpec(g, done + [x], g.nodes[x].dependencies);
  }

  /** The members of os not in done are all gone once everything in os is in done. */
  lemma {:induction false} UnprocessedNone(os: seq<string>, done: seq<string>)
    requires forall k :: 0 <= k < |os| ==> os[k] in done
    ensures Unprocessed(os, done) == []
  {
    if os != [] {
      UnprocessedNone(os[..|os| - 1], done);
    }
  }

  /** Every node is stored under its own resource's ARN. */
  ghost predicate KeyedByArn(g: ResourceGraph) {
    forall a :: a in g.nodes ==> g.nodes[a].resource.arn == a
  }

  /** `sorted.map((r) => r.arn)` of the emitted resources is the set of emitted nodes. */
  lemma ProcessedArns(g: ResourceGraph, done: seq<string>)
    requires KeyedByArn(g) && forall k :: 0 <= k < |done| ==> done[k] in g.nodes
    ensures (set r | r in ResourcesOf(g, done) :: r.arn) == Elems(done)
  {
    var sorted := ResourcesOf(g, done);
    forall a | a in done
      ensures a in (set r | r in sorted :: r.arn)
    {
      var k :| 0 <= k < |done| && done[k] == a;
      assert sorted[k] in sorted;
    }
  }

  /** When as many nodes were emitted as there are, nothing is left over. */
  lemma AllEmitted(g: ResourceGraph, done: seq<string>)
    requires g.nodes.Keys == Elems(g.order)
    requires Distinct(done) && forall k :: 0 <= k < |done| ==> done[k] in g.nodes
    requires |done| == |g.nodes|
    ensures Unprocessed(g.order, done) == []
  {
    assert |g.nodes.Keys| == |g.nodes|;
    DistinctCovers(done, g.nodes.Keys);
    UnprocessedNone(g.order, done);
  }

  /** The loop of the tail: append the resource of each node of the Map not yet processed. */
  method AppendMissing(g: ResourceGraph, sorted0: seq<Resource>, ghost done: seq<string>, processed: set<string>)
    returns (sorted: seq<Resource>)
    requires g.nodes.Keys == Elems(g.order)
    requires forall k :: 0 <= k < |done| ==> done[k] in g.nodes
    requires sorted0 == ResourcesOf(g, done) && processed == Elems(done)
    ensures forall k :: 0 <= k < |done + Unprocessed(g.order, done)| ==> (done + Unprocessed(g.order, done))[k] in g.nodes
    ensures sorted == ResourcesOf(g, done + Unprocessed(g.order, done))
  {
    sorted := sorted0;
    assert done + Unprocessed(g.order[..0], done) == done;
    for i := 0 to |g.order|
      invariant forall k :: 0 <= k < |done + Unprocessed(g.order[..i], done)| ==> (done + Unprocessed(g.order[..i], done))[k] in g.nodes
      invariant sorted == ResourcesOf(g, done + Unprocessed(g.order[..i], done))
    {
      var a := g.order[i];
      assert g.order[..i + 1] == g.order[..i] + [a];
      assert a in g.nodes;
      if a !in processed {
        assert done + Unprocessed(g.order[..i + 1], done) == (done + Unprocessed(g.order[..i], done)) + [a];
        ResourcesOfSnoc(g, done + Unprocessed(g.order[..i], done), a);
        sorted := sorted + [g.nodes[a].resource];
      } else {
        assert Unprocessed(g.order[..i + 1], done) == Unprocessed(g.order[..i], done);
      }
    }
    assert g.order[..|g.order|] == g.order;
  }

  /**
   * The tail of topologicalSort: when fewer resources were emitted than there
   * are nodes, every node whose ARN was not emitted is appended, in the Map's
   * order.
   */
  method AppendUnprocessed(g: ResourceGraph, sorted0: seq<Resource>, ghost done: seq<string>) returns (sorted: seq<Resource>)
    requires g.nodes.Keys == Elems(g.order) && KeyedByArn(g)
    requires Distinct(done) && forall k :: 0 <= k < |done| ==> done[k] in g.nodes
    requires sorted0 == ResourcesOf(g, done)
    ensures forall k :: 0 <= k < |done + Unprocessed(g.order, done)| ==> (done + Unprocessed(g.order, done))[k] in g.nodes
    ensures sorted == ResourcesOf(g, done + Unprocessed(g.order, done))
  {
    sorted := sorted0;
    if |sorted| != |g.nodes| {
      var processed := set r | r in sorted :: r.arn;
      ProcessedArns(g, done);
      sorted := AppendMissing(g, sorted, done, processed);
    } else {
      AllEmitted(g, done);
      assert done + [] == done;
    }
  }

  /** The head of the queue has not been emitted yet. */
  lemma HeadNotDone(done: seq<string>, queue: seq<string>)
    requires Distinct(done + queue) && queue != []
    ensures queue[0] !in done
  {
    forall i | 0 <= i < |done|
      ensures done[i] != queue[0]
    {
      assert done[i] == (done + queue)[i] && queue[0] == (done + queue)[|done|];
    }
  }

  /** Every node's two Sets hold no repeats. */
  ghost predicate DistinctSets(g: ResourceGraph) {
    forall a :: a in g.nodes ==> Distinct(g.nodes[a].dependents) && Distinct(g.nodes[a].dependencies)
  }

  /** What the while loop keeps true of the emitted nodes, the queue and the in-degrees. */
  ghost predicate LoopInvariant(g: ResourceGraph, done: seq<string>, queue: seq<string>) {
    && done + queue == Schedule(g, done)
    && Ahead(g, done)
    && Distinct(done + queue)
    && (forall k :: 0 <= k < |done + queue| ==> (done + queue)[k] in g.nodes)
    && (forall a :: a in g.nodes ==> (a in done + queue <==> Pending(g, a, done) == 0))
  }

  /**
   * One round of the while loop: the head x of the queue is emitted, the
   * in-degrees then owe one to exactly the dependencies of x, and queueing
   * what x frees restores the invariant.
   */
  lemma KahnStep(g: ResourceGraph, done: seq<string>, queue: seq<string>)
    requires Symmetric(g) && DistinctSets(g)
    requires LoopInvariant(g, done, queue) && queue != []
    ensures queue[0] in g.nodes && queue[0] !in done
    ensures forall a :: a in g.nodes ==>
      Pending(g, a, done) == Pending(g, a, done + [queue[0]]) + (if a in g.nodes[queue[0]].dependencies then 1 else 0)
    ensures LoopInvariant(g, done + [queue[0]], queue[1..] + Freed(g, done + [queue[0]], g.nodes[queue[0]].dependencies))
  {
    var x := queue[0];
    HeadNotDone(done, queue);
    assert (done + queue)[|done|] == x;
    var deps := g.nodes[x].dependencies;
    PendingStep(g, done, x);
    ScheduleStep(g, done, queue);
    FreedAreNew(g, done, queue, x);
    FreedSpec(g, done + [x], deps);
    var freed := Freed(g, done + [x], deps);
    DistinctConcat(done + queue, freed);
    var done', queue' := done + [x], queue[1..] + freed;
    assert done' + queue' == (done + queue) + freed;
    AllNodes(g, done + queue, freed);
  }

  /** Two sequences of nodes make one sequence of nodes. */
  lemma AllNodes(g: ResourceGraph, a: seq<string>, b: seq<string>)
    requires forall k :: 0 <= k < |a| ==> a[k] in g.nodes
    requires forall y :: y in b ==> y in g.nodes
    ensures forall k :: 0 <= k < |a + b| ==> (a + b)[k] in g.nodes
  {
    forall k | 0 <= k < |a + b|
      ensures (a + b)[k] in g.nodes
    {
      if k >= |a| {
        assert (a + b)[k] == b[k - |a|];
      } else {
        assert (a + b)[k] == a[k];
      }
    }
  }

  /** The in-degrees count the pending dependents of every node. */
  ghost predicate Counted(g: ResourceGraph, inDegree: map<string, int>, done: seq<string>) {
    && inDegree.Keys == g.nodes.Keys
    && (forall a :: a in g.nodes ==> inDegree[a] == Pending(g, a, done))
  }

  /** Before the while loop the queue holds the nodes without dependents. */
  lemma InitialInvariant(g: ResourceGraph)
    requires WellFormed(g)
    ensures LoopInvariant(g, [], Zero(g, g.order))
  {
    var queue := Zero(g, g.order);
    ZeroSpec(g, g.order);
    assert [] + queue == queue;
    forall a | a in g.nodes
      ensures a in queue <==> Pending(g, a, []) == 0
    {
      RemainingNone(g.nodes[a].dependents);
    }
  }

  /** When the queue runs dry, what was emitted is a run of Kahn's algorithm. */
  lemma Drained(g: ResourceGraph, done: seq<string>)
    requires LoopInvariant(g, done, [])
    ensures KahnRun(g, done) && Distinct(done)
    ensures forall k :: 0 <= k < |done| ==> done[k] in g.nodes
  {
    assert done + [] == done;
  }

  /** Emitting a node not emitted before leaves fewer nodes to emit. */
  lemma Shrinks(nodes: set<string>, done: seq<string>, x: string)
    requires x in nodes && x !in done
    ensures nodes - Elems(done + [x]) < nodes - Elems(done)
  {
    assert x in nodes - Elems(done);
  }

  /** The while loop: emit the head of the queue until the queue is empty. */
  method Drain(g: ResourceGraph, inDegree0: map<string, int>, queue0: seq<string>)
    returns (sorted: seq<Resource>, ghost done: seq<string>)
    requires Symmetric(g) && DistinctSets(g)
    requires LoopInvariant(g, [], queue0) && Counted(g, inDegree0, [])
    ensures KahnRun(g, done) && Distinct(done)
    ensures forall k :: 0 <= k < |done| ==> done[k] in g.nodes
    ensures sorted == ResourcesOf(g, done)
  {
    var inDegree, queue := inDegree0, queue0;
    sorted := [];
    done := [];
    while queue != []
      invariant LoopInvariant(g, done, queue) && Counted(g, inDegree, done)
      invariant forall k :: 0 <= k < |done| ==> done[k] in g.nodes
      invariant sorted == ResourcesOf(g, done)
      decreases g.nodes.Keys - Elems(done)
    {
      var x := queue[0];
      KahnStep(g, done, queue);
      queue := queue[1..];
      var node := g.nodes[x];
      ResourcesOfSnoc(g, done, x);
      sorted := sorted + [node.resource];
      Shrinks(g.nodes.Keys, done, x);
      done := done + [x];
      inDegree, queue := Release(g, inDegree, queue, done, x);
    }
    Drained(g, done);
  }

  /**
   * topologicalSort: the resources in the order Kahn's algorithm emits them,
   * followed by those of the nodes it never freed, in the Map's order.
   */
  method TopologicalSort(g: ResourceGraph) returns (sorted: seq<Resource>, ghost done: seq<string>)
    requires WellFormed(g) && Symmetric(g)
    ensures KahnRun(g, done) && Distinct(done)
    ensures forall k :: 0 <= k < |done| ==> done[k] in g.nodes
    ensures forall k :: 0 <= k < |done + Unprocessed(g.order, done)| ==> (done + Unprocessed(g.order, done))[k] in g.nodes
    ensures sorted == ResourcesOf(g, done + Unprocessed(g.order, done))
    ensures Arns(sorted) == done + Unprocessed(g.order, done)
    ensures Distinct(Arns(sorted)) && multiset(Arns(sorted)) == multiset(g.order)
    ensures Acyclic(g) ==> Arns(sorted) == done
    ensures Acyclic(g) ==> forall i, j :: 0 <= i < j < |sorted| ==> sorted[i].arn !in g.nodes[sorted[j].arn].dependencies
  {
    var inDegree, queue := InitialInDegrees(g);
    InitialInvariant(g);
    assert DistinctSets(g) && KeyedByArn(g) && DependentsAreNodes(g);
    sorted, done := Drain(g, inDegree, queue);
    sorted := AppendUnprocessed(g, sorted, done);
    KahnOutput(g, done);
  }
}
