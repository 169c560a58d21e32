/**
 * Dependency inference (findResourceDependencies in
 * packages/shared/src/utils/cli/graph.ts): a per-service dispatch that names
 * the resources a resource depends on, guessed from naming conventions.
 * "A depends on B" means that B must outlive A: A is removed first.
 */
module Dependencies {
  import opened Wrappers
  import opened Text
  import opened Patterns
  import opened Resources
  import opened Seqs

  predicate IsLambdaFunction(r: Resource) {
    r.service == "lambda" && r.resourceType == "function"
  }

  /**
   * `functionMap.get(name)`. The map is filled by walking the resources in
   * order and `set` overwrites, so of several functions with the same id the
   * last one is found.
   */
  function FunctionNamed(all: seq<Resource>, name: string): (f: Option<Resource>)
    ensures f.None? <==> forall k :: 0 <= k < |all| ==> !(IsLambdaFunction(all[k]) && all[k].resourceId == name)
    ensures f.Some? ==> exists k :: (0 <= k < |all| && all[k] == f.value
      && IsLambdaFunction(all[k]) && all[k].resourceId == name
      && forall k' :: k < k' < |all| ==> !(IsLambdaFunction(all[k']) && all[k'].resourceId == name))
  {
    if all == [] then None
    else
      var last := all[|all| - 1];
      if IsLambdaFunction(last) && last.resourceId == name then Some(last)
      else FunctionNamed(all[..|all| - 1], name)
  }

  /** Array.prototype.find: the first resource that satisfies p. */
  function FindFirst(all: seq<Resource>, p: Resource -> bool): (f: Option<Resource>)
    ensures f.None? <==> forall k :: 0 <= k < |all| ==> !p(all[k])
    ensures f.Some? ==> exists k :: (0 <= k < |all| && all[k] == f.value && p(all[k])
      && forall k' :: 0 <= k' < k ==> !p(all[k']))
  {
    if all == [] then None
    else if p(all[0]) then Some(all[0])
    else
      var f := FindFirst(all[1..], p);
      assert f.Some? ==> exists k :: (0 <= k < |all[1..]| && all[1..][k] == f.value && p(all[1..][k])
        && forall k' :: 0 <= k' < k ==> !p(all[1..][k']));
      f
  }

  function ArnOf(f: Option<Resource>): seq<string> {
    if f.Some? then [f.value.arn] else []
  }

  const LambdaLogPrefix: string := "/aws/lambda/"

  /** The function an event source mapping is attached to: the id up to its first ':'. */
  function MappingFunctionName(mappingId: string): string {
    Split(mappingId, ':')[0]
  }

  /** The function a log group belongs to: the first '/'-segment after the lambda log prefix. */
  function LogGroupFunctionName(logGroupId: string): string {
    Split(ReplaceFirst(logGroupId, LambdaLogPrefix, ""), '/')[0]
  }

  predicate IsRdsClusterNamed(name: string, x: Resource) {
    x.service == "rds" && x.resourceType == "cluster" && x.resourceId == name
  }

  predicate IsReplicationGroupFor(clusterId: string, x: Resource) {
    x.service == "elasticache" && x.resourceType == "replication-group" && Contains(x.resourceId, clusterId)
  }

  /** The kinds of resource for which some inference rule exists. */
  predicate HasInferenceRule(r: Resource) {
    || (r.service == "lambda" && r.resourceType == "event-source-mapping")
    || (r.service == "events" && r.resourceType == "rule")
    || (r.service == "logs" && r.resourceType == "log-group")
    || (r.service == "rds" && r.resourceType == "db")
    || (r.service == "elasticache" && r.resourceType == "cluster")
    || (r.service == "iam" && r.resourceType == "role")
  }

  /**
   * findResourceDependencies: the ARNs `r` depends on, each the ARN of a
   * resource in `all`. At most one is ever found; network resources, API
   * gateways, buckets, tables, queues and namespaces get none.
   */
  function FindResourceDependencies(r: Resource, all: seq<Resource>): (deps: seq<string>)
    ensures |deps| <= 1
    ensures forall d :: d in deps ==> exists x :: (x in all && x.arn == d
      && (x.service != r.service || x.resourceType != r.resourceType))
    ensures deps != [] ==> HasInferenceRule(r)
  {
    if r.service == "lambda" then
      if r.resourceType == "event-source-mapping" then
        ArnOf(FunctionNamed(all, MappingFunctionName(r.resourceId)))
      else []
    else if r.service == "events" then
      if r.resourceType == "rule" then
        match CapitalizedCapture(r.resourceId, RuleAlternatives)
        case None => []
        case Some(name) =>
          var exact := FunctionNamed(all, name);
          if exact.None? && Contains(r.resourceId, "-dev-") then
            ArnOf(FunctionNamed(all, "insights-dev-" + name))
          else ArnOf(exact)
      else []
    else if r.service == "logs" then
      if r.resourceType == "log-group" && StartsWith(r.resourceId, LambdaLogPrefix) then
        ArnOf(FunctionNamed(all, LogGroupFunctionName(r.resourceId)))
      else []
    else if r.service == "rds" then
      if r.resourceType == "db" then
        match StripNumericSuffix(r.resourceId)
        case None => []
        case Some(clusterName) => ArnOf(FindFirst(all, x => IsRdsClusterNamed(clusterName, x)))
      else []
    else if r.service == "elasticache" then
      if r.resourceType == "cluster" then
        ArnOf(FindFirst(all, x => IsReplicationGroupFor(r.resourceId, x)))
      else []
    else if r.service == "iam" then
      if r.resourceType == "role" then
        match CapitalizedCapture(r.resourceId, RoleAlternatives)
        case None => []
        case Some(name) => ArnOf(FunctionNamed(all, name))
      else []
    else
      []
  }

  /** There is a lambda function with this id among the resources. */
  ghost predicate HasFunctionNamed(all: seq<Resource>, name: string) {
    exists f :: f in all && IsLambdaFunction(f) && f.resourceId == name
  }

  /** The dependency found is the ARN of some lambda function with this id. */
  ghost predicate IsFunctionArn(all: seq<Resource>, name: string, deps: seq<string>) {
    exists f :: f in all && IsLambdaFunction(f) && f.resourceId == name && deps == [f.arn]
  }

  /**
   * An event source mapping depends on the function named by its id up to the
   * first ':' (the whole id when there is none), when that function is known.
   */
  lemma MappingRule(r: Resource, all: seq<Resource>)
    requires r.service == "lambda" && r.resourceType == "event-source-mapping"
    ensures var name := MappingFunctionName(r.resourceId);
      && name <= r.resourceId && ':' !in name
      && (|name| < |r.resourceId| ==> r.resourceId[|name|] == ':')
      && (FindResourceDependencies(r, all) != [] <==> HasFunctionNamed(all, name))
      && (HasFunctionNamed(all, name) ==> IsFunctionArn(all, name, FindResourceDependencies(r, all)))
  {
    FirstPiece(r.resourceId, ':');
  }

  /**
   * A mapping with id "name:rest" (the shape of "myFunc:abc-123") listed
   * after the function "name" depends on that function.
   */
  lemma MappingScenario(mapping: Resource, fn: Resource, name: string, rest: string)
    requires mapping.service == "lambda" && mapping.resourceType == "event-source-mapping"
    requires ':' !in name && mapping.resourceId == name + [':'] + rest
    requires IsLambdaFunction(fn) && fn.resourceId == name
    ensures FindResourceDependencies(mapping, [fn, mapping]) == [fn.arn]
  {
    PrefixBeforeSeparator(mapping.resourceId, name, ':');
    assert !IsLambdaFunction(mapping);
    assert [fn, mapping][..1] == [fn];
    assert FunctionNamed([fn, mapping], name) == Some(fn);
  }

  /**
   * A log group under /aws/lambda/ depends on the function named by the first
   * '/'-segment after the prefix; any other log group depends on nothing.
   */
  lemma LogGroupRule(r: Resource, all: seq<Resource>)
    requires r.service == "logs" && r.resourceType == "log-group"
    ensures !StartsWith(r.resourceId, LambdaLogPrefix) ==> FindResourceDependencies(r, all) == []
    ensures StartsWith(r.resourceId, LambdaLogPrefix) ==>
      var name := LogGroupFunctionName(r.resourceId);
      && name == Split(r.resourceId[|LambdaLogPrefix|..], '/')[0]
      && (FindResourceDependencies(r, all) != [] <==> HasFunctionNamed(all, name))
      && (HasFunctionNamed(all, name) ==> IsFunctionArn(all, name, FindResourceDependencies(r, all)))
  {
    if StartsWith(r.resourceId, LambdaLogPrefix) {
      ReplaceLeadingPrefix(r.resourceId, LambdaLogPrefix);
    }
  }

  /**
   * A role whose name contains CapitalizedWord + (Role|role) depends on the
   * function whose id is exactly the captured word.
   */
  lemma RoleRule(r: Resource, all: seq<Resource>)
    requires r.service == "iam" && r.resourceType == "role"
    ensures CapitalizedCapture(r.resourceId, RoleAlternatives).None? ==> FindResourceDependencies(r, all) == []
    ensures CapitalizedCapture(r.resourceId, RoleAlternatives).Some? ==>
      var name := CapitalizedCapture(r.resourceId, RoleAlternatives).value;
      && (FindResourceDependencies(r, all) != [] <==> HasFunctionNamed(all, name))
      && (HasFunctionNamed(all, name) ==> IsFunctionArn(all, name, FindResourceDependencies(r, all)))
  {
  }

  /** The role "ProcessOrdersRole" depends on the function "ProcessOrders". */
  lemma RoleScenario(role: Resource, fn: Resource)
    requires role.service == "iam" && role.resourceType == "role" && role.resourceId == "ProcessOrdersRole"
    requires IsLambdaFunction(fn) && fn.resourceId == "ProcessOrders"
    ensures FindResourceDependencies(role, [fn, role]) == [fn.arn]
  {
    RoleNameCapture();
    assert [fn, role][..1] == [fn];
    assert FunctionNamed([fn, role], "ProcessOrders") == Some(fn);
  }

  /**
   * An event rule looks its captured word up as a function id; only when that
   * fails and the rule name contains "-dev-" does it try "insights-dev-" + word.
   */
  lemma EventRuleRule(r: Resource, all: seq<Resource>)
    requires r.service == "events" && r.resourceType == "rule"
    ensures CapitalizedCapture(r.resourceId, RuleAlternatives).None? ==> FindResourceDependencies(r, all) == []
    ensures CapitalizedCapture(r.resourceId, RuleAlternatives).Some? ==>
      var name := CapitalizedCapture(r.resourceId, RuleAlternatives).value;
      var staged := "insights-dev-" + name;
      && (HasFunctionNamed(all, name) ==> IsFunctionArn(all, name, FindResourceDependencies(r, all)))
      && (!HasFunctionNamed(all, name) && Contains(r.resourceId, "-dev-") ==>
            (FindResourceDependencies(r, all) != [] <==> HasFunctionNamed(all, staged))
            && (HasFunctionNamed(all, staged) ==> IsFunctionArn(all, staged, FindResourceDependencies(r, all))))
      && (!HasFunctionNamed(all, name) && !Contains(r.resourceId, "-dev-") ==> FindResourceDependencies(r, all) == [])
  {
  }

  /**
   * An RDS instance depends on the first RDS cluster whose id is the instance id
   * with one trailing "-<digits>" removed (the id itself when it has none).
   */
  lemma RdsRule(r: Resource, all: seq<Resource>)
    requires r.service == "rds" && r.resourceType == "db"
    ensures StripNumericSuffix(r.resourceId).None? ==> FindResourceDependencies(r, all) == []
    ensures StripNumericSuffix(r.resourceId).Some? ==>
      var name := StripNumericSuffix(r.resourceId).value;
      && (FindResourceDependencies(r, all) != [] <==> exists k :: 0 <= k < |all| && IsRdsClusterNamed(name, all[k]))
      && forall k :: 0 <= k < |all| && IsRdsClusterNamed(name, all[k])
           && (forall k' :: 0 <= k' < k ==> !IsRdsClusterNamed(name, all[k']))
           ==> FindResourceDependencies(r, all) == [all[k].arn]
  {
    if StripNumericSuffix(r.resourceId).Some? {
      var name := StripNumericSuffix(r.resourceId).value;
      var f := FindFirst(all, x => IsRdsClusterNamed(name, x));
      forall k | 0 <= k < |all| && IsRdsClusterNamed(name, all[k])
           && (forall k' :: 0 <= k' < k ==> !IsRdsClusterNamed(name, all[k']))
        ensures FindResourceDependencies(r, all) == [all[k].arn]
      {
        var j :| 0 <= j < |all| && all[j] == f.value && IsRdsClusterNamed(name, all[j])
          && forall k' :: 0 <= k' < j ==> !IsRdsClusterNamed(name, all[k']);
        assert j == k;
      }
    }
  }

  /**
   * An ElastiCache cluster depends on the first replication group whose id
   * contains the cluster id.
   */
  lemma ElastiCacheRule(r: Resource, all: seq<Resource>)
    requires r.service == "elasticache" && r.resourceType == "cluster"
    ensures FindResourceDependencies(r, all) != [] <==>
      exists k :: 0 <= k < |all| && IsReplicationGroupFor(r.resourceId, all[k])
    ensures forall k :: (0 <= k < |all| && IsReplicationGroupFor(r.resourceId, all[k])
      && (forall k' :: 0 <= k' < k ==> !IsReplicationGroupFor(r.resourceId, all[k']))
      ==> FindResourceDependencies(r, all) == [all[k].arn])
  {
    var f := FindFirst(all, x => IsReplicationGroupFor(r.resourceId, x));
    forall k | 0 <= k < |all| && IsReplicationGroupFor(r.resourceId, all[k])
      && (forall k' :: 0 <= k' < k ==> !IsReplicationGroupFor(r.resourceId, all[k']))
      ensures FindResourceDependencies(r, all) == [all[k].arn]
    {
      var j :| 0 <= j < |all| && all[j] == f.value && IsReplicationGroupFor(r.resourceId, all[j])
        && forall k' :: 0 <= k' < j ==> !IsReplicationGroupFor(r.resourceId, all[k']);
      assert j == k;
    }
  }

  /** Among resources with distinct ARNs, no resource is found to depend on itself. */
  lemma NoSelfDependency(r: Resource, all: seq<Resource>)
    requires DistinctArns(all) && r in all
    ensures r.arn !in FindResourceDependencies(r, all)
  {
  }
}
