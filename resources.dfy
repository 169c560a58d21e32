/** The shapes of packages/shared/src/types/cli/resources.ts that the deletion planner uses. */
module Resources {
  import opened Seqs

  /** IResource: one discovered cloud resource; `arn` is its global identity. */
  datatype Resource = Resource(
    arn: string,
    service: string,
    region: string,
    resourceId: string,
    resourceType: string)

  /**
   * IResourceNode. Its two JavaScript Sets iterate in insertion order, so they
   * are kept as duplicate-free sequences in that order.
   */
  datatype ResourceNode = ResourceNode(
    resource: Resource,
    dependencies: seq<string>,  // ARNs this resource depends on
    dependents: seq<string>)    // ARNs that depend on this resource

  /**
   * IResourceGraph. `order` is the insertion order of the `nodes` Map, the
   * order in which iterating over the Map visits its entries.
   */
  datatype ResourceGraph = ResourceGraph(
    nodes: map<string, ResourceNode>,
    edges: map<string, seq<string>>,
    order: seq<string>)

  function Arns(rs: seq<Resource>): (arns: seq<string>)
    ensures |arns| == |rs|
    ensures forall k :: 0 <= k < |rs| ==> arns[k] == rs[k].arn
  {
    seq(|rs|, k requires 0 <= k < |rs| => rs[k].arn)
  }

  /** No two resources share an ARN. */
  ghost predicate DistinctArns(rs: seq<Resource>) {
    forall i, j :: 0 <= i < j < |rs| ==> rs[i].arn != rs[j].arn
  }
}
