# Dependency-ordered deletion planner, Pulumi type validator and tag scanner

A Dafny model of three parts of the sst-toolkit repository.

**Deletion planner** (`packages/shared/src/utils/cli/graph.ts`). Before the CLI deletes a set of tagged cloud resources, it works out an order to delete them in:

- `findResourceDependencies` guesses, from naming conventions, which resources a resource depends on.
- `buildResourceGraph` records those guesses in a graph whose nodes keep both directions of every edge.
- `topologicalSort` runs Kahn's algorithm on the dependents. A resource nothing depends on any more is emitted first. Resources never freed, such as those on a cycle, are appended in the node map's insertion order.
- `getOptimalDeletionOrder` re-sorts that order stably by a fixed service priority.

**Type validator** (`packages/core/src/adapters/validator.ts`). `validatePulumiType` checks the `sst:namespace:Type` format. `validateComponent` applies its option defaults.

**Tag scanner** (`apps/cli/src/index.ts`). The `resources find` and `resources delete` actions scan argv by hand. They collect `--tag KEY VALUE` pairs and the `--dry-run` and `--force`/`-f` flags.

## Modules

| file | module | what it holds |
|---|---|---|
| `wrappers.dfy` | `Wrappers` | `Option` and `Result` |
| `seqs.dfy` | `Seqs` | duplicate-free sequences, multisets and cardinalities |
| `text.dfy` | `Text` | the JavaScript string operations the core uses |
| `patterns.dfy` | `Patterns` | the three regular expressions, as string functions with backtracking semantics |
| `resources.dfy` | `Resources` | `IResource`, `IResourceNode` and `IResourceGraph` |
| `dependencies.dfy` | `Dependencies` | `findResourceDependencies` and one lemma per inference rule |
| `graph.dfy` | `Graph` | `buildResourceGraph` |
| `topo_sort.dfy` | `TopoSort` | `topologicalSort` |
| `deletion_order.dfy` | `DeletionOrder` | `getOptimalDeletionOrder` and the priority table |
| `validator.dfy` | `Validator` | the validators |
| `cli_args.dfy` | `CliArgs` | the two argv scanning loops and what the actions pass on |

## How the source's behaviour is represented

**JavaScript collections.**
- A JavaScript `Map` iterates in insertion order, so the node map carries its key order as `order`.
- A `Set` becomes a duplicate-free sequence in the order its elements were added. `topologicalSort` queues dependencies in that order, so the order matters.

**Mutable state.** The graph builder and Kahn's algorithm mutate local maps, sets and a FIFO queue. They are modelled as methods whose loops reassign `map` and `seq` variables. Each method is proved against ghost functions that describe the state after `k` steps:
- for the graph: `InitialNodes`, `AddEdges` and `InferredEdges`;
- for the sort: `Schedule`, `Pending` and `Freed`.

The lemmas about those functions carry the properties.

**What a sort run is.** A run of the while loop is characterised by `KahnRun`: each emitted node is the next entry of the queue, and the queue is the initial zero-dependent nodes followed by the nodes freed as each emitted node releases its dependencies. The proofs need no precondition beyond a well-formed, symmetric graph. Cycles are allowed; on them the model proves exactly-once output rather than ordering.

**Priorities.** Every priority is doubled so that `1.5` and `2.5` stay integers; only their order matters. `priorityMap.get(arn) ?? 999` becomes `Key`, with 1998 for a missing ARN.

**The stable sort.** `Array.prototype.sort` with that comparator is modelled by one stable insertion sort, `SortByKey`. `AnyStableSort` proves that any result that is sorted by the key and keeps each key's elements in their original order equals `SortByKey`. So the choice of stable algorithm does not matter.

**Regular expressions.** Each is written out as a string function with JavaScript's matching semantics.
- Capitalised-word patterns: the unanchored search takes the leftmost start. From there the greedy `+` backtracks to the longest group that is still followed by an alternative. So `"ProcessOrdersScheduleRule"` captures `"ProcessOrdersSchedule"`.
- RDS pattern: the lazy group never crosses a line terminator, so the RDS pattern fails on ids that contain one.

**Duplicate ARNs.** These are modelled rather than excluded: a later resource with an ARN already seen replaces the node's resource but keeps the node's place in the key order. `LastWithArn` states this.

**Thrown errors.** A thrown error becomes an `Err` naming the check that failed. `process.exit(1)` after a missing tag becomes `Err(NoTags)`.

**Behaviour of the code worth knowing:**
- An event rule's second lookup prefixes the captured name with the literal `"insights-dev-"` (graph.ts:95). It is tried only when the exact lookup fails and the rule name contains `"-dev-"` (graph.ts:94). No app or stage name is read from anywhere else.
- Lambda resources other than mappings and functions keep the service priority 2. Mappings are overridden to 1.5 and functions to 2.5 (graph.ts:283 and 302-306). So those other lambda resources are deleted after mappings and before functions.
- The node map is keyed by ARN (graph.ts:18-25), so resources sharing an ARN collapse into one node. The plan has one entry per distinct ARN.
- The role rule records the function as a dependency of the role ("Roles depend on functions", graph.ts:196), so the topological order emits the role first. The priority pass then puts the function (2.5) before the role (iam, 7), and `PriorityOverridesEdges` shows this.

## Model

| member | source | states |
|---|---|---|
| Dependencies.FunctionNamed | packages/shared/src/utils/cli/graph.ts:57-65 | `functionMap.get(name)`: none exactly when no lambda function has that id; otherwise a lambda function with that id after which no other has it (the last `set` wins) |
| Dependencies.FindFirst | packages/shared/src/utils/cli/graph.ts:160-162 | `Array.prototype.find`: none exactly when no element satisfies the predicate; otherwise the element at the first index that does |
| Dependencies.FindResourceDependencies | packages/shared/src/utils/cli/graph.ts:50-205 | at most one ARN is inferred; it is the ARN of a resource in the list, of another service or type; nothing is inferred for kinds without a rule |
| Dependencies.MappingRule | packages/shared/src/utils/cli/graph.ts:69-78 | an event source mapping depends on a lambda function whose id is the mapping id up to its first ':' (all of it when there is none), exactly when such a function exists |
| Dependencies.MappingScenario | packages/shared/src/utils/cli/graph.ts:71-77 | a mapping "name:rest" listed after the function "name" depends on exactly that function |
| Dependencies.LogGroupRule | packages/shared/src/utils/cli/graph.ts:117-129 | a log group outside "/aws/lambda/" depends on nothing; one inside depends on a function named by the first '/'-segment after the prefix, exactly when one exists |
| Dependencies.RoleRule | packages/shared/src/utils/cli/graph.ts:184-201 | a role with no CapitalizedWord+(Role\|role) match depends on nothing; otherwise on a function with exactly the captured id, when one exists |
| Dependencies.RoleScenario | packages/shared/src/utils/cli/graph.ts:190-197 | the role "ProcessOrdersRole" depends on the function "ProcessOrders" |
| Dependencies.EventRuleRule | packages/shared/src/utils/cli/graph.ts:81-102 | an event rule looks the captured word up exactly; only when that fails and the name contains "-dev-" does it look up "insights-dev-" + word; otherwise nothing |
| Dependencies.RdsRule | packages/shared/src/utils/cli/graph.ts:151-168 | an RDS instance depends on the first RDS cluster whose id is the instance id with one trailing "-digits" stripped, exactly when there is one |
| Dependencies.ElastiCacheRule | packages/shared/src/utils/cli/graph.ts:170-182 | an ElastiCache cluster depends on the first replication group whose id contains the cluster id, exactly when there is one |
| Dependencies.NoSelfDependency | packages/shared/src/utils/cli/graph.ts:50-205 | among resources with distinct ARNs no resource is inferred to depend on itself |
| Patterns.LastEnd | packages/shared/src/utils/cli/graph.ts:88 | backtracking of the greedy group: the largest end in range that an alternative follows, and no larger end is followed by one |
| Patterns.CaptureFrom | packages/shared/src/utils/cli/graph.ts:88 | the leftmost match from i on, and the longest group among matches starting there; none exactly when no match starts at or after i |
| Patterns.CapitalizedCaptureSpec | packages/shared/src/utils/cli/graph.ts:191 | `match(...)[1]` is present exactly when some match exists, and is the group of the leftmost, then longest, match |
| Patterns.NameBeforeAlternative | packages/shared/src/utils/cli/graph.ts:191 | a capitalised alphanumeric name followed by a shortest alternative is captured whole |
| Patterns.RoleNameCapture | packages/shared/src/utils/cli/graph.ts:190-191 | "ProcessOrdersRole" captures "ProcessOrders" |
| Patterns.GreedyRuleCapture | packages/shared/src/utils/cli/graph.ts:87-88 | "ProcessOrdersScheduleRule" captures "ProcessOrdersSchedule": the greedy group runs on past "Schedule" |
| Patterns.LazyGroupEnd | packages/shared/src/utils/cli/graph.ts:157 | the lazy group ends at the first position after which only end of input or a dash and digits remain; none exactly when a line terminator intervenes |
| Patterns.StripNumericSuffixSpec | packages/shared/src/utils/cli/graph.ts:157-159 | /^(.+?)(?:-\d+)?$/ matches exactly the non-empty single-line ids; the group is the shortest non-empty prefix followed by nothing or by one "-digits" |
| Patterns.StripAppendedSuffix | packages/shared/src/utils/cli/graph.ts:156-159 | stripping undoes appending one "-digits" to a non-empty single-line cluster name ("cluster-instance-0" style) |
| Text.IndexOf | packages/shared/src/utils/cli/graph.ts:176 | `indexOf`: the first index where the pattern occurs, or -1 when it occurs nowhere |
| Text.ContainsIff | packages/shared/src/utils/cli/graph.ts:176 | `includes` holds exactly when the pattern occurs somewhere |
| Text.ReplaceLeadingPrefix | packages/shared/src/utils/cli/graph.ts:121-122 | `replace` of a prefix that is there removes exactly that prefix |
| Text.Split | packages/core/src/adapters/validator.ts:10 | `split` gives at least one piece and no piece holds the separator |
| Text.FirstPiece | packages/shared/src/utils/cli/graph.ts:72-73 | `split(sep)[0]` is a prefix without the separator, followed by the separator when shorter than the string |
| Text.JoinSplit | packages/core/src/adapters/validator.ts:10 | joining the pieces of a split with the separator gives back the string |
| Text.SplitJoin | packages/core/src/adapters/validator.ts:10 | splitting a join of separator-free pieces gives back the pieces |
| Text.SplitCount | packages/core/src/adapters/validator.ts:10-11 | a split has one more piece than the string has separators |
| Text.TrimEmptyIff | packages/core/src/adapters/validator.ts:19 | `trim()` gives "" exactly when every character is ECMAScript white space or a line terminator |
| Text.ToUpper | apps/cli/src/index.ts:290 | `toUpperCase` on ASCII: same length, each lower-case letter raised, everything else kept |
| Graph.SetAdd | packages/shared/src/utils/cli/graph.ts:35-37 | `Set.add`: the elements become the old ones plus x, and the set stays duplicate-free |
| Graph.FirstOccurrencesSpec | packages/shared/src/utils/cli/graph.ts:18-19 | the node map's key order lists every ARN of the input exactly once |
| Graph.FirstOccurrencesOfDistinct | packages/shared/src/utils/cli/graph.ts:18-19 | without repeated ARNs the key order is the input order |
| Graph.LastWithArnSpec | packages/shared/src/utils/cli/graph.ts:18-23 | the resource a node keeps is absent exactly when no input has its ARN, and is an input with that ARN after which none has it |
| Graph.InitialNodesSpec | packages/shared/src/utils/cli/graph.ts:17-25 | the first loop leaves one edgeless node per ARN holding the last resource with it, and an empty edge set per ARN |
| Graph.TargetsSpec | packages/shared/src/utils/cli/graph.ts:35 | a node's dependency set is duplicate-free and holds exactly the targets of its recorded edges |
| Graph.SourcesSpec | packages/shared/src/utils/cli/graph.ts:36 | a node's dependent set is duplicate-free and holds exactly the sources of the edges into it |
| Graph.KnownEdgesSpec | packages/shared/src/utils/cli/graph.ts:31-33 | a resource gets an edge to an inferred ARN exactly when that ARN is a node |
| Graph.EdgesOfSpec | packages/shared/src/utils/cli/graph.ts:28-40 | after the first i resources the edges are exactly the (resource, known inferred ARN) pairs of those resources |
| Graph.AddEdgesSpec | packages/shared/src/utils/cli/graph.ts:31-39 | recording edges between edgeless nodes leaves each node with its resource, its targets and its sources |
| Graph.AddTargetsSpec | packages/shared/src/utils/cli/graph.ts:37 | the edges map ends up holding each node's targets |
| Graph.RecordDependencies | packages/shared/src/utils/cli/graph.ts:31-39 | the inner loop records, in order, an edge to each inferred ARN that is a node, in both nodes and in the edges map |
| Graph.LinkDependencies | packages/shared/src/utils/cli/graph.ts:27-40 | the second pass records every inferred edge in input order |
| Graph.InferredEdgesEndpoints | packages/shared/src/utils/cli/graph.ts:32-33 | every recorded edge joins two nodes |
| Graph.BuiltNodes | packages/shared/src/utils/cli/graph.ts:13-43 | every node of the built graph holds the last resource with its ARN, its targets and its sources, and its edge set is its targets |
| Graph.BuiltGraph | packages/shared/src/utils/cli/graph.ts:13-43 | the built graph is well formed (one node per ARN, duplicate-free sets naming only nodes, edges equal dependencies) and symmetric (B is a dependency of A exactly when A is a dependent of B) |
| Graph.DependenciesMeaning | packages/shared/src/utils/cli/graph.ts:28-39 | B is a dependency of node A exactly when B is a node and the inference names B for some resource with ARN A |
| Graph.DependencyRecorded | packages/shared/src/utils/cli/graph.ts:31-37 | an inferred ARN that is a node is recorded on the resource's node |
| Graph.DependencyInferred | packages/shared/src/utils/cli/graph.ts:31-37 | a recorded dependency was inferred for some resource with the node's ARN |
| Graph.BuildResourceGraph | packages/shared/src/utils/cli/graph.ts:13-43 | builds the well-formed symmetric graph with one node per distinct ARN in first-seen order, each holding the last resource with its ARN and exactly its inferred known dependencies and dependents |
| TopoSort.ZeroSpec | packages/shared/src/utils/cli/graph.ts:222-228 | the initial queue holds exactly the nodes without dependents, in key order, once each |
| TopoSort.FreedSpec | packages/shared/src/utils/cli/graph.ts:238-247 | an emitted node queues exactly those of its dependencies left with no pending dependent, in its dependency order |
| TopoSort.ScheduleSnoc | packages/shared/src/utils/cli/graph.ts:231-249 | emitting x appends to the queue history exactly what x frees |
| TopoSort.SchedulePrefix | packages/shared/src/utils/cli/graph.ts:231-249 | the queue history only ever grows |
| TopoSort.RemainingStep | packages/shared/src/utils/cli/graph.ts:241 | emitting x lowers a node's pending count by one exactly when x is among its dependents |
| TopoSort.RemainingZero | packages/shared/src/utils/cli/graph.ts:244 | the pending count is zero exactly when every dependent has been emitted |
| TopoSort.ScheduledWhenFree | packages/shared/src/utils/cli/graph.ts:231-249 | every node that enters the queue had no pending dependent at that moment |
| TopoSort.KahnZeroFirst | packages/shared/src/utils/cli/graph.ts:225-232 | the nodes without dependents are emitted first, in key order |
| TopoSort.KahnDependentsFirst | packages/shared/src/utils/cli/graph.ts:231-249 | every emitted node comes after all of its dependents |
| TopoSort.FreeIsEmitted | packages/shared/src/utils/cli/graph.ts:231-249 | once the loop ends, a node whose dependents were all emitted has been emitted |
| TopoSort.KahnBlocked | packages/shared/src/utils/cli/graph.ts:251-252 | a node left over has a dependent that was left over too |
| TopoSort.BlockedChain | packages/shared/src/utils/cli/graph.ts:251-252 | from a left-over node there are dependent chains of every length |
| TopoSort.KahnComplete | packages/shared/src/utils/cli/graph.ts:251-252 | on an acyclic graph every node is emitted by the loop |
| TopoSort.KahnOrder | packages/shared/src/utils/cli/graph.ts:207-213 | no node is emitted before a node that depends on it |
| TopoSort.UnprocessedSpec | packages/shared/src/utils/cli/graph.ts:255-259 | the appended remainder is exactly the nodes not emitted, in key order, once each |
| TopoSort.EveryNodeOnce | packages/shared/src/utils/cli/graph.ts:251-262 | emitted nodes plus remainder list every node exactly once |
| TopoSort.KahnOutput | packages/shared/src/utils/cli/graph.ts:215-262 | the output lists every node once, with nothing left over and dependents before dependencies on an acyclic graph |
| TopoSort.NothingLeftOver | packages/shared/src/utils/cli/graph.ts:252 | on an acyclic graph the remainder is empty |
| TopoSort.InitialInDegrees | packages/shared/src/utils/cli/graph.ts:222-228 | the first loop sets each in-degree to the dependent count and queues the nodes without dependents in key order |
| TopoSort.ReleasedCounts | packages/shared/src/utils/cli/graph.ts:238-243 | the inner loop leaves each in-degree equal to the dependents not yet emitted |
| TopoSort.ReleasedQueue | packages/shared/src/utils/cli/graph.ts:244-246 | the inner loop queues exactly the dependencies it frees, in order |
| TopoSort.Release | packages/shared/src/utils/cli/graph.ts:238-248 | after the inner loop the in-degrees count pending dependents and the queue has grown by what was freed |
| TopoSort.PendingStep | packages/shared/src/utils/cli/graph.ts:237-242 | emitting x lowers the pending count of exactly its dependencies, by one |
| TopoSort.ScheduleStep | packages/shared/src/utils/cli/graph.ts:231-249 | dequeuing the head and queueing what it frees keeps the queue equal to the history's unemitted part |
| TopoSort.FreedAreNew | packages/shared/src/utils/cli/graph.ts:244-246 | a freed node was neither emitted nor queued before, and the queued or emitted nodes are exactly those with no pending dependent |
| TopoSort.ProcessedArns | packages/shared/src/utils/cli/graph.ts:253 | `processedArns` is exactly the set of emitted ARNs |
| TopoSort.AllEmitted | packages/shared/src/utils/cli/graph.ts:252 | when as many nodes were emitted as there are, nothing is appended |
| TopoSort.AppendMissing | packages/shared/src/utils/cli/graph.ts:253-259 | the appending loop adds the resources of the unemitted nodes in key order |
| TopoSort.AppendUnprocessed | packages/shared/src/utils/cli/graph.ts:251-260 | with or without the length test, the output is the emitted resources followed by the remainder |
| TopoSort.KahnStep | packages/shared/src/utils/cli/graph.ts:231-249 | one round of the while loop keeps the loop invariant (queue history, exactly-once, zero pending exactly for queued or emitted nodes) |
| TopoSort.InitialInvariant | packages/shared/src/utils/cli/graph.ts:220-228 | the invariant holds before the while loop |
| TopoSort.Drained | packages/shared/src/utils/cli/graph.ts:231 | when the queue is empty the emitted nodes form a complete run of the loop, once each |
| TopoSort.Drain | packages/shared/src/utils/cli/graph.ts:230-249 | the while loop emits the resources of a complete FIFO run, each node at most once |
| TopoSort.TopologicalSort | packages/shared/src/utils/cli/graph.ts:215-263 | the output is the run's resources followed by the remainder in key order: every node exactly once; on an acyclic graph, exactly the run, with no resource before one of its dependents |
| DeletionOrder.ServicePriority | packages/shared/src/utils/cli/graph.ts:282-296 | the listed services have even (doubled whole) priorities between 2 and 14; any other service has none |
| DeletionOrder.Priority | packages/shared/src/utils/cli/graph.ts:299-307 | a priority is odd exactly for mappings and functions (the 1.5 and 2.5 overrides); it is 198 (99) exactly for unlisted services |
| DeletionOrder.DeletionPrecedence | packages/shared/src/utils/cli/graph.ts:281-307 | the whole chain, one strict link at a time: event rules, then event source mappings, then other lambda resources, then functions, then API Gateway, then logs and alarms, then storage (s3, dynamodb, sqs, elasticache, rds), then networking (ec2, servicediscovery), then IAM, and unlisted services last; hence functions before log groups, alarms and roles, and networking after every listed service but IAM |
| DeletionOrder.PrecedenceInOrder | packages/shared/src/utils/cli/graph.ts:312-324 | in an order sorted by priority a mapping precedes every function, and a function every role and log group |
| DeletionOrder.PriorityTableSpec | packages/shared/src/utils/cli/graph.ts:298-310 | `priorityMap` has one key per ARN and, without repeated ARNs, maps each to its resource's priority |
| DeletionOrder.AssignPriorities | packages/shared/src/utils/cli/graph.ts:298-310 | the priority loop fills `priorityMap` so that every resource's key is its priority |
| DeletionOrder.InsertMultiset | packages/shared/src/utils/cli/graph.ts:314-324 | insertion adds exactly the element |
| DeletionOrder.InsertSorted | packages/shared/src/utils/cli/graph.ts:314-324 | insertion keeps the order sorted by key |
| DeletionOrder.InsertWithKey | packages/shared/src/utils/cli/graph.ts:314-324 | insertion puts the element in front of the elements with its key and changes no other key's order |
| DeletionOrder.SortSpec | packages/shared/src/utils/cli/graph.ts:312-324 | the sort is sorted by key, a permutation, and keeps each key's elements in their order (stable) |
| DeletionOrder.WithKeyMember | packages/shared/src/utils/cli/graph.ts:315-316 | the elements with key p are exactly the elements whose key is p |
| DeletionOrder.SortUnique | packages/shared/src/utils/cli/graph.ts:312-324 | two orders sorted by key with the same order within every key are equal |
| DeletionOrder.AnyStableSort | packages/shared/src/utils/cli/graph.ts:312-324 | every stable sort by the key gives the model's result |
| DeletionOrder.WithKeyIsWithPriority | packages/shared/src/utils/cli/graph.ts:315-316 | when the keys are the priorities, grouping by key is grouping by priority |
| DeletionOrder.WithPriorityMember | packages/shared/src/utils/cli/graph.ts:312-324 | the resources of priority p are exactly those whose priority is p |
| DeletionOrder.StableTies | packages/shared/src/utils/cli/graph.ts:322-323 | two resources of equal priority keep their topological order |
| DeletionOrder.PriorityPass | packages/shared/src/utils/cli/graph.ts:312-324 | the priority pass is a permutation of the topological order, sorted by priority, and stable |
| DeletionOrder.PermutedNodes | packages/shared/src/utils/cli/graph.ts:314 | the re-sorted order holds only nodes of the graph |
| DeletionOrder.TiesKeepDependencyOrder | packages/shared/src/utils/cli/graph.ts:312-324 | among resources of equal priority no resource comes before one of its dependents |
| DeletionOrder.PriorityOverridesEdges | packages/shared/src/utils/cli/graph.ts:292-306 | a role that depends on a function and so comes first topologically is still moved after the function |
| DeletionOrder.KeptResources | packages/shared/src/utils/cli/graph.ts:18-25 | each resource read off the node map is the last resource listed with its ARN |
| DeletionOrder.OnlyWithArn | packages/shared/src/utils/cli/graph.ts:18-25 | without repeated ARNs, the resource the node map keeps for an ARN is the only one listed with it |
| DeletionOrder.KeptCoverInput | packages/shared/src/utils/cli/graph.ts:269-327 | resources with distinct ARNs, each kept by the node map and together covering every input ARN, are a permutation of an input without repeated ARNs |
| DeletionOrder.PlanPermutesInput | packages/shared/src/utils/cli/graph.ts:269-327 | any reordering of the topological order's resources holds only resources the node map kept, and with distinct ARNs it is a permutation of the input |
| DeletionOrder.GetOptimalDeletionOrder | packages/shared/src/utils/cli/graph.ts:269-327 | empty input gives empty output; the ghost graph is the one buildResourceGraph builds from the input (key order, kept resources, exact inferred dependencies and dependents); the output is a permutation of the topological order of that graph (every node exactly once), sorted by priority and stable; every output resource is the last one listed with its ARN, and without repeated ARNs the output is a permutation of the input; on an acyclic graph no resource precedes a dependent of equal priority |
| Validator.ValidatePulumiType | packages/core/src/adapters/validator.ts:3-32 | success is always `true`, and only for strings starting with "sst:" |
| Validator.HasContentIff | packages/core/src/adapters/validator.ts:19-29 | `!x \|\| x.trim() === ""` fails exactly when some character is not white space |
| Validator.ThreeParts | packages/core/src/adapters/validator.ts:10-17 | "sst:namespace:Type" with colon-free parts splits into exactly those three parts |
| Validator.ThreePartVerdict | packages/core/src/adapters/validator.ts:17-31 | on such a string the verdict is the namespace check, then the type check, then acceptance |
| Validator.AcceptsWellFormed | packages/core/src/adapters/validator.ts:3-32 | every "sst:namespace:Type" with colon-free visible parts is accepted |
| Validator.AcceptedIsWellFormed | packages/core/src/adapters/validator.ts:3-32 | every accepted string is "sst:namespace:Type" with colon-free visible parts |
| Validator.PartCountCheck | packages/core/src/adapters/validator.ts:10-15 | with the prefix present, the part-count check fails exactly when the string holds other than two colons |
| Validator.AcceptsExample | packages/core/src/adapters/validator.test.ts:7 | "sst:example:MyComponent" is accepted |
| Validator.RejectsForeignProvider | packages/core/src/adapters/validator.test.ts:11 | "aws:s3/bucket:Bucket" fails the prefix check |
| Validator.RejectsTwoParts | packages/core/src/adapters/validator.test.ts:15 | "sst:example" fails the part-count check |
| Validator.RejectsEmptyNamespace | packages/core/src/adapters/validator.test.ts:16 | "sst::MyComponent" fails the namespace check |
| Validator.RejectsEmptyType | packages/core/src/adapters/validator.test.ts:17 | "sst:example:" fails the type check |
| Validator.OrDefault | packages/core/src/adapters/validator.ts:92-97 | an absent option takes its default, a present one its value |
| Validator.ValidateParent | packages/core/src/adapters/validator.ts:34-36 | accepts every component and never throws |
| Validator.ValidateOutputs | packages/core/src/adapters/validator.ts:38-40 | accepts every component and never throws |
| Validator.ValidateComponent | packages/core/src/adapters/validator.ts:83-122 | success is always `true` |
| Validator.DefaultChecksTypeOnly | packages/core/src/adapters/validator.ts:92-107 | with no options only a recorded non-empty type is validated, and nothing when none is recorded |
| Validator.ParentAndOutputsInert | packages/core/src/adapters/validator.ts:109-115 | the parent and outputs checks run when enabled, but they cannot throw, so those options never change the verdict |
| Validator.ComponentVerdict | packages/core/src/adapters/validator.ts:83-122 | the component passes exactly when the enabled type check passes on a recorded type and, when enabled, the linkable check passes |
| CliArgs.Step | apps/cli/src/index.ts:270-278 | each step reads at least one argument and stays within the arguments |
| CliArgs.StepArgs | apps/cli/src/index.ts:270-278 | a step stands for exactly the arguments it passes over |
| CliArgs.TokenizeCovers | apps/cli/src/index.ts:270-279 | the scan reads every argument from its start on exactly once and in order |
| CliArgs.TagsComeFromTagFlags | apps/cli/src/index.ts:271-273 | every tag is made of the two arguments after a `--tag` that has two arguments behind it |
| CliArgs.TagCountBound | apps/cli/src/index.ts:270-273 | there are at most a third as many tags as scanned arguments |
| CliArgs.DeleteScenario | apps/cli/src/index.ts:318-331 | an option value is never read as a flag, and a trailing `--tag` without key and value adds no tag |
| CliArgs.IndexOfArg | apps/cli/src/index.ts:267 | `indexOf`: the first index of the word, or -1 exactly when it is absent |
| CliArgs.ScanStart | apps/cli/src/index.ts:267-270 | the scan starts just after the first command word, or at 0 when it is absent |
| CliArgs.ScanAdvance | apps/cli/src/index.ts:270-279 | each turn extends the steps taken by the step at the current index |
| CliArgs.FindScanTurn | apps/cli/src/index.ts:271-278 | one turn of the find loop adds the step's tag, if any, and moves past the step's arguments |
| CliArgs.ScanFindArgs | apps/cli/src/index.ts:266-279 | the find loop collects exactly the tags of the scan's steps, in order |
| CliArgs.FlagsReadAlone | apps/cli/src/index.ts:322-325 | a delete flag met by the scan is read on its own |
| CliArgs.DeleteScanTurn | apps/cli/src/index.ts:319-330 | one turn of the delete loop adds the step's tag and sets a flag exactly when the step is that flag read on its own |
| CliArgs.ScanDeleteArgs | apps/cli/src/index.ts:312-331 | the delete loop collects the tags of the scan's steps, and sets dryRun and force exactly when `--dry-run`, or `--force`/`-f`, is read on its own |
| CliArgs.TagMatch | apps/cli/src/index.ts:290 | the tag match is "AND" when the option is absent or empty, otherwise the option upper-cased |
| CliArgs.TagMatchIsUpper | apps/cli/src/index.ts:342 | the chosen tag match is already upper case |
| CliArgs.FindAction | apps/cli/src/index.ts:266-293 | fails with no tags exactly when the scan finds none; otherwise passes on the scanned tags, the tag match, region and profile |
| CliArgs.DeleteAction | apps/cli/src/index.ts:312-347 | fails with no tags exactly when the scan finds none; otherwise passes on the scanned tags and dryRun/force as the scanned flag OR-ed with the option |

## Left out

- Discovery, removal and everything else that calls AWS are not part of this model. `findResources`, `deleteResources`, the finders and the removers do network I/O. The actions stop at the request they would hand over.
- `validateLinkable` uses runtime reflection (`in`, `typeof`, calling `getSSTLink`). Its verdict is the `linkable` flag of a `Component`.
- The text written to stderr, `process.exit` and the dynamic `import` are left out. An exit becomes an `Err`, and the wording of thrown messages is not kept.
- `process.argv` and the Commander options become parameters. Commander's own parsing and its environment-variable defaults for region and profile are not modelled.
- `toUpperCase` is modelled on ASCII letters only. Unicode case mapping is outside the model.
- Service names that collide with members of `Object.prototype`, such as `"toString"`, would make `servicePriorities[service]` return a function. Every finder emits a fixed service name, so such a lookup is not modelled.
- The `?? 999` default in the comparator never applies, because every sorted resource has a priority. It is kept in `Key`.
- The priority comparator's subtraction of fractional numbers is replaced by comparing doubled integers, which gives the same order.
- TopoSort.TopologicalSort requires a well-formed, symmetric graph: every graph `buildResourceGraph` returns is one, by Graph.BuildResourceGraph. Behaviour on other graphs is not modelled.
