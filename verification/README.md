# mind-planner dependency engine in Dafny

mind-planner turns a list of tasks into a plan. First it asks the user one
question for every pair of tasks: does A need B first, does B need A first,
or is there no dependency? Then it builds a directed graph from the answers.
On that graph it computes one of three things:

- parallel waves;
- a single priority-ordered sequence;
- a FIFO topological order.

When the answers contradict each other, a cycle detector reports one cycle
and the questions that produced its edges.

This project models that engine as pure Dafny functions and proves what each
piece promises.

| file | module | models |
|---|---|---|
| `seqs.dfy` | `Seqs` | helpers: duplicate-freedom, first index, filter, flatten, reverse, pigeonhole |
| `graph.dfy` | `Graph` | items, the edges array, adjacency and degree tables, cycles, residual counts |
| `pairs.dfy` | `Pairs` | `allPairs` and `edgeExists` (`src/app/pairs.js`) |
| `decisions.dfy` | `Decisions` | the question card of `src/ui/graph/graph.js` |
| `kahn.dfy` | `Kahn` | the Kahn loop shared by the two linear schedulers; the invariant it keeps; FIFO and priority picks |
| `fifo_order.dfy` | `FifoOrder` | the order a first-in first-out run processes ids in, stated without the queue, and its uniqueness |
| `topo_sort.dfy` | `TopoSort` | `topoSort` (`src/app/topoSort.js`) |
| `topo_sort_priority.dfy` | `TopoSortPriority` | `topoSortPriority` (`src/app/topoSortPriority.js`) |
| `plan_levels.dfy` | `PlanLevels` | `computePlanLevels` (`src/app/planLevels.js`) |
| `cycle_detector.dfy` | `CycleDetector` | `detectCycle` and `findCycleQuestions` (`src/app/cycleDetector.js`) |

## How the source is modelled

- **Ids and entries.** An item id is an opaque `Id` (a `nat`). The edges
  array is a `seq<Entry>`. A dependency `{from, to}` is `Dep(from, to)`. A
  "no dependency" marker `{noneId, from: null, to: null}` is
  `NoneMark(key)`, where the key is the two ids in sorted order.
- **Duplicated helpers.** `src/ui/graphScreen.js` repeats the question
  helpers of `src/ui/graph/graph.js`:
  - `markPairAsNone`, `noneId`, `findNextPairIndex` and `countDecidedPairs`
    at lines 298-330;
  - `addEdge` and the three button handlers at lines 198-234.

  The two copies compute the same edges array, so one model covers both.
  The table cites `graph.js`.
- **Kahn's algorithm.** One drain (`Kahn.Drain`) serves both linear
  schedulers. It is parameterised by how the next ready id is picked:
  - `Fifo` takes the head of the queue.
  - `Priority` takes the first best id of the ready list. This equals
    `pickNext`, because JavaScript's `Array.prototype.sort` is stable. After
    sorting, the head is the first id in the ready list among those with the
    best key.

  The drain keeps `Kahn.Inv`, which says:
  - the count of every id is its number of dependencies on unprocessed ids;
  - an id has count zero exactly when it is processed or ready;
  - every processed id came after all of its predecessors.
- **Adjacency lists.** Each scheduler first builds a map from every item id
  to the targets of its dependencies, in entry order (`Kahn.Adjacency`,
  proved equal to `Graph.Targets` for every item id). The loops are written
  over `Graph.Targets(edges, u)`, which is that list.
- **Queue order.** `FifoOrder.QueueOrder` says, of a whole processing order,
  what the queue does. An id becomes ready when its last predecessor is
  processed; ids without predecessors are ready from the start. The
  order lists ids by the position of their last predecessor. Ids without
  predecessors come first, in item order. Ids freed by the same step come
  in the order of their last occurrence in that step's adjacency list, which
  is the order their counts reach zero. `FifoOrder.QueueOrderUnique` shows
  that at most one topological order of the items has this property, so it
  pins the result of `topoSort` completely.
- **Waves.** `computePlanLevels` relaxes a whole frontier per round.
  `PlanLevels.RelaxFrontierInv` shows that this is the Kahn step applied to
  the frontier's ids one after the other. This is how the three schedulers
  share one correctness argument.
- **Failure.** On failure every scheduler returns the ids whose count
  stayed positive. The model proves these are exactly the ids that lie on a
  cycle or depend, directly or not, on an id that does (`Graph.Blocked`).
  So the ids the screen marks in red can include ids that are on no cycle
  but wait behind one.
- **Depth-first search.** `dfs` becomes two mutually recursive functions:
  - `Visit` is one call of `dfs`;
  - `Neighbors` is its loop over the adjacency list.

  The search state holds `visited` and `parent` as in the source.
  `recStack` is kept as a sequence in push order; the source asks only
  whether an id is in it, and the answer is the same. The state also
  records the order in which ids finish. That order is bookkeeping the
  source does not have. It is what shows that a search with no hit means
  the graph is acyclic: reversed finishing order ranks every dependency
  upward.

## Model

| member | source | states |
|---|---|---|
| Pairs.PairIndices | src/app/pairs.js:3-7 | The nested loops visit n(n-1)/2 position pairs. They are exactly the pairs i < j < n, in strictly increasing lexicographic order. |
| Pairs.AllPairs | src/app/pairs.js:1-9 | There are n(n-1)/2 questions. The k-th is the ids at the k-th visited position pair. |
| Pairs.AllPairsComplete | src/app/pairs.js:1-9 | Every combination of two positions i < j is asked. |
| Pairs.AllPairsDistinct | src/app/pairs.js:1-9 | With distinct ids, no question joins an id to itself, and no unordered pair is asked twice, in either orientation. |
| Pairs.AllPairsSmall | src/app/pairs.js:3-4 | Fewer than two ids yield no question. |
| Pairs.EdgeExists | src/app/pairs.js:11-13 | True exactly when some entry is a dependency with these two endpoints. Markers never match. |
| Pairs.EdgeExistsIsMembership | src/app/pairs.js:11-13 | The lookup is membership of `Dep(from, to)` in the edges array. |
| Pairs.EdgeExistsDirectional | src/app/pairs.js:11-13 | For any edges array and a != b, appending the dependency a to b makes the lookup a to b true and leaves the lookup b to a unchanged. |
| Decisions.NoneKey | src/ui/graph/graph.js:301-303 | The marker key is the two ids, smaller first. |
| Decisions.NoneKeySymmetric | src/ui/graph/graph.js:301-303 | The key does not depend on argument order. Two keys are equal exactly when they name the same unordered pair. |
| Decisions.MarkPairAsNone | src/ui/graph/graph.js:296-300 | Appends at most one marker, and only if the pair's marker is missing. The marker is then present. No dependency lookup changes. |
| Decisions.MarkPairAsNoneIdempotent | src/ui/graph/graph.js:296-300 | Marking the same pair twice equals marking it once. |
| Decisions.AddEdge | src/ui/graph/graph.js:158-171 | Appends `Dep(from, to)` unless present, and nothing else. The array grows exactly when the edge was new. No dependency is ever duplicated. |
| Decisions.Decided | src/ui/graph/graph.js:309-312 | A question is answered exactly when the array holds a dependency between its two ids in either direction, or the marker of the pair, whichever way round the pair is keyed. |
| Decisions.DecidedMono | src/ui/graph/graph.js:306-316 | Keeping every existing entry never turns an answered question back into an unanswered one. |
| Decisions.FindNextPairIndex | src/ui/graph/graph.js:306-316 | Returns the first unanswered question, or the number of questions when all are answered. |
| Decisions.CountDecidedPairs | src/ui/graph/graph.js:318-328 | The count is at most the number of questions. It equals it exactly when every question is answered. |
| Decisions.CountFullIffNoneLeft | src/ui/graph/graph.js:306-328 | The progress counter is full exactly when no next question is left. |
| Decisions.CountOneMore | src/ui/graph/graph.js:318-328 | Answering one more question, and changing no other, adds exactly one to the count. |
| Decisions.Respond | src/ui/graph/graph.js:173-192 | "A necesita B antes" records B before A. "B necesita A antes" records A before B. "No hay dependencia" records a marker and no dependency. Afterwards the question on screen is answered, every question before the new index is answered, and the question at the new index, if any, is not: the screen shows the first unanswered one. |
| Decisions.AppendedDecidesOnlyItsPair | src/ui/graph/graph.js:173-192 | The entry a click appends answers no question other than its own. |
| Decisions.RespondChangesOnlyItsQuestion | src/ui/graph/graph.js:173-192 | When the question on screen is unanswered and the ids are distinct, a click leaves every other question exactly as answered or unanswered as before. |
| Decisions.RespondAdvances | src/ui/graph/graph.js:173-192 | With distinct ids, every click answers exactly one more question and moves the screen strictly forward. |
| Decisions.RespondKeepsWellFormed | src/ui/graph/graph.js:173-192 | Clicks only ever record dependencies between two distinct item ids. This is what the schedulers and the detector assume. |
| Graph.Targets | src/app/topoSort.js:7-14 | The adjacency list of u holds exactly the targets of the dependencies leaving u. |
| Graph.BuildAdj | src/app/topoSort.js:4-14 | The adjacency loop appends to each id's list the targets of its dependencies, in entry order. Markers are skipped. |
| Graph.BuildInDeg | src/app/topoSort.js:5-14 | The in-degree loop adds to each id's count the number of dependencies into it. |
| Graph.BuildOutDeg | src/app/topoSortPriority.js:6-15 | The out-degree loop adds to each id's count the number of dependencies out of it. |
| Graph.ResidualZero | src/app/topoSort.js:27-30 | A count is zero exactly when every predecessor has been processed. |
| Kahn.Relax | src/app/topoSort.js:27-30 | Decrements each target once per dependency. The newly ready ids are exactly those whose count falls from positive to zero, each listed once. |
| Kahn.InitialCounts | src/app/topoSort.js:5-14 | Every item id starts with its in-degree. |
| Kahn.ZeroInDegree | src/app/topoSort.js:17-20 | The initial queue holds exactly the item ids whose count is zero, in item order. |
| Kahn.Step | src/app/topoSort.js:22-31 | Processing any ready id keeps the Kahn invariant. |
| Kahn.Better | src/app/topoSortPriority.js:19-24 | The comparator: an id never beats itself, beats another only with at least as many dependents, and always beats one with fewer. |
| Kahn.BetterOrder | src/app/topoSortPriority.js:19-24 | The comparator is the strict order of a sort key: beating is transitive across ties. |
| Kahn.Pick | src/app/topoSortPriority.js:17-26 | FIFO takes the head. Priority takes an id that no ready id beats on (out-degree descending, label ascending), and the first such id in the ready list. |
| Kahn.Drain | src/app/topoSort.js:22-31 | Draining keeps the invariant until nothing is ready. FIFO processes the ready ids in queue order. Priority takes a best ready id at every step. |
| Kahn.Adjacency | src/app/topoSort.js:4-11 | The adjacency map has one list per item id, and each list holds the targets of that id's dependencies, in entry order. |
| Kahn.Run | src/app/topoSort.js:2-31 | A run from the in-degree-zero ids ends with the invariant and nothing ready. FIFO starts its order with the initial queue. Priority takes a best ready id at every step. |
| Kahn.Stuck | src/app/topoSort.js:34 | The ids reported on failure are exactly the item ids left with a positive count, in item order. |
| Kahn.RespectsIsTopological | src/app/topoSort.js:22-31 | An order without repeats that respects every dependency lists every predecessor of an id before it. |
| Kahn.Outcome | src/app/topoSort.js:33-38 | After draining, an id is unprocessed exactly when it is blocked by a cycle. All ids are processed exactly when the graph is acyclic. The order is then a permutation that respects every dependency. |
| Kahn.Report | src/app/topoSort.js:33-36 | The ids with a positive count are listed once each. They are exactly the blocked ids, and there are none exactly when every id was processed. |
| TopoSort.Sources | src/app/topoSort.js:17-20 | The initial queue holds exactly the item ids that no dependency points at, in item order. |
| TopoSort.TopoSort | src/app/topoSort.js:1-39 | `ok` holds exactly when the graph is acyclic. Then the order is a permutation of the items that respects every dependency, starts with the initial queue and is in queue order, which pins it (`FifoOrder.QueueOrderUnique`). Otherwise the order is empty and `cycleNodes` is the non-empty list of blocked ids. |
| FifoOrder.LastPred | src/app/topoSort.js:27-29 | The position of the last predecessor of an id in a processing order, or -1: that entry is a dependency into the id and no later entry is. |
| FifoOrder.RelaxOrder | src/app/topoSort.js:27-29 | The ids one step frees come in the order of their last occurrences in the adjacency list. |
| FifoOrder.FifoStep | src/app/topoSort.js:24-30 | Taking the head of the queue and appending the ids it frees keeps the processed-then-queued list in queue order. |
| FifoOrder.DrainOrdered | src/app/topoSort.js:23-31 | Draining with the queue keeps queue order to the end. |
| FifoOrder.SourcesOrdered | src/app/topoSort.js:17-20 | The initial queue is in queue order: no id in it has a predecessor, and it follows item order. |
| FifoOrder.RunOrdered | src/app/topoSort.js:17-31 | A first-in first-out run processes the ids in queue order. |
| FifoOrder.QueueOrderUnique | src/app/topoSort.js:17-31 | Two orders of the same ids without repeats that both put every predecessor first and are both in queue order are equal. |
| TopoSort.TopoSortNoDependencies | src/app/topoSort.js:7-38 | Without dependencies the plan is the item order itself. |
| TopoSortPriority.LabelRanks | src/app/topoSortPriority.js:7 | Every item id is mapped to its own label. |
| TopoSortPriority.KeysAgree | src/app/topoSortPriority.js:17-26 | The tabulated degree and label maps order two ids exactly as the comparator does. |
| TopoSortPriority.TopoSortPriority | src/app/topoSortPriority.js:1-47 | Same success and failure contract as `topoSort`. In addition, every step takes a ready id that no other ready id beats on (out-degree descending, label ascending). |
| PlanLevels.RelaxFrontier | src/app/planLevels.js:23-29 | Every id of `next` is a target of some id of the frontier. |
| PlanLevels.RelaxFrontierInv | src/app/planLevels.js:23-30 | Relaxing a frontier processes its ids one after the other. The frontier joins the processed ids, and `next` becomes the new ready list. |
| PlanLevels.AddWave | src/app/planLevels.js:20 | Pushing a ready frontier as a wave keeps the waves layered. |
| PlanLevels.Waves | src/app/planLevels.js:18-31 | The loop ends with every wave non-empty. Every predecessor of an id lies in a strictly earlier wave. Every id after the first wave depends on one in the wave just before. |
| PlanLevels.RelaxFrontierOrdered | src/app/planLevels.js:23-29 | Relaxing a frontier id by id, collecting `next`, is the queue discipline over the frontier, so it keeps queue order. |
| PlanLevels.WavesOrdered | src/app/planLevels.js:18-31 | The concatenated waves are in queue order. |
| PlanLevels.AllWaves | src/app/planLevels.js:4-31 | The waves from the ids of in-degree zero are layered, in queue order, led by the ids of in-degree zero, and leave nothing ready. |
| PlanLevels.PlanMatchesTopoSort | src/app/planLevels.js:1-40 | The wave planner and the linear FIFO scheduler succeed together and produce the very same order. |
| PlanLevels.ComputePlanLevels | src/app/planLevels.js:1-40 | `ok` holds exactly when the graph is acyclic. Then the first wave is the ids of in-degree zero in item order, the waves are layered, and `order` is their concatenation: a permutation respecting every dependency, in queue order. On failure `levels` and `order` are empty and `cycleNodes` is the non-empty list of blocked ids. |
| CycleDetector.Visit | src/app/cycleDetector.js:25-42 | One call of `dfs` keeps the search invariant. Without a hit it leaves the path as it found it and finishes the node. A hit names a dependency from the top of the path back into the path. |
| CycleDetector.Neighbors | src/app/cycleDetector.js:29-38 | The neighbour loop either hits or finishes every neighbour. |
| CycleDetector.Roots | src/app/cycleDetector.js:45-51 | The root loop over the item order either hits or visits every item id. |
| CycleDetector.NoHitAcyclic | src/app/cycleDetector.js:53-55 | A search that finishes without a hit means the graph has no cycle. |
| CycleDetector.Chase | src/app/cycleDetector.js:59-65 | The reconstruction loop pushes the end of the cycle first and then each parent of the previous id, never the start, and stops at the start or where no parent is recorded. |
| CycleDetector.ChasePath | src/app/cycleDetector.js:58-65 | From the top of the path, following parents walks the path back down to the cycle's start, one id per step. The bound is never reached. |
| CycleDetector.Reconstruct | src/app/cycleDetector.js:57-67 | The rebuilt cycle ends with `cycleStart`. |
| CycleDetector.ReconstructSuffix | src/app/cycleDetector.js:57-67 | Walking parents from the top of a linked path back to its i-th id and reversing yields the path after that id, followed by that id. |
| CycleDetector.HitCycle | src/app/cycleDetector.js:57-67 | The rebuilt cycle is the path from just after the start up to the top, followed by the start. It is a genuine cycle of distinct item ids. |
| CycleDetector.CycleEdges | src/app/cycleDetector.js:70-75 | Each cycle id is paired with the next one, and the last with the first. |
| CycleDetector.CycleEdgesChain | src/app/cycleDetector.js:70-77 | The cycle edges are dependencies chained end to start. The last edge's target is the first id. |
| CycleDetector.DetectCycle | src/app/cycleDetector.js:8-78 | `hasCycle` holds exactly when the graph has a cycle. The cycle reported is then a genuine cycle of distinct item ids. Otherwise cycle and edges are empty. |
| CycleDetector.ProducesUnordered | src/app/cycleDetector.js:91 | A question produced an edge exactly when the two have the same two ids, as an unordered pair. |
| CycleDetector.ScanPairs | src/app/cycleDetector.js:90-94 | Adds to the insertion-ordered set every index whose question joins the edge's two ids, in either orientation, each once. |
| CycleDetector.ScanEdges | src/app/cycleDetector.js:89-95 | Over all cycle edges, adds exactly the indices of questions that produced one of them. |
| CycleDetector.FindCycleQuestions | src/app/cycleDetector.js:86-98 | The result lists each index once. An index is in it exactly when its question joins the two ids of some cycle edge, in either orientation. |
| CycleDetector.SomeQuestionPerEdge | src/app/cycleDetector.js:90-93 | An edge between two distinct item ids was produced by some question of `allPairs`. |
| CycleDetector.OnlyQuestionPerEdge | src/app/cycleDetector.js:90-93 | It was produced by no other question. |
| CycleDetector.QuestionsOfCycle | src/app/cycleDetector.js:86-98 | Any cycle without a self-dependency points back to at least one question. |
| CycleDetector.CycleQuestionsNonEmpty | src/app/cycleDetector.js:86-98 | A detected cycle always points back to at least one question, as long as no item depends on itself. |

## Left out

- Rendering is not modelled: the Cytoscape graphs, `refreshQA`'s text and
  buttons, `invalidatePlan`, toasts and `escapeHtml`. None of them affects
  the edges array or the plans.
- The goal and item screens are not modelled, nor item creation or removal.
  Ids are taken as given distinct tokens, as `createId` produces.
- `localeCompare` on labels is abstracted as a label rank (`Item.labelRank`).
  Equal ranks stand for labels that compare as equal.
- `noneId` builds a string by joining the sorted ids with `__none__`. The
  model keeps the sorted pair itself, which identifies the same unordered
  pair. Numeric order stands in for the string sort of `Array.prototype.sort`.
- Every dependency is required to join two item ids (`Graph.EndpointsIn`),
  and the question card only ever records such dependencies
  (`Decisions.RespondKeepsWellFormed`). The edges array can still name an
  id that is no longer an item: going back from the graph screen keeps the
  edges (`src/ui/app.js:45-62`) while the item screen removes items
  (`src/ui/items/items.js:50-52`). The source then behaves as follows, and
  none of it is modelled:
  - an unknown source id gets an adjacency entry in `topoSort.js` (line 10)
    and `cycleDetector.js` (line 15), while `planLevels.js:9` and
    `topoSortPriority.js:12` fail looking up its list;
  - an unknown target id gets a count of one from the entry. All three
    schedulers emit it, into a wave or the order, once its source is
    processed. The processed count then no longer matches the number of
    items, so a plan can fail with an empty `cycleNodes`, or, when the extra
    ids make up for ids blocked by a cycle, succeed with an order that
    holds non-items and misses blocked items.
- The source takes ids to be truthy. It checks `!e.from || !e.to`,
  `!cycleStart` and `!current`, and ids from `createId` are never empty.
  An `Id` has no falsy value.
- Decisions.Respond: requires the question on screen to exist. The source
  disables the three buttons once `pairIndex` reaches the number of
  questions (`graph.js:123-131`).
- Decisions.Respond: the `graphScreen.js` copy of the "no dependency"
  handler does not invalidate the displayed plan. That concerns only what
  is rendered and is not modelled.
- There is no decision replacement and no removal of answers. The source
  only appends to the edges array, and a question once answered is never
  asked again.
- Waves keep the order in which their ids became ready. The source's comment
  at `planLevels.js:19` mentions ordering a wave by label, but the code does
  not sort, and neither does the model.
- PlanLevels.ComputePlanLevels: `visitedCount` is the length of the
  concatenated waves, which is how the model tracks it.
- TopoSortPriority.TopoSortPriority: the contract does not say which of
  several ready ids with equal out-degree and equal label goes first.
  `Kahn.Pick` states it: the first of them in the ready list.
- CycleDetector.Chase: its own contract does not say that the walk reaches
  the start. The source's loop has no bound. The model gives it `|ids|`
  steps, and `CycleDetector.ChasePath` proves the walk reaches the start
  well within them.
- CycleDetector.DetectCycle: the contract does not say which cycle is
  reported when there are several. The model reports the first one met by
  the search in item order, as the source does.
- CycleDetector.FindCycleQuestions: the contract does not state the order of
  the indices. The model keeps insertion order: edge by edge, then question
  by question. `ScanPairs` and `ScanEdges` state that earlier entries are
  kept as a prefix.
- The search state's finishing order and the use of a sequence for
  `recStack` are bookkeeping for the proofs. They do not change any result.
