# Hungarian algorithm state, in Dafny

This project models `HungarianAlgorithm`, the state object of a primal-dual
(Kuhn-Munkres) solver for the weighted assignment problem. It also models the
primitives a driver loop would call on it.

- **Entities.** Resources bid for tasks at a cost.
- **Potentials.** Every resource and every task carries a potential.
- **Tight bids.** A bid is tight when its cost equals the sum of its resource's and its task's potentials.
- **Bid partition.** Every bid is in exactly one of three sets: loose, tight-unmatched or matched.
- **Free sets.** A resource or task is free when no matched bid uses it.
- **Search.** The search starts from the free tasks. It follows tight-unmatched bids from a task to its resource, and matched bids from a resource to its task. It marks what it reaches.

Modules:

- `Assignment` (`assignment.dfy`) holds the value types:
  - `Resource`, `Task`, `Bid`;
  - the projections `ResourcesOf` and `TasksOf`;
  - the partition predicate `Partitioned`;
  - the matching predicate `Matching`;
  - the lemmas saying that moving one bid keeps both predicates.
- `Reachability` (`reachability.dfy`) specifies the search on values.
  - **Closed pair.** `Closed` holds for a pair of sets that contains the free tasks and is closed under both edge kinds.
  - **Least closed pair.** `LeastClosed` says the pair is contained in every closed pair. This pair is what the search must compute.
  - **Paths.** The least closed pair is characterised again as the set of vertices on alternating paths of bounded length.
  - **Frontier invariants.** These are what a worklist pass of the search preserves.
  - **As-written recursion.** A value-level description of the recursion without the "not yet reachable" filter, used for the finding below.
- `Hungarian` (`hungarian.dfy`) holds the class `HungarianAlgorithm`.
  - **Fields.** The class has the source's thirteen fields, as `set` and `map` fields.
  - **Methods.** The constructor, `FindTightBids`, `Match`, `Free`, the search methods and both potential increases are methods with `modifies` frames.
  - **Pure parts.** `BidIsTight` and the four getters are functions.
  - **Invariant.** `Valid()` is the class invariant. It holds the key sets of the potentials, the bid partition and the matching invariant. It says that no loose bid is tight under the current potentials. It also says that the reachable sets, while they are current, are the least closed pair. `FindTightBids` needs only `Idle()`, which leaves out the loose-bid clause, because an increase calls it right after changing a potential.
- `Situations` (`situations.dfy`) holds concrete states:
  - the three-people, three-chores fixture of the repository's tests, with those tests restated as methods whose postconditions are the expected sets;
  - a state with an alternating cycle.

Costs and potentials are `real`, and tightness is exact equality. Entities that are not declared are excluded by preconditions. In Java they cause a `NullPointerException`.

## Model

| member | source | states |
|---|---|---|
| Hungarian.HungarianAlgorithm.constructor | src/org/softcrafties/HungarianAlgorithm.java:25-48 | The invariant holds. Every potential is 0 and every resource and task is free. Nothing is matched. A bid is tight exactly when its cost is 0, and loose otherwise. Nothing is reachable yet. |
| Hungarian.HungarianAlgorithm.FindTightBids | src/org/softcrafties/HungarianAlgorithm.java:50-59 | Exactly the loose bids that are now tight move to the tight set. Nothing moves back. Afterwards no loose bid is tight. Matched bids and potentials are not touched, and the partition and matching invariants are kept. |
| Hungarian.HungarianAlgorithm.Match | src/org/softcrafties/HungarianAlgorithm.java:68-97 | An already matched bid gives `Done`. The other refusals come in the source's order: an unknown bid, a loose bid, a taken resource, a taken task. A refusal leaves the state unchanged. On success the bid moves from tight to matched, and its resource and task stop being free. Nothing else changes. |
| Hungarian.HungarianAlgorithm.Free | src/org/softcrafties/HungarianAlgorithm.java:99-112 | A loose bid gives `Done` and changes nothing. Any other bid that is not matched is refused and changes nothing. A matched bid goes back to the tight set without its tightness being checked, and its resource and task are free again. The invariant is kept. |
| Hungarian.MatchThenFree | src/org/softcrafties/HungarianAlgorithm.java:68-112 | Matching a tight bid whose resource and task are free, then freeing it, restores the three bid sets, the free sets and the potentials. |
| Hungarian.HungarianAlgorithm.VisitFromFreeTasks | src/org/softcrafties/HungarianAlgorithm.java:114-120 | The search returns with both worklists empty. The reachable sets are then the least closed pair for the current tight bids, matched bids and free tasks. |
| Hungarian.HungarianAlgorithm.VisitTasks | src/org/softcrafties/HungarianAlgorithm.java:122-134 | From a state satisfying the task-frontier invariant, the pass and the recursion it starts end with both worklists empty and the least closed pair computed. With an empty task worklist the reachable sets are unchanged. |
| Hungarian.HungarianAlgorithm.FollowTightBids | src/org/softcrafties/HungarianAlgorithm.java:123-129 | The resources of the tight bids from the task worklist become reachable. Those that were not reachable before are exactly the new resource worklist. |
| Hungarian.HungarianAlgorithm.VisitResources | src/org/softcrafties/HungarianAlgorithm.java:136-148 | From a state satisfying the resource-frontier invariant, the pass and the recursion it starts end with both worklists empty and the least closed pair computed. |
| Hungarian.HungarianAlgorithm.FollowMatchedBids | src/org/softcrafties/HungarianAlgorithm.java:137-143 | The tasks of the matched bids from the resource worklist become reachable. Those that were not reachable before are exactly the new task worklist. |
| Hungarian.HungarianAlgorithm.IncreaseResourcePotential | src/org/softcrafties/HungarianAlgorithm.java:150-154 | Only this resource's potential changes, and it grows by `increment`. Task potentials are untouched. Then exactly the loose bids that are now tight move to tight, and no loose bid stays tight. Since no loose bid was tight before, every bid that has become tight is one of this resource's bids. |
| Hungarian.HungarianAlgorithm.IncreaseTaskPotential | src/org/softcrafties/HungarianAlgorithm.java:156-160 | Only this task's potential changes, and it grows by `increment`. Resource potentials are untouched. Then exactly the loose bids that are now tight move to tight, and no loose bid stays tight. Since no loose bid was tight before, every bid that has become tight is one of this task's bids. |
| Hungarian.HungarianAlgorithm.UnassignedResources | src/org/softcrafties/HungarianAlgorithm.java:162-164 | A resource is returned exactly when it is declared and no matched bid uses it. |
| Hungarian.HungarianAlgorithm.UnassignedTasks | src/org/softcrafties/HungarianAlgorithm.java:166-168 | A task is returned exactly when it is declared and no matched bid uses it. |
| Hungarian.HungarianAlgorithm.ReachableTasks | src/org/softcrafties/HungarianAlgorithm.java:170-172 | The result consists of declared tasks. After a search with no change since, it contains the free tasks and, with the reachable resources, forms the least closed pair. |
| Hungarian.HungarianAlgorithm.ReachableResources | src/org/softcrafties/HungarianAlgorithm.java:174-176 | The result consists of declared resources. After a search with no change since, it forms the least closed pair with the reachable tasks. |
| Assignment.MatchKeepsMatching | src/org/softcrafties/HungarianAlgorithm.java:85-96 | Matching a bid whose resource and task are free keeps the matching invariant. No resource or task is used twice, and free means unused by the matched set. |
| Assignment.FreeKeepsMatching | src/org/softcrafties/HungarianAlgorithm.java:105-111 | Removing a matched bid and freeing its resource and task keeps the matching invariant. |
| Assignment.TightToMatched | src/org/softcrafties/HungarianAlgorithm.java:92-94 | Moving a tight bid to matched, and removing it from loose, keeps the partition of the original bids. Removing it from loose changes nothing. |
| Assignment.MatchedToTight | src/org/softcrafties/HungarianAlgorithm.java:107-108 | Moving a matched bid back to tight keeps the partition of the original bids. |
| Reachability.TightNeighboursGrow | src/org/softcrafties/HungarianAlgorithm.java:123-129 | Following one more tight bid adds its resource exactly when its task is in the worklist. |
| Reachability.MatchedNeighboursGrow | src/org/softcrafties/HungarianAlgorithm.java:137-143 | Following one more matched bid adds its task exactly when its resource is in the worklist. |
| Reachability.LeastClosedUnique | src/org/softcrafties/HungarianAlgorithm.java:114-148 | The search result is determined by the bids: two least closed pairs are equal. |
| Reachability.ClosedContainsPaths | src/org/softcrafties/HungarianAlgorithm.java:122-148 | Every closed pair contains every vertex reached by an alternating path of length at most n. |
| Reachability.PathsClosed | src/org/softcrafties/HungarianAlgorithm.java:122-148 | The vertices on alternating paths from the free tasks form a closed pair. |
| Reachability.LeastClosedIsPaths | src/org/softcrafties/HungarianAlgorithm.java:122-148 | In the least closed pair, a task or resource is present exactly when some alternating path from a free task reaches it. |
| Reachability.SearchStart | src/org/softcrafties/HungarianAlgorithm.java:114-119 | With nothing reachable but the free tasks, which are all queued, the task-frontier invariant holds. |
| Reachability.TaskPass | src/org/softcrafties/HungarianAlgorithm.java:122-130 | One pass over the tight bids turns the task-frontier invariant into the resource-frontier invariant. The resource worklist becomes the newly reached resources. |
| Reachability.ResourcePass | src/org/softcrafties/HungarianAlgorithm.java:136-144 | One pass over the matched bids turns the resource-frontier invariant into the task-frontier invariant. The task worklist becomes the newly reached tasks. |
| Reachability.TaskFrontierDone | src/org/softcrafties/HungarianAlgorithm.java:145-147 | With the task worklist empty, the task-frontier invariant means the least closed pair has been computed. |
| Reachability.ResourceFrontierDone | src/org/softcrafties/HungarianAlgorithm.java:131-133 | With the resource worklist empty, the resource-frontier invariant means the least closed pair has been computed. |
| Reachability.AsWrittenAccumulates | src/org/softcrafties/HungarianAlgorithm.java:122-148 | Without the filter, every round's task worklist, and the resources it enqueues, stay among what is marked in later rounds. |
| Reachability.TaskRoundAsWritten | src/org/softcrafties/HungarianAlgorithm.java:139-141 | Without the filter, a task marked by round k was in the task worklist of some round up to k. |
| Reachability.ResourceRoundAsWritten | src/org/softcrafties/HungarianAlgorithm.java:125-127 | Without the filter, a resource marked by round k was enqueued in some round up to k. |
| Reachability.ClosedContainsAsWritten | src/org/softcrafties/HungarianAlgorithm.java:122-148 | Without the filter, every closed pair contains every worklist and everything marked. |
| Reachability.AsWrittenFollowsTight | src/org/softcrafties/HungarianAlgorithm.java:123-129 | Without the filter, the resource of a tight bid from a marked task is marked by the same round. |
| Reachability.AsWrittenFollowsMatched | src/org/softcrafties/HungarianAlgorithm.java:137-147 | Without the filter, when the recursion returns in round k, the task of a matched bid from a marked resource is marked too. |
| Reachability.AsWrittenClosedWhenReturns | src/org/softcrafties/HungarianAlgorithm.java:122-148 | Without the filter, when the recursion returns, what it has marked is a closed pair. |
| Reachability.AsWrittenResultWhenReturns | src/org/softcrafties/HungarianAlgorithm.java:122-148 | Without the filter, when the recursion returns, what it has marked is the least closed pair. So the filter changes the result only of searches that would not return. |
| Situations.CreateInitialState | test/org/softcrafties/SituationFactory.java:36-40 | The fixture as constructed. Every potential is 0, so all nine bids are loose, and everything is free. |
| Situations.CreateWithOneTightBid | test/org/softcrafties/SituationFactory.java:42-45 | The fixture after raising Jim's potential by 1 and matching nothing. Jim-Bathroom is the only tight bid, and everything is free. |
| Situations.CreateWithOneMatch | test/org/softcrafties/SituationFactory.java:42-48 | The fixture with Jim's potential raised by 1 and Jim-Bathroom matched. Steve and Alan are free, and Floors and Windows are free. |
| Situations.FindUnassignedResources | test/org/softcrafties/HungarianTest.java:20-28 | With one match, the unassigned resources are {Alan, Steve}. |
| Situations.FindUnassignedTasks | test/org/softcrafties/HungarianTest.java:30-38 | With one match, the unassigned tasks are {Floors, Windows}. |
| Situations.ReachableWithOneTightBid | test/org/softcrafties/HungarianTest.java:40-60 | With one tight bid, the search reaches the tasks {Bathroom, Floors, Windows} and the resources {Jim}. |
| Situations.ReachableWithOneMatch | test/org/softcrafties/HungarianTest.java:62-80 | With one match, the search reaches the tasks {Floors, Windows} and no resource. |
| Situations.CreateHalfCycle | src/org/softcrafties/HungarianAlgorithm.java:68-97 | On five zero-cost bids, matching Jim-Floors leaves the other four tight, with only Steve, Bathroom and Windows free. |
| Situations.CreateWithCycle | src/org/softcrafties/HungarianAlgorithm.java:68-97 | Matching Jim-Floors, then Steve-Windows, on five zero-cost bids gives the alternating cycle. |
| Situations.ReachableOnCycle | src/org/softcrafties/HungarianAlgorithm.java:114-148 | With the filter, the search on the cycle returns, having reached every task and both resources. |
| Situations.AsWrittenNeverReturns | src/org/softcrafties/HungarianAlgorithm.java:122-148 | Without the filter, the task worklist on the cycle alternates between {Floors} and {Windows} in every round. No round returns. |

## Left out

- **Tightness tolerance.** Tightness is exact equality on `real`. The source compares a `double` difference against `1e-14` (HungarianAlgorithm.java:65). Rounding, and the tolerance itself, are not modelled.
- **Error messages.** The refusals of `match` and `free` are the values `Refused(fault)`, not thrown `AssertionError`s. The message strings, including the potentials printed for a loose bid, are not modelled.
- **Undeclared entities.**
  - A bid whose resource or task is not declared is excluded by the constructor's precondition.
  - An undeclared resource or task passed to an increase is excluded by that method's precondition.
  - In Java these reach a `null` potential and throw a `NullPointerException`.
- **Java collections.** These are not modelled:
  - `HashSet`/`HashMap` identity and capacity hints;
  - removal through an iterator (the loop chooses an arbitrary remaining bid instead);
  - the getters handing out the live, aliased field sets (the model's getters return values);
  - the caller's `resources` and `tasks` sets being shared with the object rather than copied.
- **Stale tight bids.** The model does not claim that every bid in the tight set is tight. `FindTightBids` never looks again at bids already tight or matched, so a later increase can leave them not tight. This follows the code.
- **No re-check in free.** A freed bid returns to the tight set without its tightness being checked. This follows the code.
- Hungarian.HungarianAlgorithm.IncreaseResourcePotential and Hungarian.HungarianAlgorithm.IncreaseTaskPotential: they accept any increment, including zero or a negative one, because the code does not check it. A negative increment can make a loose bid tight, just as in Java.
- **Missing factory method.** The repository's tests call a fixture `createWithOneTightBid` that `SituationFactory.java` does not define. `Situations.CreateWithOneTightBid` models it as "Jim's potential raised by 1, nothing matched", which is the state the expected results of `HungarianTest.java:40-60` fit.
- Hungarian.HungarianAlgorithm.VisitTasks: it requires the task-frontier invariant when its task worklist is non-empty. So it promises the least closed pair only inside a search started by `VisitFromFreeTasks`, or from a state the caller has prepared the same way. It is public in Java, but calling it alone with a non-empty worklist is not given a meaning here.
- Hungarian.HungarianAlgorithm.FollowTightBids and Hungarian.HungarianAlgorithm.FollowMatchedBids: these are the loops of `visitTasks` and `visitResources`, factored out as methods of their own. `reachableResources` and `reachableTasks` grow exactly as in the source. The worklists `resourcesToVisit` and `tasksToVisit` differ: they receive only resources and tasks that were not reachable before. This is the "not yet reachable" filter of the row under "## Findings". The Java loops enqueue every resource and task they reach (HungarianAlgorithm.java:126-127 and 140-141).
- **Call-stack depth.** The depth of the Java call stack in the mutual recursion, and a possible `StackOverflowError`, are not modelled.
- **The driver loop.** The loop that repeatedly raises potentials and augments the matching is not part of the repository. It is not modelled.

## Findings

| source | as written | input that shows it | evidently intended | confidence | as-written member | corrected member |
|---|---|---|---|---|---|---|
| src/org/softcrafties/HungarianAlgorithm.java:122-148 | `visitTasks` and `visitResources` enqueue every resource and task they reach, even one already reachable (lines 126-127 and 140-141). They recurse while the new worklist is non-empty. | Jim is matched to Floors and Steve to Windows. Jim-Windows and Steve-Floors are tight and unmatched. Bathroom is free and Jim-Bathroom is tight. The task worklist then alternates between {Floors} and {Windows} for ever, so the recursion never returns. | Enqueue only a resource or task that is not yet reachable. The search then always returns, with the least closed pair. Whenever the unfiltered search does return, it gives the same result. | not executed | Situations.AsWrittenNeverReturns | Hungarian.HungarianAlgorithm.VisitTasks |
