/**
 The alternating search over the equivalence subgraph, stated on values.

 A search starts from the free tasks, follows tight-unmatched bids from a
 task to its resource and matched bids from a resource to its task. Its
 result is characterised three ways: as the least pair of sets closed under
 those two edge kinds (`LeastClosed`), as the vertices reachable through an
 alternating path of bounded length (`TaskWithin`, `ResourceWithin`), and
 operationally by the frontier invariants the worklist passes keep
 (`TaskFrontier`, `ResourceFrontier`).
 */
module Reachability {
  import opened Assignment

  /** The edges the search may use and where it starts. */
  datatype Subgraph = Subgraph(tight: set<Bid>, matched: set<Bid>, freeTasks: set<Task>)

  /** The resources at the far end of a tight bid from a task of `from`. */
  function TightNeighbours(tight: set<Bid>, from: set<Task>): set<Resource>
  {
    set b | b in tight && b.task in from :: b.resource
  }

  /** The tasks at the far end of a matched bid from a resource of `from`. */
  function MatchedNeighbours(matched: set<Bid>, from: set<Resource>): set<Task>
  {
    set m | m in matched && m.resource in from :: m.task
  }

  /** Following one more tight bid adds at most its resource. */
  lemma TightNeighboursGrow(tight: set<Bid>, b: Bid, from: set<Task>)
    ensures TightNeighbours(tight + {b}, from) == TightNeighbours(tight, from) + (if b.task in from then {b.resource} else {})
  {
  }

  /** Following one more matched bid adds at most its task. */
  lemma MatchedNeighboursGrow(matched: set<Bid>, m: Bid, from: set<Resource>)
    ensures MatchedNeighbours(matched + {m}, from) == MatchedNeighbours(matched, from) + (if m.resource in from then {m.task} else {})
  {
  }

  /**
   `rs` and `ts` contain the free tasks and are closed under both edge kinds:
   tight bid from a task of `ts`, matched bid from a resource of `rs`.
   */
  predicate Closed(g: Subgraph, rs: set<Resource>, ts: set<Task>)
  {
    && g.freeTasks <= ts
    && (forall b :: b in g.tight && b.task in ts ==> b.resource in rs)
    && (forall m :: m in g.matched && m.resource in rs ==> m.task in ts)
  }

  /** Every closed pair contains `rs` and `ts`. */
  ghost predicate Below(g: Subgraph, rs: set<Resource>, ts: set<Task>)
  {
    forall rs', ts' :: Closed(g, rs', ts') ==> rs <= rs' && ts <= ts'
  }

  /** `rs` and `ts` are the least closed pair: what the search must compute. */
  ghost predicate LeastClosed(g: Subgraph, rs: set<Resource>, ts: set<Task>)
  {
    Closed(g, rs, ts) && Below(g, rs, ts)
  }

  /** The least closed pair is unique. */
  lemma LeastClosedUnique(g: Subgraph, rs1: set<Resource>, ts1: set<Task>, rs2: set<Resource>, ts2: set<Task>)
    requires LeastClosed(g, rs1, ts1) && LeastClosed(g, rs2, ts2)
    ensures rs1 == rs2 && ts1 == ts2
  {
    assert Closed(g, rs2, ts2);
    assert Closed(g, rs1, ts1);
  }

  // ---------------------------------------------------------------------
  // Alternating paths

  /**
   Task `t` is free, or is the task of a matched bid whose resource is
   reachable by an alternating path with at most `n - 1` matched edges.
   */
  ghost predicate TaskWithin(g: Subgraph, n: nat, t: Task)
    decreases n, 0
  {
    || t in g.freeTasks
    || (n > 0 && exists m :: m in g.matched && m.task == t && ResourceWithin(g, n - 1, m.resource))
  }

  /** Resource `r` is joined by a tight bid to a task with `TaskWithin(g, n, _)`. */
  ghost predicate ResourceWithin(g: Subgraph, n: nat, r: Resource)
    decreases n, 1
  {
    exists b :: b in g.tight && b.resource == r && TaskWithin(g, n, b.task)
  }

  /** Task `t` lies at the end of an alternating path of some length. */
  ghost predicate TaskOnPath(g: Subgraph, t: Task)
  {
    exists n: nat :: TaskWithin(g, n, t)
  }

  /** Resource `r` lies at the end of an alternating path of some length. */
  ghost predicate ResourceOnPath(g: Subgraph, r: Resource)
  {
    exists n: nat :: ResourceWithin(g, n, r)
  }

  /** All tasks reachable through an alternating path. */
  ghost function PathTasks(g: Subgraph): set<Task>
  {
    set t | t in g.freeTasks + TasksOf(g.matched) && TaskOnPath(g, t)
  }

  /** All resources reachable through an alternating path. */
  ghost function PathResources(g: Subgraph): set<Resource>
  {
    set r | r in ResourcesOf(g.tight) && ResourceOnPath(g, r)
  }

  /** A closed pair contains every vertex at the end of an alternating path of length `n`. */
  lemma {:induction false} ClosedContainsPaths(g: Subgraph, rs: set<Resource>, ts: set<Task>, n: nat)
    requires Closed(g, rs, ts)
    ensures forall t :: TaskWithin(g, n, t) ==> t in ts
    ensures forall r :: ResourceWithin(g, n, r) ==> r in rs
  {
    if n > 0 {
      ClosedContainsPaths(g, rs, ts, n - 1);
    }
    forall t | TaskWithin(g, n, t) ensures t in ts {
      if t !in g.freeTasks {
        var m :| m in g.matched && m.task == t && ResourceWithin(g, n - 1, m.resource);
      }
    }
    forall r | ResourceWithin(g, n, r) ensures r in rs {
      var b :| b in g.tight && b.resource == r && TaskWithin(g, n, b.task);
    }
  }

  /** The vertices reachable through alternating paths form a closed pair. */
  lemma PathsClosed(g: Subgraph)
    ensures Closed(g, PathResources(g), PathTasks(g))
  {
    forall t | t in g.freeTasks ensures t in PathTasks(g) {
      assert TaskWithin(g, 0, t);
      assert TaskOnPath(g, t);
    }
    forall b | b in g.tight && b.task in PathTasks(g) ensures b.resource in PathResources(g) {
      var n: nat :| TaskWithin(g, n, b.task);
      assert ResourceWithin(g, n, b.resource);
      assert ResourceOnPath(g, b.resource);
      assert b.resource in ResourcesOf(g.tight);
    }
    forall m | m in g.matched && m.resource in PathResources(g) ensures m.task in PathTasks(g) {
      var n: nat :| ResourceWithin(g, n, m.resource);
      assert TaskWithin(g, n + 1, m.task);
      assert TaskOnPath(g, m.task);
      assert m.task in TasksOf(g.matched);
    }
  }

  /**
   The least closed pair is exactly the set of vertices at the end of an
   alternating tight/matched path that starts at a free task.
   */
  lemma LeastClosedIsPaths(g: Subgraph, rs: set<Resource>, ts: set<Task>)
    requires LeastClosed(g, rs, ts)
    ensures forall t :: t in ts <==> TaskOnPath(g, t)
    ensures forall r :: r in rs <==> ResourceOnPath(g, r)
  {
    PathsClosed(g);
    assert rs <= PathResources(g) && ts <= PathTasks(g);
    forall t | TaskOnPath(g, t) ensures t in ts {
      var n: nat :| TaskWithin(g, n, t);
      ClosedContainsPaths(g, rs, ts, n);
    }
    forall r | ResourceOnPath(g, r) ensures r in rs {
      var n: nat :| ResourceWithin(g, n, r);
      ClosedContainsPaths(g, rs, ts, n);
    }
  }

  // ---------------------------------------------------------------------
  // The worklist passes

  /**
   What holds when the search is about to visit the task worklist `toVisit`:
   every reachable task off the worklist has had its tight bids followed, every
   reachable resource has had its matched bid followed, and nothing was added
   that a closed pair could leave out.
   */
  ghost predicate TaskFrontier(g: Subgraph, rs: set<Resource>, ts: set<Task>, toVisit: set<Task>)
  {
    && g.freeTasks <= ts && toVisit <= ts
    && (forall b :: b in g.tight && b.task in ts && b.task !in toVisit ==> b.resource in rs)
    && (forall m :: m in g.matched && m.resource in rs ==> m.task in ts)
    && Below(g, rs, ts)
  }

  /** What holds when the search is about to visit the resource worklist `toVisit`. */
  ghost predicate ResourceFrontier(g: Subgraph, rs: set<Resource>, ts: set<Task>, toVisit: set<Resource>)
  {
    && g.freeTasks <= ts && toVisit <= rs
    && (forall b :: b in g.tight && b.task in ts ==> b.resource in rs)
    && (forall m :: m in g.matched && m.resource in rs && m.resource !in toVisit ==> m.task in ts)
    && Below(g, rs, ts)
  }

  /** Seeding both the reachable tasks and the worklist with the free tasks starts a search. */
  lemma SearchStart(g: Subgraph)
    ensures TaskFrontier(g, {}, g.freeTasks, g.freeTasks)
  {
  }

  /**
   Visiting the task worklist, and enqueuing only resources not yet reachable,
   hands the resource side a valid frontier.
   */
  lemma TaskPass(g: Subgraph, rs: set<Resource>, ts: set<Task>, toVisit: set<Task>)
    requires TaskFrontier(g, rs, ts, toVisit)
    ensures ResourceFrontier(g, rs + TightNeighbours(g.tight, toVisit), ts, TightNeighbours(g.tight, toVisit) - rs)
  {
    var found := TightNeighbours(g.tight, toVisit);
    forall rs', ts' | Closed(g, rs', ts') ensures rs + found <= rs' && ts <= ts' {
      forall r | r in found ensures r in rs' {
        var b :| b in g.tight && b.task in toVisit && b.resource == r;
      }
    }
  }

  /**
   Visiting the resource worklist, and enqueuing only tasks not yet reachable,
   hands the task side a valid frontier.
   */
  lemma ResourcePass(g: Subgraph, rs: set<Resource>, ts: set<Task>, toVisit: set<Resource>)
    requires ResourceFrontier(g, rs, ts, toVisit)
    ensures TaskFrontier(g, rs, ts + MatchedNeighbours(g.matched, toVisit), MatchedNeighbours(g.matched, toVisit) - ts)
  {
    var found := MatchedNeighbours(g.matched, toVisit);
    forall rs', ts' | Closed(g, rs', ts') ensures rs <= rs' && ts + found <= ts' {
      forall t | t in found ensures t in ts' {
        var m :| m in g.matched && m.resource in toVisit && m.task == t;
      }
    }
  }

  /** A search whose task worklist is empty has computed the least closed pair. */
  lemma TaskFrontierDone(g: Subgraph, rs: set<Resource>, ts: set<Task>)
    requires TaskFrontier(g, rs, ts, {})
    ensures LeastClosed(g, rs, ts)
  {
  }

  /** A search whose resource worklist is empty has computed the least closed pair. */
  lemma ResourceFrontierDone(g: Subgraph, rs: set<Resource>, ts: set<Task>)
    requires ResourceFrontier(g, rs, ts, {})
    ensures LeastClosed(g, rs, ts)
  {
  }

  // ---------------------------------------------------------------------
  // The recursion without the "not yet reachable" filter

  /**
   One round of the unfiltered recursion: every resource joined by a tight bid
   to the task worklist is enqueued, then every task matched to one of those.
   */
  function RoundAsWritten(g: Subgraph, worklist: set<Task>): set<Task>
  {
    MatchedNeighbours(g.matched, TightNeighbours(g.tight, worklist))
  }

  /** The task worklist of the unfiltered recursion after `k` rounds. */
  function WorklistAsWritten(g: Subgraph, k: nat): set<Task>
  {
    if k == 0 then g.freeTasks else RoundAsWritten(g, WorklistAsWritten(g, k - 1))
  }

  /**
   The unfiltered recursion returns during round `k`: the resource worklist
   it builds is empty, or the task worklist built from that is.
   */
  predicate ReturnsAsWritten(g: Subgraph, k: nat)
  {
    TightNeighbours(g.tight, WorklistAsWritten(g, k)) == {} || WorklistAsWritten(g, k + 1) == {}
  }

  /** The tasks the unfiltered recursion has marked reachable by the end of round `k`. */
  function TasksAsWritten(g: Subgraph, k: nat): set<Task>
  {
    if k == 0 then g.freeTasks else TasksAsWritten(g, k - 1) + WorklistAsWritten(g, k)
  }

  /** The resources the unfiltered recursion has marked reachable by the end of round `k`. */
  function ResourcesAsWritten(g: Subgraph, k: nat): set<Resource>
  {
    (if k == 0 then {} else ResourcesAsWritten(g, k - 1)) + TightNeighbours(g.tight, WorklistAsWritten(g, k))
  }

  /** Every round up to `k` has contributed to the sets marked by round `k`. */
  lemma {:induction false} AsWrittenAccumulates(g: Subgraph, i: nat, k: nat)
    requires i <= k
    ensures WorklistAsWritten(g, i) <= TasksAsWritten(g, k)
    ensures TightNeighbours(g.tight, WorklistAsWritten(g, i)) <= ResourcesAsWritten(g, k)
    decreases k
  {
    if i < k {
      AsWrittenAccumulates(g, i, k - 1);
    }
  }

  /** A task marked by round `k` was in the worklist of some round up to `k`. */
  lemma {:induction false} TaskRoundAsWritten(g: Subgraph, k: nat, t: Task) returns (i: nat)
    requires t in TasksAsWritten(g, k)
    ensures i <= k && t in WorklistAsWritten(g, i)
  {
    if k == 0 || t in WorklistAsWritten(g, k) {
      i := k;
    } else {
      i := TaskRoundAsWritten(g, k - 1, t);
    }
  }

  /** A resource marked by round `k` was enqueued in some round up to `k`. */
  lemma {:induction false} ResourceRoundAsWritten(g: Subgraph, k: nat, r: Resource) returns (i: nat)
    requires r in ResourcesAsWritten(g, k)
    ensures i <= k && r in TightNeighbours(g.tight, WorklistAsWritten(g, i))
  {
    if k == 0 || r in TightNeighbours(g.tight, WorklistAsWritten(g, k)) {
      i := k;
    } else {
      i := ResourceRoundAsWritten(g, k - 1, r);
    }
  }

  /** Every closed pair contains what the unfiltered recursion marks. */
  lemma {:induction false} ClosedContainsAsWritten(g: Subgraph, rs: set<Resource>, ts: set<Task>, k: nat)
    requires Closed(g, rs, ts)
    ensures WorklistAsWritten(g, k) <= ts
    ensures TasksAsWritten(g, k) <= ts && ResourcesAsWritten(g, k) <= rs
  {
    if k > 0 {
      ClosedContainsAsWritten(g, rs, ts, k - 1);
      var w := WorklistAsWritten(g, k - 1);
      assert TightNeighbours(g.tight, w) <= rs;
      assert WorklistAsWritten(g, k) == MatchedNeighbours(g.matched, TightNeighbours(g.tight, w));
    }
    assert TightNeighbours(g.tight, WorklistAsWritten(g, k)) <= rs;
  }

  /** The resource of a tight bid from a marked task is marked by the same round. */
  lemma AsWrittenFollowsTight(g: Subgraph, k: nat, b: Bid)
    requires b in g.tight && b.task in TasksAsWritten(g, k)
    ensures b.resource in ResourcesAsWritten(g, k)
  {
    var i := TaskRoundAsWritten(g, k, b.task);
    assert b.resource in TightNeighbours(g.tight, WorklistAsWritten(g, i));
    AsWrittenAccumulates(g, i, k);
  }

  /**
   The task of a matched bid from a resource marked by round `k` is marked by
   round `k` too, provided the recursion returns in round `k`.
   */
  lemma AsWrittenFollowsMatched(g: Subgraph, k: nat, m: Bid)
    requires ReturnsAsWritten(g, k)
    requires m in g.matched && m.resource in ResourcesAsWritten(g, k)
    ensures m.task in TasksAsWritten(g, k)
  {
    var i := ResourceRoundAsWritten(g, k, m.resource);
    var w := WorklistAsWritten(g, i);
    assert m.task in MatchedNeighbours(g.matched, TightNeighbours(g.tight, w));
    assert m.task in WorklistAsWritten(g, i + 1);
    if i < k {
      AsWrittenAccumulates(g, i + 1, k);
    } else {
      assert false;
    }
  }

  /** When the unfiltered recursion returns in round `k`, what it has marked is closed. */
  lemma AsWrittenClosedWhenReturns(g: Subgraph, k: nat)
    requires ReturnsAsWritten(g, k)
    ensures Closed(g, ResourcesAsWritten(g, k), TasksAsWritten(g, k))
  {
    AsWrittenAccumulates(g, 0, k);
    forall b | b in g.tight && b.task in TasksAsWritten(g, k) ensures b.resource in ResourcesAsWritten(g, k) {
      AsWrittenFollowsTight(g, k, b);
    }
    forall m | m in g.matched && m.resource in ResourcesAsWritten(g, k) ensures m.task in TasksAsWritten(g, k) {
      AsWrittenFollowsMatched(g, k, m);
    }
  }

  /**
   Whenever the unfiltered recursion does return, in round `k`, what it has
   marked reachable is the least closed pair: the filter changes the result
   only of searches that would not have returned.
   */
  lemma AsWrittenResultWhenReturns(g: Subgraph, k: nat)
    requires ReturnsAsWritten(g, k)
    ensures LeastClosed(g, ResourcesAsWritten(g, k), TasksAsWritten(g, k))
  {
    AsWrittenClosedWhenReturns(g, k);
    forall rs', ts' | Closed(g, rs', ts')
      ensures ResourcesAsWritten(g, k) <= rs' && TasksAsWritten(g, k) <= ts'
    {
      ClosedContainsAsWritten(g, rs', ts', k);
    }
  }
}
