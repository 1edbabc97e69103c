/**
 The state of the primal-dual (Kuhn-Munkres) assignment method and the
 primitives a driver loop calls on it: potentials for resources and tasks,
 the partition of bids into loose, tight-unmatched and matched, the free
 resources and tasks, and the search for what is reachable from the free
 tasks along tight and matched bids.
 */
module Hungarian {
  import opened Assignment
  import opened Reachability

  /** Why `Match` or `Free` refused a bid; the state is then unchanged. */
  datatype Fault = UnknownBid | LooseBid | ResourceAlreadyMatched | TaskAlreadyMatched

  /** The result of `Match` or `Free`. */
  datatype Outcome = Done | Refused(fault: Fault)

  class HungarianAlgorithm {
    const resources: set<Resource>
    var freeResources: set<Resource>
    var resourcesToVisit: set<Resource>
    var resourcePotential: map<Resource, real>
    const tasks: set<Task>
    var freeTasks: set<Task>
    var tasksToVisit: set<Task>
    var taskPotential: map<Task, real>
    var looseBids: set<Bid>
    var matchedBids: set<Bid>
    var tightBids: set<Bid>
    var reachableResources: set<Resource>
    var reachableTasks: set<Task>

    /** The bids the state was built from. */
    ghost const bids: set<Bid>
    /**
     The reachable sets were computed by the last search and no bid or free
     set has changed since.
     */
    ghost var reachableCurrent: bool

    /** The edges the search follows: tight-unmatched and matched bids, from the free tasks. */
    ghost function Graph(): Subgraph
      reads this`tightBids, this`matchedBids, this`freeTasks
    {
      Subgraph(tightBids, matchedBids, freeTasks)
    }

    /** The invariant every operation keeps, also in the middle of a search. */
    ghost predicate Wellformed()
      reads this
    {
      && resourcePotential.Keys == resources
      && taskPotential.Keys == tasks
      && (forall b :: b in bids ==> b.resource in resources && b.task in tasks)
      && Partitioned(looseBids, tightBids, matchedBids, bids)
      && Matching(resources, tasks, matchedBids, freeResources, freeTasks)
      // search state
      && reachableResources <= resources && reachableTasks <= tasks
      && resourcesToVisit <= reachableResources && tasksToVisit <= reachableTasks
    }

    /** No search is under way: the worklists are empty. */
    ghost predicate Idle()
      reads this
    {
      && Wellformed()
      && resourcesToVisit == {} && tasksToVisit == {}
      && (reachableCurrent ==> LeastClosed(Graph(), reachableResources, reachableTasks))
    }

    /**
     The invariant between two calls: no search is under way, and every bid
     that is tight under the current potentials has left the loose set.
     */
    ghost predicate Valid()
      reads this
    {
      && Idle()
      && (forall b :: b in looseBids ==> !BidIsTight(b))
    }

    /**
     Every potential starts at 0, every resource and task is free, nothing is
     matched, and a bid is tight exactly when its cost is 0.
     */
    constructor (resources: set<Resource>, tasks: set<Task>, bids: set<Bid>)
      requires forall b :: b in bids ==> b.resource in resources && b.task in tasks
      ensures Valid()
      ensures this.resources == resources && this.tasks == tasks && this.bids == bids
      ensures resourcePotential.Keys == resources && (forall r :: r in resources ==> resourcePotential[r] == 0.0)
      ensures taskPotential.Keys == tasks && (forall t :: t in tasks ==> taskPotential[t] == 0.0)
      ensures freeResources == resources && freeTasks == tasks
      ensures matchedBids == {}
      ensures tightBids == set b | b in bids && b.cost == 0.0
      ensures looseBids == set b | b in bids && b.cost != 0.0
      ensures reachableResources == {} && reachableTasks == {}
    {
      this.resources := resources;
      freeResources := resources;
      reachableResources := {};
      resourcesToVisit := {};
      var rp: map<Resource, real> := map[];
      var rest := resources;
      while rest != {}
        invariant rest <= resources
        invariant rp.Keys == resources - rest
        invariant forall r :: r in rp ==> rp[r] == 0.0
        decreases rest
      {
        var r :| r in rest;
        rp := rp[r := 0.0];
        rest := rest - {r};
      }
      resourcePotential := rp;

      this.tasks := tasks;
      freeTasks := tasks;
      reachableTasks := {};
      tasksToVisit := {};
      var tp: map<Task, real> := map[];
      var restTasks := tasks;
      while restTasks != {}
        invariant restTasks <= tasks
        invariant tp.Keys == tasks - restTasks
        invariant forall t :: t in tp ==> tp[t] == 0.0
        decreases restTasks
      {
        var t :| t in restTasks;
        tp := tp[t := 0.0];
        restTasks := restTasks - {t};
      }
      taskPotential := tp;

      looseBids := bids;
      matchedBids := {};
      tightBids := {};
      this.bids := bids;
      reachableCurrent := false;
      new;
      FindTightBids();
    }

    /** The bid's cost equals the sum of its resource's and its task's potentials. */
    predicate BidIsTight(b: Bid)
      reads this`resourcePotential, this`taskPotential
      requires b.resource in resourcePotential && b.task in taskPotential
    {
      b.cost - resourcePotential[b.resource] - taskPotential[b.task] == 0.0
    }

    /**
     Moves every loose bid that is now tight into the tight set. Bids already
     tight or matched are not looked at again.
     */
    method FindTightBids()
      requires Idle()
      modifies this`looseBids, this`tightBids, this`reachableCurrent
      ensures Valid() && !reachableCurrent
      ensures tightBids == old(tightBids) + (set b | b in old(looseBids) && BidIsTight(b))
      ensures looseBids == set b | b in old(looseBids) && !BidIsTight(b)
      ensures forall b :: b in looseBids ==> !BidIsTight(b)
    {
      reachableCurrent := false;
      var rest := looseBids;
      while rest != {}
        invariant !reachableCurrent
        invariant Partitioned(looseBids, tightBids, matchedBids, bids)
        invariant rest <= looseBids
        invariant tightBids == old(tightBids) + (set b | b in old(looseBids) - rest && BidIsTight(b))
        invariant looseBids == rest + (set b | b in old(looseBids) - rest && !BidIsTight(b))
        decreases rest
      {
        var b :| b in rest;
        if BidIsTight(b) {
          tightBids := tightBids + {b};
          looseBids := looseBids - {b};
        }
        rest := rest - {b};
      }
    }

    /**
     Commits a tight bid whose resource and task are both free. An already
     matched bid is left alone; an unknown bid, a loose bid, or a bid whose
     resource or task is taken is refused.
     */
    method Match(b: Bid) returns (outcome: Outcome)
      requires Valid()
      modifies this`matchedBids, this`looseBids, this`tightBids, this`freeResources, this`freeTasks, this`reachableCurrent
      ensures Valid()
      ensures b in old(matchedBids) ==> outcome == Done
      ensures b !in old(matchedBids) && b !in old(looseBids) && b !in old(tightBids) ==> outcome == Refused(UnknownBid)
      ensures b in old(looseBids) ==> outcome == Refused(LooseBid)
      ensures b in old(tightBids) && b.resource !in old(freeResources) ==> outcome == Refused(ResourceAlreadyMatched)
      ensures b in old(tightBids) && b.resource in old(freeResources) && b.task !in old(freeTasks) ==>
                outcome == Refused(TaskAlreadyMatched)
      ensures b in old(matchedBids) || outcome.Refused? ==> unchanged(this)
      ensures b in old(tightBids) && b.resource in old(freeResources) && b.task in old(freeTasks) ==>
                && outcome == Done
                && matchedBids == old(matchedBids) + {b}
                && tightBids == old(tightBids) - {b}
                && looseBids == old(looseBids)
                && freeResources == old(freeResources) - {b.resource}
                && freeTasks == old(freeTasks) - {b.task}
                && !reachableCurrent
    {
      if b in matchedBids {
        return Done;
      }
      if b !in looseBids && b !in tightBids {
        return Refused(UnknownBid);
      }
      if b !in tightBids {
        return Refused(LooseBid);
      }
      var resource := b.resource;
      if resource !in freeResources {
        return Refused(ResourceAlreadyMatched);
      }
      var task := b.task;
      if task !in freeTasks {
        return Refused(TaskAlreadyMatched);
      }
      MatchKeepsMatching(resources, tasks, matchedBids, freeResources, freeTasks, b);
      TightToMatched(looseBids, tightBids, matchedBids, bids, b);
      reachableCurrent := false;
      matchedBids := matchedBids + {b};
      looseBids := looseBids - {b};
      tightBids := tightBids - {b};
      freeResources := freeResources - {resource};
      freeTasks := freeTasks - {task};
      outcome := Done;
    }

    /**
     Undoes a match: the bid goes back to the tight set, without its
     tightness being looked at again, and its resource and task are free once
     more. A loose bid is left alone; any other bid that is not matched is
     refused.
     */
    method Free(b: Bid) returns (outcome: Outcome)
      requires Valid()
      modifies this`matchedBids, this`tightBids, this`freeResources, this`freeTasks, this`reachableCurrent
      ensures Valid()
      ensures b in old(looseBids) ==> outcome == Done && unchanged(this)
      ensures b !in old(looseBids) && b !in old(matchedBids) ==> outcome == Refused(UnknownBid) && unchanged(this)
      ensures b in old(matchedBids) ==>
                && outcome == Done
                && tightBids == old(tightBids) + {b}
                && matchedBids == old(matchedBids) - {b}
                && freeResources == old(freeResources) + {b.resource}
                && freeTasks == old(freeTasks) + {b.task}
                && !reachableCurrent
    {
      if b in looseBids {
        return Done;
      }
      if b !in matchedBids {
        return Refused(UnknownBid);
      }
      var resource := b.resource;
      var task := b.task;
      FreeKeepsMatching(resources, tasks, matchedBids, freeResources, freeTasks, b);
      MatchedToTight(looseBids, tightBids, matchedBids, bids, b);
      reachableCurrent := false;
      tightBids := tightBids + {b};
      matchedBids := matchedBids - {b};
      freeResources := freeResources + {resource};
      freeTasks := freeTasks + {task};
      outcome := Done;
    }

    /**
     Starts a search: the reachable sets and the task worklist are seeded with
     the free tasks, then the worklists are visited in turn until one is empty.
     The reachable sets end up as the least closed pair of the current bids.
     */
    method VisitFromFreeTasks()
      requires Valid()
      modifies this`reachableResources, this`reachableTasks, this`resourcesToVisit, this`tasksToVisit, this`reachableCurrent
      ensures Valid() && reachableCurrent
      ensures LeastClosed(Graph(), reachableResources, reachableTasks)
    {
      reachableCurrent := false;
      reachableResources := {};
      reachableTasks := {};
      reachableTasks := reachableTasks + freeTasks;
      tasksToVisit := tasksToVisit + freeTasks;
      SearchStart(Graph());
      VisitTasks();
      reachableCurrent := true;
    }

    /**
     Follows every tight bid from a task of the task worklist and enqueues its
     resource if that is not yet reachable; then visits the resources found.
     With an empty task worklist this changes nothing.
     */
    method VisitTasks()
      requires Wellformed() && resourcesToVisit == {}
      requires tasksToVisit != {} ==> TaskFrontier(Graph(), reachableResources, reachableTasks, tasksToVisit)
      modifies this`reachableResources, this`reachableTasks, this`resourcesToVisit, this`tasksToVisit
      ensures Wellformed() && resourcesToVisit == {} && tasksToVisit == {}
      ensures old(tasksToVisit) == {} ==>
                reachableResources == old(reachableResources) && reachableTasks == old(reachableTasks)
      ensures old(TaskFrontier(Graph(), reachableResources, reachableTasks, tasksToVisit)) ==>
                LeastClosed(Graph(), reachableResources, reachableTasks)
      decreases tasks - reachableTasks, tasksToVisit, 1
    {
      ghost var rs0 := reachableResources;
      ghost var frontier := TaskFrontier(Graph(), reachableResources, reachableTasks, tasksToVisit);
      FollowTightBids();
      if tasksToVisit == {} {
        assert TightNeighbours(tightBids, tasksToVisit) == {};
      }
      if frontier {
        TaskPass(Graph(), rs0, reachableTasks, tasksToVisit);
      }
      tasksToVisit := {};
      if resourcesToVisit != {} {
        VisitResources();
      } else if frontier {
        ResourceFrontierDone(Graph(), reachableResources, reachableTasks);
      }
    }

    /**
     The loop of `VisitTasks`: every resource joined by a tight bid to a task
     of the task worklist becomes reachable, and is enqueued unless it was
     reachable already.
     */
    method FollowTightBids()
      requires Wellformed() && resourcesToVisit == {}
      modifies this`reachableResources, this`resourcesToVisit
      ensures Wellformed()
      ensures reachableResources == old(reachableResources) + TightNeighbours(tightBids, tasksToVisit)
      ensures resourcesToVisit == TightNeighbours(tightBids, tasksToVisit) - old(reachableResources)
    {
      var rest := tightBids;
      while rest != {}
        invariant rest <= tightBids
        invariant reachableResources == old(reachableResources) + TightNeighbours(tightBids - rest, tasksToVisit)
        invariant resourcesToVisit == reachableResources - old(reachableResources)
        decreases rest
      {
        var b :| b in rest;
        TightNeighboursGrow(tightBids - rest, b, tasksToVisit);
        assert tightBids - (rest - {b}) == (tightBids - rest) + {b};
        if b.task in tasksToVisit {
          var resource := b.resource;
          if resource !in reachableResources {
            reachableResources := reachableResources + {resource};
            resourcesToVisit := resourcesToVisit + {resource};
          }
        }
        rest := rest - {b};
      }
      assert tightBids - rest == tightBids;
    }

    /**
     Follows every matched bid from a resource of the resource worklist and
     enqueues its task if that is not yet reachable; then visits the tasks
     found.
     */
    method VisitResources()
      requires Wellformed() && tasksToVisit == {}
      requires ResourceFrontier(Graph(), reachableResources, reachableTasks, resourcesToVisit)
      modifies this`reachableResources, this`reachableTasks, this`resourcesToVisit, this`tasksToVisit
      ensures Wellformed() && resourcesToVisit == {} && tasksToVisit == {}
      ensures LeastClosed(Graph(), reachableResources, reachableTasks)
      decreases tasks - reachableTasks, tasksToVisit, 0
    {
      ghost var ts0 := reachableTasks;
      FollowMatchedBids();
      ResourcePass(Graph(), reachableResources, ts0, resourcesToVisit);
      resourcesToVisit := {};
      if tasksToVisit != {} {
        ghost var t :| t in tasksToVisit;
        assert t in tasks - ts0 && t !in tasks - reachableTasks;
        VisitTasks();
      } else {
        TaskFrontierDone(Graph(), reachableResources, reachableTasks);
      }
    }

    /**
     The loop of `VisitResources`: every task joined by a matched bid to a
     resource of the resource worklist becomes reachable, and is enqueued
     unless it was reachable already.
     */
    method FollowMatchedBids()
      requires Wellformed() && tasksToVisit == {}
      modifies this`reachableTasks, this`tasksToVisit
      ensures Wellformed()
      ensures reachableTasks == old(reachableTasks) + MatchedNeighbours(matchedBids, resourcesToVisit)
      ensures tasksToVisit == MatchedNeighbours(matchedBids, resourcesToVisit) - old(reachableTasks)
    {
      var rest := matchedBids;
      while rest != {}
        invariant rest <= matchedBids
        invariant reachableTasks == old(reachableTasks) + MatchedNeighbours(matchedBids - rest, resourcesToVisit)
        invariant tasksToVisit == reachableTasks - old(reachableTasks)
        decreases rest
      {
        var m :| m in rest;
        MatchedNeighboursGrow(matchedBids - rest, m, resourcesToVisit);
        assert matchedBids - (rest - {m}) == (matchedBids - rest) + {m};
        if m.resource in resourcesToVisit {
          var task := m.task;
          if task !in reachableTasks {
            reachableTasks := reachableTasks + {task};
            tasksToVisit := tasksToVisit + {task};
          }
        }
        rest := rest - {m};
      }
      assert matchedBids - rest == matchedBids;
    }

    /**
     Adds `increment` to the potential of `resource` alone, then moves the
     bids that have become tight out of the loose set.
     */
    method IncreaseResourcePotential(resource: Resource, increment: real)
      requires Valid() && resource in resources
      modifies this`resourcePotential, this`looseBids, this`tightBids, this`reachableCurrent
      ensures Valid()
      ensures resourcePotential == old(resourcePotential)[resource := old(resourcePotential)[resource] + increment]
      ensures old(tightBids) <= tightBids && looseBids <= old(looseBids)
      ensures tightBids == old(tightBids) + (set b | b in old(looseBids) && BidIsTight(b))
      ensures forall b :: b in looseBids ==> !BidIsTight(b)
      ensures forall b :: b in tightBids - old(tightBids) ==> b.resource == resource
    {
      var value := resourcePotential[resource] + increment;
      resourcePotential := resourcePotential[resource := value];
      reachableCurrent := false;
      FindTightBids();
      forall b | b in tightBids - old(tightBids) ensures b.resource == resource {
        assert b in old(looseBids) && BidIsTight(b) && old(!BidIsTight(b));
      }
    }

    /**
     Adds `increment` to the potential of `task` alone, then moves the bids
     that have become tight out of the loose set.
     */
    method IncreaseTaskPotential(task: Task, increment: real)
      requires Valid() && task in tasks
      modifies this`taskPotential, this`looseBids, this`tightBids, this`reachableCurrent
      ensures Valid()
      ensures taskPotential == old(taskPotential)[task := old(taskPotential)[task] + increment]
      ensures old(tightBids) <= tightBids && looseBids <= old(looseBids)
      ensures tightBids == old(tightBids) + (set b | b in old(looseBids) && BidIsTight(b))
      ensures forall b :: b in looseBids ==> !BidIsTight(b)
      ensures forall b :: b in tightBids - old(tightBids) ==> b.task == task
    {
      var value := taskPotential[task] + increment;
      taskPotential := taskPotential[task := value];
      reachableCurrent := false;
      FindTightBids();
      forall b | b in tightBids - old(tightBids) ensures b.task == task {
        assert b in old(looseBids) && BidIsTight(b) && old(!BidIsTight(b));
      }
    }

    /** The resources no matched bid uses. */
    function UnassignedResources(): (r: set<Resource>)
      reads this
      requires Valid()
      ensures r <= resources
      ensures forall x :: x in r <==> x in resources && forall m :: m in matchedBids ==> m.resource != x
    {
      freeResources
    }

    /** The tasks no matched bid uses. */
    function UnassignedTasks(): (r: set<Task>)
      reads this
      requires Valid()
      ensures r <= tasks
      ensures forall x :: x in r <==> x in tasks && forall m :: m in matchedBids ==> m.task != x
    {
      freeTasks
    }

    /** The tasks the last search reached. */
    function ReachableTasks(): (r: set<Task>)
      reads this
      requires Valid()
      ensures r <= tasks
      ensures reachableCurrent ==> freeTasks <= r && LeastClosed(Graph(), reachableResources, r)
    {
      reachableTasks
    }

    /** The resources the last search reached. */
    function ReachableResources(): (r: set<Resource>)
      reads this
      requires Valid()
      ensures r <= resources
      ensures reachableCurrent ==> LeastClosed(Graph(), r, reachableTasks)
    {
      reachableResources
    }
  }

  /**
   Matching a tight bid whose resource and task are free and then freeing it
   again restores the bid partition and the free sets.
   */
  method MatchThenFree(h: HungarianAlgorithm, b: Bid)
    requires h.Valid()
    requires b in h.tightBids && b.resource in h.freeResources && b.task in h.freeTasks
    modifies h
    ensures h.Valid()
    ensures h.looseBids == old(h.looseBids) && h.tightBids == old(h.tightBids) && h.matchedBids == old(h.matchedBids)
    ensures h.freeResources == old(h.freeResources) && h.freeTasks == old(h.freeTasks)
    ensures h.resourcePotential == old(h.resourcePotential) && h.taskPotential == old(h.taskPotential)
  {
    var matched := h.Match(b);
    var freed := h.Free(b);
  }
}
