/**
 The entities of the weighted assignment problem: resources, tasks and the
 bids that pair them at a cost, with the projections of a set of bids onto
 the resources and tasks it uses.
 */
module Assignment {

  /** A supply-side agent, known only by its identity. */
  datatype Resource = Resource(name: string)

  /** A demand-side unit of work, known only by its identity. */
  datatype Task = Task(name: string)

  /** An immutable offer of `resource` to do `task` at `cost`. */
  datatype Bid = Bid(resource: Resource, task: Task, cost: real)

  /** The resources that occur in some bid of `bids`. */
  function ResourcesOf(bids: set<Bid>): set<Resource>
  {
    set b | b in bids :: b.resource
  }

  /** The tasks that occur in some bid of `bids`. */
  function TasksOf(bids: set<Bid>): set<Task>
  {
    set b | b in bids :: b.task
  }

  /** No resource and no task occurs in two different bids of `bids`. */
  predicate OneToOne(bids: set<Bid>)
  {
    forall m1, m2 :: m1 in bids && m2 in bids && (m1.resource == m2.resource || m1.task == m2.task) ==> m1 == m2
  }

  /** Every bid of `bids` is in exactly one of `loose`, `tight` and `matched`. */
  predicate Partitioned(loose: set<Bid>, tight: set<Bid>, matched: set<Bid>, bids: set<Bid>)
  {
    && loose !! tight && loose !! matched && tight !! matched
    && loose + tight + matched == bids
  }

  /** Moving a tight bid to the matched set keeps the partition. */
  lemma TightToMatched(loose: set<Bid>, tight: set<Bid>, matched: set<Bid>, bids: set<Bid>, b: Bid)
    requires Partitioned(loose, tight, matched, bids) && b in tight
    ensures Partitioned(loose - {b}, tight - {b}, matched + {b}, bids)
    ensures loose - {b} == loose
  {
  }

  /** Moving a matched bid back to the tight set keeps the partition. */
  lemma MatchedToTight(loose: set<Bid>, tight: set<Bid>, matched: set<Bid>, bids: set<Bid>, b: Bid)
    requires Partitioned(loose, tight, matched, bids) && b in matched
    ensures Partitioned(loose, tight + {b}, matched - {b}, bids)
  {
  }

  /**
   `matched` uses no resource and no task twice, and the free resources and
   tasks are exactly those it does not use.
   */
  predicate Matching(resources: set<Resource>, tasks: set<Task>, matched: set<Bid>,
                     freeResources: set<Resource>, freeTasks: set<Task>)
  {
    && OneToOne(matched)
    && freeResources == resources - ResourcesOf(matched)
    && freeTasks == tasks - TasksOf(matched)
  }

  /**
   Matching a bid whose resource and task are both free keeps the matching
   invariant, with its resource and task no longer free.
   */
  lemma MatchKeepsMatching(resources: set<Resource>, tasks: set<Task>, matched: set<Bid>,
                           freeResources: set<Resource>, freeTasks: set<Task>, b: Bid)
    requires Matching(resources, tasks, matched, freeResources, freeTasks)
    requires b.resource in freeResources && b.task in freeTasks
    ensures Matching(resources, tasks, matched + {b}, freeResources - {b.resource}, freeTasks - {b.task})
  {
    forall m | m in matched ensures m.resource != b.resource && m.task != b.task {
      assert m.resource in ResourcesOf(matched);
      assert m.task in TasksOf(matched);
    }
    assert ResourcesOf(matched + {b}) == ResourcesOf(matched) + {b.resource};
    assert TasksOf(matched + {b}) == TasksOf(matched) + {b.task};
  }

  /**
   Freeing a matched bid keeps the matching invariant, with its resource and
   task free again.
   */
  lemma FreeKeepsMatching(resources: set<Resource>, tasks: set<Task>, matched: set<Bid>,
                          freeResources: set<Resource>, freeTasks: set<Task>, b: Bid)
    requires Matching(resources, tasks, matched, freeResources, freeTasks)
    requires b in matched && b.resource in resources && b.task in tasks
    ensures Matching(resources, tasks, matched - {b}, freeResources + {b.resource}, freeTasks + {b.task})
  {
    forall r | r in ResourcesOf(matched) - {b.resource} ensures r in ResourcesOf(matched - {b}) {
      var m :| m in matched && m.resource == r;
      assert m != b;
    }
    forall t | t in TasksOf(matched) - {b.task} ensures t in TasksOf(matched - {b}) {
      var m :| m in matched && m.task == t;
      assert m != b;
    }
    assert ResourcesOf(matched - {b}) == ResourcesOf(matched) - {b.resource};
    assert TasksOf(matched - {b}) == TasksOf(matched) - {b.task};
  }
}
