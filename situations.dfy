/**
 Concrete situations: three people bidding for three chores, built the way
 the repository's tests build them, and a state with an alternating cycle on
 which the search without the "not yet reachable" filter never returns.
 */
module Situations {
  import opened Assignment
  import opened Reachability
  import opened Hungarian

  const Jim := Resource("Jim")
  const Steve := Resource("Steve")
  const Alan := Resource("Alan")

  const Bathroom := Task("Clean bathroom")
  const Floors := Task("Sweep floors")
  const Windows := Task("Wash windows")

  const JimBathroom := Bid(Jim, Bathroom, 1.0)
  const JimFloors := Bid(Jim, Floors, 2.0)
  const JimWindows := Bid(Jim, Windows, 3.0)
  const SteveBathroom := Bid(Steve, Bathroom, 3.0)
  const SteveFloors := Bid(Steve, Floors, 3.0)
  const SteveWindows := Bid(Steve, Windows, 3.0)
  const AlanBathroom := Bid(Alan, Bathroom, 3.0)
  const AlanFloors := Bid(Alan, Floors, 3.0)
  const AlanWindows := Bid(Alan, Windows, 2.0)

  const People: set<Resource> := {Jim, Steve, Alan}
  const Chores: set<Task> := {Bathroom, Floors, Windows}
  const ChoreBids: set<Bid> :=
    {JimBathroom, JimFloors, JimWindows, SteveBathroom, SteveFloors, SteveWindows, AlanBathroom, AlanFloors, AlanWindows}

  lemma NoBidCostsNothing()
    ensures (set b | b in ChoreBids && b.cost == 0.0) == {}
    ensures (set b | b in ChoreBids && b.cost != 0.0) == ChoreBids
  {
  }

  lemma OnlyJimBathroomTight(h: HungarianAlgorithm)
    requires h.resourcePotential == map[Jim := 1.0, Steve := 0.0, Alan := 0.0]
    requires h.taskPotential == map[Bathroom := 0.0, Floors := 0.0, Windows := 0.0]
    ensures (set b | b in ChoreBids && h.BidIsTight(b)) == {JimBathroom}
    ensures (set b | b in ChoreBids && !h.BidIsTight(b)) == ChoreBids - {JimBathroom}
  {
    assert h.BidIsTight(JimBathroom);
  }

  /** The fixture as constructed: every potential 0, so no bid is tight. */
  method CreateInitialState() returns (h: HungarianAlgorithm)
    ensures fresh(h) && h.Valid()
    ensures h.resources == People && h.tasks == Chores && h.bids == ChoreBids
    ensures h.resourcePotential == map[Jim := 0.0, Steve := 0.0, Alan := 0.0]
    ensures h.taskPotential == map[Bathroom := 0.0, Floors := 0.0, Windows := 0.0]
    ensures h.looseBids == ChoreBids && h.tightBids == {} && h.matchedBids == {}
    ensures h.freeResources == People && h.freeTasks == Chores
  {
    NoBidCostsNothing();
    h := new HungarianAlgorithm(People, Chores, ChoreBids);
  }

  /** Jim's potential raised by 1, which makes Jim-Bathroom, and only it, tight. */
  method CreateWithOneTightBid() returns (h: HungarianAlgorithm)
    ensures fresh(h) && h.Valid()
    ensures h.tightBids == {JimBathroom} && h.matchedBids == {}
    ensures h.freeResources == People && h.freeTasks == Chores
  {
    h := CreateInitialState();
    h.IncreaseResourcePotential(Jim, 1.0);
    OnlyJimBathroomTight(h);
  }

  /** The state with one tight bid, after Jim-Bathroom is matched. */
  method CreateWithOneMatch() returns (h: HungarianAlgorithm)
    ensures fresh(h) && h.Valid()
    ensures h.tightBids == {} && h.matchedBids == {JimBathroom}
    ensures h.freeResources == {Steve, Alan} && h.freeTasks == {Floors, Windows}
  {
    h := CreateWithOneTightBid();
    var outcome := h.Match(JimBathroom);
  }

  /** With Jim-Bathroom matched, Steve and Alan are the unassigned resources. */
  method FindUnassignedResources() returns (free: set<Resource>)
    ensures free == {Alan, Steve}
  {
    var h := CreateWithOneMatch();
    free := h.UnassignedResources();
  }

  /** With Jim-Bathroom matched, Floors and Windows are the unassigned tasks. */
  method FindUnassignedTasks() returns (free: set<Task>)
    ensures free == {Floors, Windows}
  {
    var h := CreateWithOneMatch();
    free := h.UnassignedTasks();
  }

  /** With only Jim-Bathroom tight, every chore and Jim alone are reachable. */
  method ReachableWithOneTightBid() returns (reachableTasks: set<Task>, reachableResources: set<Resource>)
    ensures reachableTasks == {Bathroom, Floors, Windows}
    ensures reachableResources == {Jim}
  {
    var h := CreateWithOneTightBid();
    h.VisitFromFreeTasks();
    reachableTasks := h.ReachableTasks();
    reachableResources := h.ReachableResources();
    var g := h.Graph();
    assert Closed(g, {Jim}, Chores);
    assert JimBathroom in g.tight && Bathroom in reachableTasks;
  }

  /** With Jim-Bathroom matched, only the free chores are reachable, and no person. */
  method ReachableWithOneMatch() returns (reachableTasks: set<Task>, reachableResources: set<Resource>)
    ensures reachableTasks == {Floors, Windows}
    ensures reachableResources == {}
  {
    var h := CreateWithOneMatch();
    h.VisitFromFreeTasks();
    reachableTasks := h.ReachableTasks();
    reachableResources := h.ReachableResources();
    assert Closed(h.Graph(), {}, {Floors, Windows});
  }

  // ---------------------------------------------------------------------
  // An alternating cycle

  const JimBathroomFree := Bid(Jim, Bathroom, 0.0)
  const JimFloorsFree := Bid(Jim, Floors, 0.0)
  const JimWindowsFree := Bid(Jim, Windows, 0.0)
  const SteveFloorsFree := Bid(Steve, Floors, 0.0)
  const SteveWindowsFree := Bid(Steve, Windows, 0.0)

  /**
   Jim is matched to Floors and Steve to Windows; Jim-Windows and
   Steve-Floors are tight, and Jim is joined by a tight bid to the free
   Bathroom.
   */
  const Cycle := Subgraph({JimBathroomFree, JimWindowsFree, SteveFloorsFree}, {JimFloorsFree, SteveWindowsFree}, {Bathroom})

  const CycleBids: set<Bid> := {JimBathroomFree, JimFloorsFree, JimWindowsFree, SteveFloorsFree, SteveWindowsFree}

  lemma CycleBidsCostNothing()
    ensures (set b | b in CycleBids && b.cost == 0.0) == CycleBids
    ensures (set b | b in CycleBids && b.cost != 0.0) == {}
  {
  }

  /** Five bids of cost 0, all of them tight at construction. */
  method CreateAllTight() returns (h: HungarianAlgorithm)
    ensures fresh(h) && h.Valid()
    ensures h.tightBids == CycleBids && h.matchedBids == {}
    ensures h.freeResources == {Jim, Steve} && h.freeTasks == Chores
  {
    CycleBidsCostNothing();
    h := new HungarianAlgorithm({Jim, Steve}, Chores, CycleBids);
  }

  /** Jim-Floors matched, the other four zero-cost bids tight. */
  method CreateHalfCycle() returns (h: HungarianAlgorithm)
    ensures fresh(h) && h.Valid()
    ensures h.tightBids == {JimBathroomFree, JimWindowsFree, SteveFloorsFree, SteveWindowsFree}
    ensures h.matchedBids == {JimFloorsFree}
    ensures h.freeResources == {Steve} && h.freeTasks == {Bathroom, Windows}
  {
    h := CreateAllTight();
    var outcome := h.Match(JimFloorsFree);
  }

  /** The cycle is built by matching Jim-Floors and then Steve-Windows. */
  method CreateWithCycle() returns (h: HungarianAlgorithm)
    ensures fresh(h) && h.Valid()
    ensures h.Graph() == Cycle
  {
    h := CreateHalfCycle();
    var outcome := h.Match(SteveWindowsFree);
  }

  /** On the cycle the search with the filter returns, having reached everything. */
  method ReachableOnCycle() returns (reachableTasks: set<Task>, reachableResources: set<Resource>)
    ensures reachableTasks == {Bathroom, Floors, Windows}
    ensures reachableResources == {Jim, Steve}
  {
    var h := CreateWithCycle();
    h.VisitFromFreeTasks();
    reachableTasks := h.ReachableTasks();
    reachableResources := h.ReachableResources();
    assert Closed(Cycle, {Jim, Steve}, Chores);
    assert JimBathroomFree in Cycle.tight && Bathroom in reachableTasks;
    assert JimFloorsFree in Cycle.matched && Jim in reachableResources;
    assert SteveFloorsFree in Cycle.tight && Floors in reachableTasks;
    assert SteveWindowsFree in Cycle.matched && Steve in reachableResources;
  }

  lemma CycleTightFromBathroom()
    ensures TightNeighbours(Cycle.tight, {Bathroom}) == {Jim}
  {
    assert JimBathroomFree in Cycle.tight;
  }

  lemma CycleTightFromFloors()
    ensures TightNeighbours(Cycle.tight, {Floors}) == {Steve}
  {
    assert SteveFloorsFree in Cycle.tight;
  }

  lemma CycleTightFromWindows()
    ensures TightNeighbours(Cycle.tight, {Windows}) == {Jim}
  {
    assert JimWindowsFree in Cycle.tight;
  }

  lemma CycleMatchedFromJim()
    ensures MatchedNeighbours(Cycle.matched, {Jim}) == {Floors}
  {
    assert JimFloorsFree in Cycle.matched;
  }

  lemma CycleMatchedFromSteve()
    ensures MatchedNeighbours(Cycle.matched, {Steve}) == {Windows}
  {
    assert SteveWindowsFree in Cycle.matched;
  }

  /**
   Without the filter the task worklist alternates between {Floors} and
   {Windows} for ever, and every round enqueues a resource, so the mutual
   recursion never returns.
   */
  lemma {:induction false} AsWrittenNeverReturns(k: nat)
    ensures WorklistAsWritten(Cycle, k + 1) == if k % 2 == 0 then {Floors} else {Windows}
    ensures !ReturnsAsWritten(Cycle, k)
  {
    var w := WorklistAsWritten(Cycle, k);
    assert WorklistAsWritten(Cycle, k + 1) == RoundAsWritten(Cycle, w);
    if k == 0 {
      assert w == {Bathroom};
      CycleTightFromBathroom();
      CycleMatchedFromJim();
    } else {
      AsWrittenNeverReturns(k - 1);
      if k % 2 == 0 {
        assert w == {Windows};
        CycleTightFromWindows();
        CycleMatchedFromJim();
      } else {
        assert w == {Floors};
        CycleTightFromFloors();
        CycleMatchedFromSteve();
      }
    }
  }
}
