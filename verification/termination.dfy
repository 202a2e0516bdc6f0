/**
 * When the tree stop ends. The recursion descends into every admitted child and keeps no
 * record of the pids already on its way down. On a table whose recorded parent links are
 * acyclic (`Ranked`) it ends, and that is the stop the rest of the model describes. A reused
 * pid can close a cycle that the start-time fence admits, and then the children-first
 * recursion descends without end.
 *
 * The recursion as written is modelled with a depth bound (`None`: it needs more than
 * `depth` nested levels). The corrected traversal does not descend into a pid that is
 * already on the current path; it ends on every table and coincides with the stop as
 * written wherever the table is acyclic.
 */
module StopTermination {
  import opened Wrappers
  import opened Processes
  import opened TreeStop

  /** The pids present in the table. */
  ghost function Pids(rows: seq<ProcessEntry>): set<int> {
    set row | row in rows :: row.pid
  }

  /** The tree stop as written, allowed `depth` nested levels of children; `None` when it needs more. */
  ghost function StopTreeWithin(s: State, pid: int, fence: Option<int>, parentFirst: bool, o: Oracle, depth: nat): Option<Run>
    decreases depth, 1, 0
  {
    var f := ResolveFence(s.rows, pid, fence);
    if !parentFirst then
      var kids := Discovered(s.rows, pid, f, o.enumFailAt(pid));
      var below := StopForestWithin(State(s.rows, s.trace + [Enumerate(pid, f)]), pid, kids, f, false, o, depth);
      if below.None? || below.value.outcome.KillFailed? then below
      else Some(StopOne(below.value.state, pid, o.interruptExits(pid), o.kill(pid)))
    else
      var top := StopOne(s, pid, o.interruptExits(pid), o.kill(pid));
      if top.outcome.KillFailed? then Some(top)
      else
        var kids := Discovered(top.state.rows, pid, f, o.enumFailAt(pid));
        StopForestWithin(State(top.state.rows, top.state.trace + [Enumerate(pid, f)]), pid, kids, f, true, o, depth)
  }

  ghost function StopForestWithin(s: State, parent: int, kids: seq<int>, fence: Option<int>, parentFirst: bool, o: Oracle, depth: nat): Option<Run>
    decreases depth, 0, |kids|
  {
    if kids == [] then Some(Run(s, Completed))
    else if depth == 0 then None
    else
      var first := StopTreeWithin(s, kids[0], fence, parentFirst, o, depth - 1);
      if first.None? || first.value.outcome.KillFailed? then first
      else StopForestWithin(first.value.state, parent, kids[1..], fence, parentFirst, o, depth)
  }

  /** On an acyclic table the recursion as written ends within `rank(pid)` levels, with the stop the model describes. */
  lemma {:induction false} WithinAgrees(s: State, pid: int, fence: Option<int>, parentFirst: bool, o: Oracle, rank: int -> nat, depth: nat)
    requires Ranked(s.rows, rank) && rank(pid) <= depth
    ensures StopTreeWithin(s, pid, fence, parentFirst, o, depth) == Some(StopTree(s, pid, fence, parentFirst, o, rank))
    decreases rank(pid), 1, 0
  {
    var f := ResolveFence(s.rows, pid, fence);
    if !parentFirst {
      var kids := Discovered(s.rows, pid, f, o.enumFailAt(pid));
      DiscoveredRankBelow(s.rows, rank, pid, f, o.enumFailAt(pid));
      ForestWithinAgrees(State(s.rows, s.trace + [Enumerate(pid, f)]), pid, kids, f, false, o, rank, depth);
    } else {
      var top := StopOne(s, pid, o.interruptExits(pid), o.kill(pid));
      if top.outcome.Completed? {
        var kids := Discovered(top.state.rows, pid, f, o.enumFailAt(pid));
        DiscoveredRankBelow(top.state.rows, rank, pid, f, o.enumFailAt(pid));
        ForestWithinAgrees(State(top.state.rows, top.state.trace + [Enumerate(pid, f)]), pid, kids, f, true, o, rank, depth);
      }
    }
  }

  lemma {:induction false} ForestWithinAgrees(s: State, parent: int, kids: seq<int>, fence: Option<int>, parentFirst: bool, o: Oracle,
                                              rank: int -> nat, depth: nat)
    requires Ranked(s.rows, rank)
    requires forall k :: k in kids ==> rank(k) < rank(parent) && rank(k) < depth
    ensures StopForestWithin(s, parent, kids, fence, parentFirst, o, depth) == Some(StopForest(s, parent, kids, fence, parentFirst, o, rank))
    decreases rank(parent), 0, |kids|
  {
    if kids != [] {
      assert kids[0] in kids;
      var first := StopTree(s, kids[0], fence, parentFirst, o, rank);
      WithinAgrees(s, kids[0], fence, parentFirst, o, rank, depth - 1);
      assert StopTreeWithin(s, kids[0], fence, parentFirst, o, depth - 1) == Some(first);
      if first.outcome.Completed? {
        ForestWithinAgrees(first.state, parent, kids[1..], fence, parentFirst, o, rank, depth);
        assert StopForestWithin(s, parent, kids, fence, parentFirst, o, depth)
            == StopForestWithin(first.state, parent, kids[1..], fence, parentFirst, o, depth);
        assert StopForest(s, parent, kids, fence, parentFirst, o, rank)
            == StopForest(first.state, parent, kids[1..], fence, parentFirst, o, rank);
      } else {
        assert StopForestWithin(s, parent, kids, fence, parentFirst, o, depth) == Some(first);
        assert StopForest(s, parent, kids, fence, parentFirst, o, rank) == first;
      }
    }
  }

  /** Two processes whose recorded parents are each other: 100 (parent 200, started at 10) and 200 (parent 100, started at 20). */
  const CycleRows: seq<ProcessEntry> := [ProcessEntry(100, 200, 10), ProcessEntry(200, 100, 20)]

  /** Every process leaves on the interrupt and no lookup fails. */
  const Quiet: Oracle := Oracle(_ => true, _ => Killed, _ => None)

  /** Under the fence 10, each of the two processes is discovered as the only child of the other. */
  lemma CycleChildren()
    ensures Discovered(CycleRows, 100, Some(10), None) == [200]
    ensures Discovered(CycleRows, 200, Some(10), None) == [100]
  {
    var a := CycleRows[0];
    var b := CycleRows[1];
    assert CycleRows[1..] == [b] && [b][1..] == [];
    assert Candidates(CycleRows, 100) == [b];
    assert Candidates(CycleRows, 200) == [a];
    assert Harvest([b], 1, Some(10)) == Harvest([b], 0, Some(10)) + [200];
    assert Harvest([a], 1, Some(10)) == Harvest([a], 0, Some(10)) + [100];
  }

  /** Stopping 100 resolves the fence to its own start time, 10. */
  lemma CycleFence()
    ensures ResolveFence(CycleRows, 100, None) == Some(10)
  {
    var a := CycleRows[0];
    assert CycleRows[1..] == [CycleRows[1]];
    assert !Live(CycleRows[1..], a.pid);
    assert Distinct(CycleRows[1..][1..]);
    assert Distinct(CycleRows);
    assert a in CycleRows;
  }

  lemma {:induction false} CycleLevels(depth: nat, trace: seq<Event>)
    ensures StopTreeWithin(State(CycleRows, trace), 100, Some(10), false, Quiet, depth).None?
    ensures StopTreeWithin(State(CycleRows, trace), 200, Some(10), false, Quiet, depth).None?
  {
    CycleChildren();
    if depth > 0 {
      CycleLevels(depth - 1, trace + [Enumerate(100, Some(10))]);
      CycleLevels(depth - 1, trace + [Enumerate(200, Some(10))]);
      assert [200][0] == 200 && [100][0] == 100;
    }
  }

  /**
   * The recursion as written does not end: stopping 100 children first on the two-process
   * cycle needs more nested levels than any bound.
   */
  lemma CycleNeverFinishes(depth: nat, trace: seq<Event>)
    ensures StopTreeWithin(State(CycleRows, trace), 100, None, false, Quiet, depth).None?
  {
    CycleFence();
    CycleChildren();
    CycleLevels(depth, trace);
  }

  /** Removing one more pid of the universe from consideration shrinks the measure of the guarded traversal. */
  lemma Shrink(universe: set<int>, path: set<int>, k: int)
    requires k in universe && k !in path
    ensures |universe - (path + {k})| < |universe - path|
  {
    assert universe - path == (universe - (path + {k})) + {k};
  }

  lemma PidsMono(rows: seq<ProcessEntry>, sub: seq<ProcessEntry>)
    requires forall row :: row in sub ==> row in rows
    ensures Pids(sub) <= Pids(rows)
  {
  }

  lemma DiscoveredPids(rows: seq<ProcessEntry>, pid: int, fence: Option<int>, failAt: Option<nat>)
    ensures forall k :: k in Discovered(rows, pid, fence, failAt) ==> k in Pids(rows)
  {
    forall k | k in Discovered(rows, pid, fence, failAt)
      ensures k in Pids(rows)
    {
      var row :| row in rows && row.pid == k && row.parentPid == pid;
    }
  }

  /**
   * The corrected tree stop: like the stop as written, except that a child already on the
   * current path (`path`, the pids whose levels are still open) is not descended into again.
   * `universe` holds every pid of the table, so the traversal ends on every table.
   */
  ghost function StopTreeGuarded(s: State, pid: int, fence: Option<int>, parentFirst: bool, o: Oracle,
                                 path: set<int>, universe: set<int>): (r: Run)
    requires Pids(s.rows) <= universe
    ensures forall row :: row in r.state.rows ==> row in s.rows
    decreases |universe - path|, 1, 0
  {
    var f := ResolveFence(s.rows, pid, fence);
    if !parentFirst then
      var kids := Discovered(s.rows, pid, f, o.enumFailAt(pid));
      DiscoveredPids(s.rows, pid, f, o.enumFailAt(pid));
      var below := StopForestGuarded(State(s.rows, s.trace + [Enumerate(pid, f)]), pid, kids, f, false, o, path, universe);
      if below.outcome.KillFailed? then below
      else StopOne(below.state, pid, o.interruptExits(pid), o.kill(pid))
    else
      var top := StopOne(s, pid, o.interruptExits(pid), o.kill(pid));
      if top.outcome.KillFailed? then top
      else
        var kids := Discovered(top.state.rows, pid, f, o.enumFailAt(pid));
        DiscoveredPids(top.state.rows, pid, f, o.enumFailAt(pid));
        PidsMono(s.rows, top.state.rows);
        StopForestGuarded(State(top.state.rows, top.state.trace + [Enumerate(pid, f)]), pid, kids, f, true, o, path, universe)
  }

  ghost function StopForestGuarded(s: State, parent: int, kids: seq<int>, fence: Option<int>, parentFirst: bool, o: Oracle,
                                   path: set<int>, universe: set<int>): (r: Run)
    requires Pids(s.rows) <= universe
    requires forall k :: k in kids ==> k in universe
    ensures forall row :: row in r.state.rows ==> row in s.rows
    decreases |universe - path|, 0, |kids|
  {
    if kids == [] then Run(s, Completed)
    else if kids[0] in path then
      StopForestGuarded(s, parent, kids[1..], fence, parentFirst, o, path, universe)
    else
      assert kids[0] in kids;
      Shrink(universe, path, kids[0]);
      var first := StopTreeGuarded(s, kids[0], fence, parentFirst, o, path + {kids[0]}, universe);
      if first.outcome.KillFailed? then first
      else
        PidsMono(s.rows, first.state.rows);
        StopForestGuarded(first.state, parent, kids[1..], fence, parentFirst, o, path, universe)
  }

  /** The corrected stop of the tree under `pid`, started with `pid` as the only open level. */
  ghost function StopTreeCorrected(s: State, pid: int, fence: Option<int>, parentFirst: bool, o: Oracle): (r: Run)
    ensures forall row :: row in r.state.rows ==> row in s.rows
  {
    StopTreeGuarded(s, pid, fence, parentFirst, o, {pid}, Pids(s.rows))
  }

  /** On an acyclic table no child is ever on the open path, so the guard never fires. */
  lemma {:induction false} GuardedAgrees(s: State, pid: int, fence: Option<int>, parentFirst: bool, o: Oracle,
                                         path: set<int>, universe: set<int>, rank: int -> nat)
    requires Ranked(s.rows, rank) && Pids(s.rows) <= universe
    requires forall a :: a in path ==> rank(pid) <= rank(a)
    ensures StopTreeGuarded(s, pid, fence, parentFirst, o, path, universe) == StopTree(s, pid, fence, parentFirst, o, rank)
    decreases rank(pid), 1, 0
  {
    var f := ResolveFence(s.rows, pid, fence);
    if !parentFirst {
      var kids := Discovered(s.rows, pid, f, o.enumFailAt(pid));
      DiscoveredRankBelow(s.rows, rank, pid, f, o.enumFailAt(pid));
      DiscoveredPids(s.rows, pid, f, o.enumFailAt(pid));
      ForestGuardedAgrees(State(s.rows, s.trace + [Enumerate(pid, f)]), pid, kids, f, false, o, path, universe, rank);
    } else {
      var top := StopOne(s, pid, o.interruptExits(pid), o.kill(pid));
      if top.outcome.Completed? {
        var kids := Discovered(top.state.rows, pid, f, o.enumFailAt(pid));
        DiscoveredRankBelow(top.state.rows, rank, pid, f, o.enumFailAt(pid));
        DiscoveredPids(top.state.rows, pid, f, o.enumFailAt(pid));
        PidsMono(s.rows, top.state.rows);
        ForestGuardedAgrees(State(top.state.rows, top.state.trace + [Enumerate(pid, f)]), pid, kids, f, true, o, path, universe, rank);
      }
    }
  }

  lemma {:induction false} ForestGuardedAgrees(s: State, parent: int, kids: seq<int>, fence: Option<int>, parentFirst: bool, o: Oracle,
                                               path: set<int>, universe: set<int>, rank: int -> nat)
    requires Ranked(s.rows, rank) && Pids(s.rows) <= universe
    requires forall k :: k in kids ==> k in universe && rank(k) < rank(parent)
    requires forall a :: a in path ==> rank(parent) <= rank(a)
    ensures StopForestGuarded(s, parent, kids, fence, parentFirst, o, path, universe) == StopForest(s, parent, kids, fence, parentFirst, o, rank)
    decreases rank(parent), 0, |kids|
  {
    if kids != [] {
      assert kids[0] in kids;
      var first := StopTree(s, kids[0], fence, parentFirst, o, rank);
      GuardedAgrees(s, kids[0], fence, parentFirst, o, path + {kids[0]}, universe, rank);
      if first.outcome.Completed? {
        PidsMono(s.rows, first.state.rows);
        ForestGuardedAgrees(first.state, parent, kids[1..], fence, parentFirst, o, path, universe, rank);
      }
    }
  }

  /** Wherever the stop as written ends by rank, the corrected stop is the same stop. */
  lemma CorrectedAgrees(s: State, pid: int, fence: Option<int>, parentFirst: bool, o: Oracle, rank: int -> nat)
    requires Ranked(s.rows, rank)
    ensures StopTreeCorrected(s, pid, fence, parentFirst, o) == StopTree(s, pid, fence, parentFirst, o, rank)
  {
    GuardedAgrees(s, pid, fence, parentFirst, o, {pid}, Pids(s.rows), rank);
  }

  /** The trace of the corrected stop of 100 up to the lookup of the children of 200. */
  const CycleLookups: seq<Event> := [Enumerate(100, Some(10)), Enumerate(200, Some(10))]

  lemma CycleUniverse()
    ensures Pids(CycleRows) == {100, 200}
  {
    assert CycleRows[0] in CycleRows && CycleRows[1] in CycleRows;
  }

  /** A single child that is already open is skipped. */
  lemma OneOpenChild(s: State, parent: int, k: int, fence: Option<int>, parentFirst: bool, o: Oracle, path: set<int>, universe: set<int>)
    requires Pids(s.rows) <= universe && k in universe && k in path
    ensures StopForestGuarded(s, parent, [k], fence, parentFirst, o, path, universe) == Run(s, Completed)
  {
    assert [k][0] == k && [k][1..] == [];
  }

  /** A single child that is not open is stopped as a level of its own. */
  lemma OneNewChild(s: State, parent: int, k: int, fence: Option<int>, parentFirst: bool, o: Oracle, path: set<int>, universe: set<int>)
    requires Pids(s.rows) <= universe && k in universe && k !in path
    ensures StopForestGuarded(s, parent, [k], fence, parentFirst, o, path, universe)
         == StopTreeGuarded(s, k, fence, parentFirst, o, path + {k}, universe)
  {
    assert [k][0] == k && [k][1..] == [];
  }

  /** At the level of 200, with 100 and 200 open, its only child 100 is on the path and is skipped: the level only stops 200. */
  lemma CycleLevel200()
    ensures StopTreeGuarded(State(CycleRows, CycleLookups[..1]), 200, Some(10), false, Quiet, {100, 200}, {100, 200})
         == StopOne(State(CycleRows, CycleLookups), 200, true, Killed)
  {
    CycleUniverse();
    CycleChildren();
    OneOpenChild(State(CycleRows, CycleLookups), 200, 100, Some(10), false, Quiet, {100, 200}, {100, 200});
    assert CycleLookups[..1] + [Enumerate(200, Some(10))] == CycleLookups;
  }

  /** Below 100, the only child 200 is stopped as its own level. */
  lemma CycleBelow100()
    ensures StopForestGuarded(State(CycleRows, CycleLookups[..1]), 100, [200], Some(10), false, Quiet, {100}, {100, 200})
         == StopOne(State(CycleRows, CycleLookups), 200, true, Killed)
  {
    CycleUniverse();
    OneNewChild(State(CycleRows, CycleLookups[..1]), 100, 200, Some(10), false, Quiet, {100}, {100, 200});
    assert {100} + {200} == {100, 200};
    CycleLevel200();
  }

  /** The level of 100 stops its child 200, then 100. */
  lemma CycleLevel100()
    ensures var t200 := StopOne(State(CycleRows, CycleLookups), 200, true, Killed);
      StopTreeCorrected(State(CycleRows, []), 100, None, false, Quiet) == StopOne(t200.state, 100, true, Killed)
  {
    CycleUniverse();
    CycleFence();
    CycleChildren();
    CycleBelow100();
    assert [] + [Enumerate(100, Some(10))] == CycleLookups[..1];
  }

  /** On the two-process cycle the corrected stop ends, with both processes stopped. */
  lemma CorrectedFinishesCycle()
    ensures var r := StopTreeCorrected(State(CycleRows, []), 100, None, false, Quiet);
      r.outcome.Completed? && r.state.rows == []
  {
    CycleLevel100();
    var r := StopTreeCorrected(State(CycleRows, []), 100, None, false, Quiet);
    assert forall row :: row in r.state.rows ==> row in CycleRows && row.pid != 100 && row.pid != 200;
  }
}
