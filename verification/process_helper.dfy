/*
 * The process helper itself: child discovery and the stopping of single processes and of
 * process trees, written as methods over a mutable process table. Each method is proved to
 * do what the corresponding function of Processes or TreeStop specifies, so the lemmas
 * proved there are facts about these methods.
 *
 * What the operating system decides and the helper only observes is passed in: whether a
 * SIGINT made a process exit, what a kill attempt did, and where a process-table
 * enumeration throws (an Oracle, see TreeStop).
 */
module ProcessHelper {
  import opened Wrappers
  import opened Processes
  import opened TreeStop
  import opened StopTermination

  /** The live processes of the machine, and (ghost) the record of what the helper has done to them. */
  class ProcessTable {
    var rows: seq<ProcessEntry>
    ghost var trace: seq<Event>

    /** Pids of live processes are unique. */
    ghost predicate Valid()
      reads this
    {
      Distinct(rows)
    }

    ghost function Snapshot(): State
      reads this
    {
      State(rows, trace)
    }

    constructor (live: seq<ProcessEntry>)
      requires Distinct(live)
      ensures Valid() && rows == live && trace == []
    {
      rows := live;
      trace := [];
    }

    /**
     * Child discovery with an optional fence: enumerates the processes whose recorded parent
     * is `pid`, drops those created before `processStartTime` and pid 0, and keeps the rest in
     * enumeration order. If the enumeration throws before candidate `failAt`, the children
     * found so far are returned.
     */
    method GetChildPidsFiltered(pid: int, processStartTime: Option<int>, failAt: Option<nat>) returns (childPids: seq<int>)
      ensures childPids == Discovered(rows, pid, processStartTime, failAt)
      ensures childPids <= ChildPids(rows, pid, processStartTime)
      ensures failAt.None? ==> forall c :: c in childPids <==>
        exists row :: row in rows && row.parentPid == pid && row.pid == c && row.pid != 0 && !Skipped(row, processStartTime)
      ensures forall c :: c in childPids ==> c != 0 && ChildOf(rows, c, pid)
    {
      var searcher := Candidates(rows, pid);
      childPids := [];
      var i := 0;
      while i < |searcher|
        invariant 0 <= i <= |searcher|
        invariant failAt.Some? ==> i <= failAt.value
        invariant childPids == Harvest(searcher, i, processStartTime)
      {
        if failAt == Some(i) {
          // The enumeration throws: the failure is logged and the list built so far is returned.
          break;
        }
        var mo := searcher[i];
        var childProcessId := mo.pid;
        if processStartTime.Some? {
          if mo.startTime < processStartTime.value {
            childProcessId := 0;
          }
        }
        if childProcessId != 0 {
          childPids := childPids + [childProcessId];
        }
        i := i + 1;
      }
      assert i == Yielded(|searcher|, failAt);
      DiscoveredPrefix(rows, pid, processStartTime, failAt);
    }

    /**
     * Child discovery fenced by the parent's own start time: a child is reported exactly when
     * it was not created before its parent. A parent that is not live has no start time, and
     * then every process that records it as parent is reported.
     */
    method GetChildPids(pid: int, failAt: Option<nat>) returns (childPids: seq<int>)
      requires Valid()
      ensures childPids == Discovered(rows, pid, TryGetProcessStartTime(rows, pid), failAt)
      ensures forall c :: c in childPids ==> ChildOf(rows, c, pid)
      ensures failAt.None? ==> forall row :: row in rows && row.parentPid == pid && row.pid != 0 ==>
        (row.pid in childPids <==> forall p :: p in rows && p.pid == pid ==> p.startTime <= row.startTime)
    {
      childPids := GetChildPidsFiltered(pid, TryGetProcessStartTime(rows, pid), failAt);
      forall row | failAt.None? && row in rows && row.parentPid == pid && row.pid != 0
        ensures row.pid in childPids <==> forall p :: p in rows && p.pid == pid ==> p.startTime <= row.startTime
      {
        OwnStartTimeFence(rows, pid, row);
      }
    }

    /**
     * Stops one process: a process that is not live is already stopped; otherwise it is sent
     * SIGINT, and if that does not make it exit it is killed. A kill that throws while the
     * process is still alive is the one error that escapes.
     */
    method StopProcess(pid: int, interruptExits: bool, kill: KillResult) returns (outcome: Outcome)
      requires Valid()
      modifies this
      ensures Valid()
      ensures Run(Snapshot(), outcome) == StopOne(old(Snapshot()), pid, interruptExits, kill)
    {
      ghost var s0 := Snapshot();
      trace := trace + [Stopping(pid)];
      var proc := GetProcessById(rows, pid);
      if proc.None? {
        // Already stopped.
        return Completed;
      }
      trace := trace + [Interrupt(pid)];
      if interruptExits {
        rows := Without(rows, pid);
        assert trace == s0.trace + ([Stopping(pid)] + [Interrupt(pid)]);
        return Completed;
      }
      trace := trace + [Kill(pid)];
      assert trace == s0.trace + ([Stopping(pid)] + [Interrupt(pid), Kill(pid)]);
      if kill == RaisedWhileAlive {
        return KillFailed(pid);
      }
      // Killed, or the kill threw because the process had exited meanwhile.
      rows := Without(rows, pid);
      return Completed;
    }

    /**
     * Stops a process and its descendants, children first or parent first on every level.
     * The fence is the given start time or, when there is none, the process's own one; it is
     * passed down to every child.
     */
    method StopProcessAndChildren(pid: int, stopParentProcessFirst: bool, parentProcessStartTime: Option<int>, o: Oracle, ghost rank: int -> nat)
      returns (outcome: Outcome)
      requires Valid() && Ranked(rows, rank)
      modifies this
      ensures Valid()
      ensures Run(Snapshot(), outcome) == StopTree(old(Snapshot()), pid, parentProcessStartTime, stopParentProcessFirst, o, rank)
      ensures Run(Snapshot(), outcome) == StopTreeCorrected(old(Snapshot()), pid, parentProcessStartTime, stopParentProcessFirst, o)
      decreases rank(pid), 1
    {
      ghost var s0 := Snapshot();
      CorrectedAgrees(s0, pid, parentProcessStartTime, stopParentProcessFirst, o, rank);
      var fence := parentProcessStartTime;
      if fence.None? {
        fence := TryGetProcessStartTime(rows, pid);
      }
      assert fence == ResolveFence(s0.rows, pid, parentProcessStartTime);
      if !stopParentProcessFirst {
        trace := trace + [Enumerate(pid, fence)];
        var children := GetChildPidsFiltered(pid, fence, o.enumFailAt(pid));
        DiscoveredRankBelow(rows, rank, pid, fence, o.enumFailAt(pid));
        outcome := StopChildren(pid, children, fence, false, o, rank);
        if outcome.KillFailed? {
          return;
        }
      }
      outcome := StopProcess(pid, o.interruptExits(pid), o.kill(pid));
      if outcome.KillFailed? {
        return;
      }
      if stopParentProcessFirst {
        trace := trace + [Enumerate(pid, fence)];
        var children := GetChildPidsFiltered(pid, fence, o.enumFailAt(pid));
        DiscoveredRankBelow(rows, rank, pid, fence, o.enumFailAt(pid));
        outcome := StopChildren(pid, children, fence, true, o, rank);
      }
    }

    /** Stops the subtrees of the given children of `parent` in order; a kill failure aborts the rest. */
    method StopChildren(parent: int, children: seq<int>, fence: Option<int>, parentFirst: bool, o: Oracle, ghost rank: int -> nat)
      returns (outcome: Outcome)
      requires Valid() && Ranked(rows, rank)
      requires forall k :: k in children ==> rank(k) < rank(parent)
      modifies this
      ensures Valid()
      ensures Run(Snapshot(), outcome) == StopForest(old(Snapshot()), parent, children, fence, parentFirst, o, rank)
      decreases rank(parent), 0
    {
      ghost var s0 := Snapshot();
      ForestFromEnds(s0, parent, children, fence, parentFirst, o, rank);
      var i := 0;
      while i < |children|
        invariant 0 <= i <= |children|
        invariant Valid() && Ranked(rows, rank)
        invariant StopForestFrom(Snapshot(), parent, children, i, fence, parentFirst, o, rank)
               == StopForest(s0, parent, children, fence, parentFirst, o, rank)
      {
        ForestStep(Snapshot(), parent, children, i, fence, parentFirst, o, rank);
        outcome := StopProcessAndChildren(children[i], parentFirst, fence, o, rank);
        if outcome.KillFailed? {
          return;
        }
        i := i + 1;
      }
      ForestFromEnds(Snapshot(), parent, children, fence, parentFirst, o, rank);
      outcome := Completed;
    }
  }
}
