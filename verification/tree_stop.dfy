/**
 * What stopping does to the process table, as functions: the single-process stop state
 * machine and the recursive tree stop, with the order of what they do recorded in a trace.
 * The methods of ProcessHelper are proved to do exactly this; the lemmas below state what
 * the stop guarantees.
 */
module TreeStop {
  import opened Wrappers
  import opened Processes

  /** What the helper does to a process, in the order it does it. */
  datatype Event =
    | Stopping(pid: int)                        // a single-process stop begins
    | Interrupt(pid: int)                       // the cooperative interrupt is sent
    | Kill(pid: int)                            // the forceful kill is issued
    | Enumerate(pid: int, fence: Option<int>)   // the children of pid are looked up under the fence

  /** How a forceful kill ends: it succeeds, it raises after the process has exited, or it raises while the process still runs. */
  datatype KillResult = Killed | RaisedAfterExit | RaisedWhileAlive

  /** A stop either completes or ends with the kill failure it rethrows. */
  datatype Outcome = Completed | KillFailed(pid: int)

  /**
   * The answers of the collaborators the helper cannot see, per pid: whether the cooperative
   * interrupt makes the process exit within the timeout, how a kill ends, and the position at
   * which the process-table query throws while enumerating the children (none: it does not).
   */
  datatype Oracle = Oracle(interruptExits: int -> bool, kill: int -> KillResult, enumFailAt: int -> Option<nat>)

  datatype State = State(rows: seq<ProcessEntry>, trace: seq<Event>)

  datatype Run = Run(state: State, outcome: Outcome)

  /** The parent relation is acyclic: every reportable process ranks strictly below its recorded parent. */
  ghost predicate Ranked(rows: seq<ProcessEntry>, rank: int -> nat) {
    forall row :: row in rows && row.pid != 0 ==> rank(row.pid) < rank(row.parentPid)
  }

  /** The fence a tree-stop level uses: the one it was given, else the start time of its own pid. */
  function ResolveFence(rows: seq<ProcessEntry>, pid: int, fence: Option<int>): (r: Option<int>)
    ensures fence.Some? ==> r == fence
    ensures fence.None? ==> (r.Some? <==> Live(rows, pid))
    ensures fence.None? && Distinct(rows) ==> forall row :: row in rows && row.pid == pid ==> r == Some(row.startTime)
  {
    if fence.Some? then fence else TryGetProcessStartTime(rows, pid)
  }

  /**
   * The single-process stop. An absent pid is left alone; otherwise the interrupt is sent, and
   * when it does not make the process exit a kill is issued; a kill that raises while the
   * process still runs is the only failure that escapes.
   */
  ghost function StopOne(s: State, pid: int, interruptExits: bool, kill: KillResult): (r: Run)
    ensures r.outcome.KillFailed? <==> Live(s.rows, pid) && !interruptExits && kill == RaisedWhileAlive
    ensures r.outcome.KillFailed? ==> r.outcome.pid == pid && r.state.rows == s.rows && Live(r.state.rows, pid)
    ensures r.outcome.Completed? ==> !Live(r.state.rows, pid)
    ensures forall row :: row in r.state.rows <==> row in s.rows && (row.pid != pid || r.outcome.KillFailed?)
    ensures Distinct(s.rows) ==> Distinct(r.state.rows)
    ensures s.trace < r.state.trace && r.state.trace[|s.trace|] == Stopping(pid)
    ensures forall i :: |s.trace| < i < |r.state.trace| ==> r.state.trace[i] in {Interrupt(pid), Kill(pid)}
    ensures forall i :: |s.trace| <= i < |r.state.trace| ==> r.state.trace[i].pid == pid
    ensures Interrupt(pid) in r.state.trace[|s.trace|..] <==> Live(s.rows, pid)
    ensures Kill(pid) in r.state.trace[|s.trace|..] <==> Live(s.rows, pid) && !interruptExits
    ensures r.outcome.KillFailed? ==> r.state.trace[|r.state.trace| - 1] == Kill(pid)
  {
    var live := Live(s.rows, pid);
    var events := [Stopping(pid)] + (if !live then [] else if interruptExits then [Interrupt(pid)] else [Interrupt(pid), Kill(pid)]);
    var fails := live && !interruptExits && kill == RaisedWhileAlive;
    assert (s.trace + events)[|s.trace|..] == events;
    Run(State(if live && !fails then Without(s.rows, pid) else s.rows, s.trace + events),
        if fails then KillFailed(pid) else Completed)
  }

  /**
   * The tree stop of `pid`. The fence is resolved at this level; children-first discovers the
   * children, stops each subtree and then the process itself; parent-first stops the process
   * and then discovers and stops the children. A failure ends the traversal where it happens.
   */
  ghost function StopTree(s: State, pid: int, fence: Option<int>, parentFirst: bool, o: Oracle, rank: int -> nat): (r: Run)
    requires Ranked(s.rows, rank)
    ensures forall row :: row in r.state.rows ==> row in s.rows
    ensures s.trace <= r.state.trace
    ensures r.outcome.Completed? ==> !Live(r.state.rows, pid)
    ensures Distinct(s.rows) ==> Distinct(r.state.rows)
    decreases rank(pid), 1, 0
  {
    var f := ResolveFence(s.rows, pid, fence);
    if !parentFirst then
      var kids := Discovered(s.rows, pid, f, o.enumFailAt(pid));
      var below := StopForest(State(s.rows, s.trace + [Enumerate(pid, f)]), pid, kids, f, false, o, rank);
      if below.outcome.KillFailed? then below
      else StopOne(below.state, pid, o.interruptExits(pid), o.kill(pid))
    else
      var top := StopOne(s, pid, o.interruptExits(pid), o.kill(pid));
      if top.outcome.KillFailed? then top
      else
        var kids := Discovered(top.state.rows, pid, f, o.enumFailAt(pid));
        StopForest(State(top.state.rows, top.state.trace + [Enumerate(pid, f)]), pid, kids, f, true, o, rank)
  }

  /** The subtrees of the discovered children, one after another in discovery order, until one fails. */
  ghost function StopForest(s: State, parent: int, kids: seq<int>, fence: Option<int>, parentFirst: bool, o: Oracle, rank: int -> nat): (r: Run)
    requires Ranked(s.rows, rank)
    requires forall k :: k in kids ==> rank(k) < rank(parent)
    ensures forall row :: row in r.state.rows ==> row in s.rows
    ensures s.trace <= r.state.trace
    ensures r.outcome.Completed? ==> forall k :: k in kids ==> !Live(r.state.rows, k)
    ensures Distinct(s.rows) ==> Distinct(r.state.rows)
    decreases rank(parent), 0, |kids|
  {
    if kids == [] then Run(s, Completed)
    else
      var first := StopTree(s, kids[0], fence, parentFirst, o, rank);
      if first.outcome.KillFailed? then first
      else StopForest(first.state, parent, kids[1..], fence, parentFirst, o, rank)
  }

  /** The forest stop of the children from position `i` on. */
  ghost function StopForestFrom(s: State, parent: int, kids: seq<int>, i: nat, fence: Option<int>, parentFirst: bool, o: Oracle, rank: int -> nat): Run
    requires Ranked(s.rows, rank)
    requires forall k :: k in kids ==> rank(k) < rank(parent)
    requires i <= |kids|
  {
    StopForest(s, parent, kids[i..], fence, parentFirst, o, rank)
  }

  /** One step of a forest stop: the subtree of the next child, then the remaining children unless that failed. */
  lemma ForestStep(s: State, parent: int, kids: seq<int>, i: nat, fence: Option<int>, parentFirst: bool, o: Oracle, rank: int -> nat)
    requires Ranked(s.rows, rank)
    requires forall k :: k in kids ==> rank(k) < rank(parent)
    requires i < |kids|
    ensures var first := StopTree(s, kids[i], fence, parentFirst, o, rank);
      StopForestFrom(s, parent, kids, i, fence, parentFirst, o, rank) ==
        if first.outcome.KillFailed? then first
        else StopForestFrom(first.state, parent, kids, i + 1, fence, parentFirst, o, rank)
  {
    assert kids[i..][0] == kids[i];
    assert kids[i..][1..] == kids[i + 1..];
  }

  /** The forest stop from position 0 is the whole forest stop; from the end it does nothing. */
  lemma ForestFromEnds(s: State, parent: int, kids: seq<int>, fence: Option<int>, parentFirst: bool, o: Oracle, rank: int -> nat)
    requires Ranked(s.rows, rank)
    requires forall k :: k in kids ==> rank(k) < rank(parent)
    ensures StopForestFrom(s, parent, kids, 0, fence, parentFirst, o, rank) == StopForest(s, parent, kids, fence, parentFirst, o, rank)
    ensures StopForestFrom(s, parent, kids, |kids|, fence, parentFirst, o, rank) == Run(s, Completed)
  {
    assert kids[0..] == kids;
  }

  lemma {:induction false} RankedDescendsFrom(rows: seq<ProcessEntry>, rank: int -> nat, x: int, p: int, n: nat)
    requires Ranked(rows, rank) && DescendsFrom(rows, x, p, n)
    ensures rank(x) < rank(p)
    decreases n
  {
    if n > 0 {
      var k :| ChildOf(rows, k, p) && DescendsFrom(rows, x, k, n - 1);
      RankedDescendsFrom(rows, rank, x, k, n - 1);
    }
  }

  /** In an acyclic table no process is its own descendant. */
  lemma RankedDescendant(rows: seq<ProcessEntry>, rank: int -> nat, x: int, p: int)
    requires Ranked(rows, rank) && Descendant(rows, x, p)
    ensures rank(x) < rank(p) && x != p
  {
    var n: nat :| DescendsFrom(rows, x, p, n);
    RankedDescendsFrom(rows, rank, x, p, n);
  }

  /** Discovered children rank below their parent, so the traversal goes down. */
  lemma DiscoveredRankBelow(rows: seq<ProcessEntry>, rank: int -> nat, pid: int, fence: Option<int>, failAt: Option<nat>)
    requires Ranked(rows, rank)
    ensures forall k :: k in Discovered(rows, pid, fence, failAt) ==> rank(k) < rank(pid)
  {
  }

  /** Every event of `t` from position `from` on is about `pid` or about a descendant of `pid`. */
  ghost predicate WithinSubtree(rows: seq<ProcessEntry>, t: seq<Event>, from: nat, pid: int) {
    forall i :: from <= i < |t| ==> t[i].pid == pid || Descendant(rows, t[i].pid, pid)
  }

  /** Every event of `t` from position `from` on is about one of `kids` or about a descendant of one. */
  ghost predicate WithinSubtrees(rows: seq<ProcessEntry>, t: seq<Event>, from: nat, kids: seq<int>) {
    forall i :: from <= i < |t| ==> exists k :: k in kids && (t[i].pid == k || Descendant(rows, t[i].pid, k))
  }

  /** Events about the children of `pid`, or about their descendants, are events about descendants of `pid`. */
  lemma LiftToParent(rows: seq<ProcessEntry>, sub: seq<ProcessEntry>, t: seq<Event>, from: nat, kids: seq<int>, pid: int)
    requires forall row :: row in sub ==> row in rows
    requires forall k :: k in kids ==> ChildOf(sub, k, pid)
    requires WithinSubtrees(sub, t, from, kids)
    ensures forall i :: from <= i < |t| ==> Descendant(rows, t[i].pid, pid)
  {
    forall i | from <= i < |t|
      ensures Descendant(rows, t[i].pid, pid)
    {
      var e := t[i];
      assert exists k :: k in kids && (e.pid == k || Descendant(sub, e.pid, k));
      var k :| k in kids && (e.pid == k || Descendant(sub, e.pid, k));
      if e.pid != k {
        DescendantMono(rows, sub, e.pid, k);
      }
      ChildOfMono(rows, sub, k, pid);
      DescendantStep(rows, e.pid, k, pid);
    }
  }

  /**
   * Everything a tree stop does concerns its root or a descendant of the root: no process
   * outside the subtree is interrupted, killed or enumerated.
   */
  lemma {:induction false} TreeEventsBelow(s: State, pid: int, fence: Option<int>, parentFirst: bool, o: Oracle, rank: int -> nat)
    requires Ranked(s.rows, rank)
    ensures WithinSubtree(s.rows, StopTree(s, pid, fence, parentFirst, o, rank).state.trace, |s.trace|, pid)
    decreases rank(pid), 1, 1
  {
    if parentFirst {
      ParentFirstEventsBelow(s, pid, fence, o, rank);
    } else {
      ChildrenFirstEventsBelow(s, pid, fence, o, rank);
    }
  }

  lemma {:induction false} ChildrenFirstEventsBelow(s: State, pid: int, fence: Option<int>, o: Oracle, rank: int -> nat)
    requires Ranked(s.rows, rank)
    ensures WithinSubtree(s.rows, StopTree(s, pid, fence, false, o, rank).state.trace, |s.trace|, pid)
    decreases rank(pid), 1, 0
  {
    var f := ResolveFence(s.rows, pid, fence);
    var r := StopTree(s, pid, fence, false, o, rank);
    var kids := Discovered(s.rows, pid, f, o.enumFailAt(pid));
    var s1 := State(s.rows, s.trace + [Enumerate(pid, f)]);
    var below := StopForest(s1, pid, kids, f, false, o, rank);
    ForestEventsBelow(s1, pid, kids, f, false, o, rank);
    LiftToParent(s.rows, s.rows, below.state.trace, |s1.trace|, kids, pid);
    WithinAppend(s.rows, s1.trace, below.state.trace, |s.trace|, pid);
    if below.outcome.KillFailed? {
      assert r == below;
    } else {
      var fin := StopOne(below.state, pid, o.interruptExits(pid), o.kill(pid));
      assert r == fin;
      WithinAppend(s.rows, below.state.trace, fin.state.trace, |s.trace|, pid);
    }
  }

  lemma {:induction false} ParentFirstEventsBelow(s: State, pid: int, fence: Option<int>, o: Oracle, rank: int -> nat)
    requires Ranked(s.rows, rank)
    ensures WithinSubtree(s.rows, StopTree(s, pid, fence, true, o, rank).state.trace, |s.trace|, pid)
    decreases rank(pid), 1, 0
  {
    var f := ResolveFence(s.rows, pid, fence);
    var r := StopTree(s, pid, fence, true, o, rank);
    var top := StopOne(s, pid, o.interruptExits(pid), o.kill(pid));
    if top.outcome.Completed? {
      var kids := Discovered(top.state.rows, pid, f, o.enumFailAt(pid));
      var s1 := State(top.state.rows, top.state.trace + [Enumerate(pid, f)]);
      var below := StopForest(s1, pid, kids, f, true, o, rank);
      assert r == below;
      ForestEventsBelow(s1, pid, kids, f, true, o, rank);
      LiftToParent(s.rows, top.state.rows, below.state.trace, |s1.trace|, kids, pid);
      WithinAppend(s.rows, top.state.trace, s1.trace, |s.trace|, pid);
      WithinAppend(s.rows, s1.trace, below.state.trace, |s.trace|, pid);
    } else {
      assert r == top;
    }
  }

  /** Segments within the subtree of `pid` glue into one. */
  lemma WithinAppend(rows: seq<ProcessEntry>, t0: seq<Event>, t: seq<Event>, from: nat, pid: int)
    requires t0 <= t
    requires WithinSubtree(rows, t0, from, pid) && WithinSubtree(rows, t, |t0|, pid)
    ensures WithinSubtree(rows, t, from, pid)
  {
    assert forall i :: 0 <= i < |t0| ==> t[i] == t0[i];
  }

  /** Everything a forest stop does concerns one of the children it was given or a descendant of one. */
  lemma {:induction false} ForestEventsBelow(s: State, parent: int, kids: seq<int>, fence: Option<int>, parentFirst: bool, o: Oracle, rank: int -> nat)
    requires Ranked(s.rows, rank)
    requires forall k :: k in kids ==> rank(k) < rank(parent)
    ensures WithinSubtrees(s.rows, StopForest(s, parent, kids, fence, parentFirst, o, rank).state.trace, |s.trace|, kids)
    decreases rank(parent), 0, |kids|
  {
    if kids != [] {
      var r := StopForest(s, parent, kids, fence, parentFirst, o, rank);
      var first := StopTree(s, kids[0], fence, parentFirst, o, rank);
      TreeEventsBelow(s, kids[0], fence, parentFirst, o, rank);
      assert kids[0] in kids;
      if first.outcome.Completed? {
        var rest := StopForest(first.state, parent, kids[1..], fence, parentFirst, o, rank);
        assert r == rest;
        ForestEventsBelow(first.state, parent, kids[1..], fence, parentFirst, o, rank);
        forall i | |s.trace| <= i < |rest.state.trace|
          ensures exists k :: k in kids && (rest.state.trace[i].pid == k || Descendant(s.rows, rest.state.trace[i].pid, k))
        {
          var e := rest.state.trace[i];
          if i < |first.state.trace| {
            assert e == first.state.trace[i];
            assert e.pid == kids[0] || Descendant(s.rows, e.pid, kids[0]);
          } else {
            assert exists k :: k in kids[1..] && (e.pid == k || Descendant(first.state.rows, e.pid, k));
            var k :| k in kids[1..] && (e.pid == k || Descendant(first.state.rows, e.pid, k));
            if e.pid != k {
              DescendantMono(s.rows, first.state.rows, e.pid, k);
            }
            assert k in kids;
          }
        }
      } else {
        assert r == first;
        forall i | |s.trace| <= i < |first.state.trace|
          ensures exists k :: k in kids && (first.state.trace[i].pid == k || Descendant(s.rows, first.state.trace[i].pid, k))
        {
          var e := first.state.trace[i];
          assert e.pid == kids[0] || Descendant(s.rows, e.pid, kids[0]);
        }
      }
    }
  }

  /** Every child lookup recorded in `t` from position `from` on uses the fence `fence`. */
  ghost predicate FencedBy(t: seq<Event>, from: nat, fence: Option<int>) {
    forall i :: from <= i < |t| && t[i].Enumerate? ==> t[i].fence == fence
  }

  /**
   * One fence for the whole traversal: once a level has a fence (given by the caller, or the
   * root's own start time), every child lookup at every depth below it uses that same fence.
   */
  lemma {:induction false} TreeFence(s: State, pid: int, fence: Option<int>, parentFirst: bool, o: Oracle, rank: int -> nat)
    requires Ranked(s.rows, rank)
    ensures var f := ResolveFence(s.rows, pid, fence);
      f.Some? ==> FencedBy(StopTree(s, pid, fence, parentFirst, o, rank).state.trace, |s.trace|, f)
    decreases rank(pid), 1, 2
  {
    if parentFirst {
      ParentFirstFence(s, pid, fence, o, rank);
    } else {
      ChildrenFirstFence(s, pid, fence, o, rank);
    }
  }

  lemma {:induction false} ChildrenFirstFence(s: State, pid: int, fence: Option<int>, o: Oracle, rank: int -> nat)
    requires Ranked(s.rows, rank)
    ensures var f := ResolveFence(s.rows, pid, fence);
      f.Some? ==> FencedBy(StopTree(s, pid, fence, false, o, rank).state.trace, |s.trace|, f)
    decreases rank(pid), 1, 0
  {
    var f := ResolveFence(s.rows, pid, fence);
    var r := StopTree(s, pid, fence, false, o, rank);
    if f.Some? {
      var kids := Discovered(s.rows, pid, f, o.enumFailAt(pid));
      var s1 := State(s.rows, s.trace + [Enumerate(pid, f)]);
      var below := StopForest(s1, pid, kids, f, false, o, rank);
      ForestFence(s1, pid, kids, f, false, o, rank);
      FencedAppend(s1.trace, below.state.trace, |s.trace|, f);
      if below.outcome.Completed? {
        var fin := StopOne(below.state, pid, o.interruptExits(pid), o.kill(pid));
        assert r == fin;
        StopOneLooksUpNothing(below.state, pid, o.interruptExits(pid), o.kill(pid), f);
        FencedAppend(below.state.trace, fin.state.trace, |s.trace|, f);
      } else {
        assert r == below;
      }
    }
  }

  lemma {:induction false} ParentFirstFence(s: State, pid: int, fence: Option<int>, o: Oracle, rank: int -> nat)
    requires Ranked(s.rows, rank)
    ensures var f := ResolveFence(s.rows, pid, fence);
      f.Some? ==> FencedBy(StopTree(s, pid, fence, true, o, rank).state.trace, |s.trace|, f)
    decreases rank(pid), 1, 1
  {
    var f := ResolveFence(s.rows, pid, fence);
    var top := StopOne(s, pid, o.interruptExits(pid), o.kill(pid));
    if f.Some? {
      if top.outcome.Completed? {
        ParentFirstFenceAfterRoot(s, pid, fence, o, rank);
      } else {
        assert StopTree(s, pid, fence, true, o, rank) == top;
        StopOneLooksUpNothing(s, pid, o.interruptExits(pid), o.kill(pid), f);
      }
    }
  }

  /** The part of `ParentFirstFence` after the root was stopped. */
  lemma {:induction false} ParentFirstFenceAfterRoot(s: State, pid: int, fence: Option<int>, o: Oracle, rank: int -> nat)
    requires Ranked(s.rows, rank)
    requires ResolveFence(s.rows, pid, fence).Some?
    requires StopOne(s, pid, o.interruptExits(pid), o.kill(pid)).outcome.Completed?
    ensures FencedBy(StopTree(s, pid, fence, true, o, rank).state.trace, |s.trace|, ResolveFence(s.rows, pid, fence))
    decreases rank(pid), 1, 0
  {
    var f := ResolveFence(s.rows, pid, fence);
    var top := StopOne(s, pid, o.interruptExits(pid), o.kill(pid));
    var kids := Discovered(top.state.rows, pid, f, o.enumFailAt(pid));
    var s1 := State(top.state.rows, top.state.trace + [Enumerate(pid, f)]);
    var below := StopForest(s1, pid, kids, f, true, o, rank);
    assert StopTree(s, pid, fence, true, o, rank) == below;
    ForestFence(s1, pid, kids, f, true, o, rank);
    StopOneLooksUpNothing(s, pid, o.interruptExits(pid), o.kill(pid), f);
    FencedAppend(top.state.trace, s1.trace, |s.trace|, f);
    FencedAppend(s1.trace, below.state.trace, |s.trace|, f);
  }

  /** A single-process stop performs no child lookup, so any fence holds of what it records. */
  lemma StopOneLooksUpNothing(s: State, pid: int, interruptExits: bool, kill: KillResult, fence: Option<int>)
    ensures FencedBy(StopOne(s, pid, interruptExits, kill).state.trace, |s.trace|, fence)
  {
    var t := StopOne(s, pid, interruptExits, kill).state.trace;
    assert forall i :: |s.trace| <= i < |t| ==> !t[i].Enumerate?;
  }

  /** Fenced segments glue: a fenced trace extended by a fenced continuation is fenced throughout. */
  lemma FencedAppend(t0: seq<Event>, t: seq<Event>, from: nat, fence: Option<int>)
    requires t0 <= t
    requires FencedBy(t0, from, fence) && FencedBy(t, |t0|, fence)
    ensures FencedBy(t, from, fence)
  {
    assert forall i :: 0 <= i < |t0| ==> t[i] == t0[i];
  }

  /** A forest stop given a fence uses it for every child lookup at every depth. */
  lemma {:induction false} ForestFence(s: State, parent: int, kids: seq<int>, fence: Option<int>, parentFirst: bool, o: Oracle, rank: int -> nat)
    requires Ranked(s.rows, rank)
    requires forall k :: k in kids ==> rank(k) < rank(parent)
    ensures fence.Some? ==> FencedBy(StopForest(s, parent, kids, fence, parentFirst, o, rank).state.trace, |s.trace|, fence)
    decreases rank(parent), 0, |kids|
  {
    if kids != [] && fence.Some? {
      var r := StopForest(s, parent, kids, fence, parentFirst, o, rank);
      var first := StopTree(s, kids[0], fence, parentFirst, o, rank);
      TreeFence(s, kids[0], fence, parentFirst, o, rank);
      if first.outcome.Completed? {
        var rest := StopForest(first.state, parent, kids[1..], fence, parentFirst, o, rank);
        assert r == rest;
        ForestFence(first.state, parent, kids[1..], fence, parentFirst, o, rank);
        forall i | |s.trace| <= i < |rest.state.trace| && rest.state.trace[i].Enumerate?
          ensures rest.state.trace[i].fence == fence
        {
          if i < |first.state.trace| {
            assert rest.state.trace[i] == first.state.trace[i];
          }
        }
      } else {
        assert r == first;
      }
    }
  }

  /** The last thing recorded after position `from` is a kill of `pid`, and `pid` is still live. */
  ghost predicate FailedLast(s: State, from: nat, pid: int) {
    from < |s.trace| && s.trace[|s.trace| - 1] == Kill(pid) && Live(s.rows, pid)
  }

  /**
   * A kill failure ends the traversal: nothing is done after the failed kill (remaining
   * siblings and ancestors are left alone), and the process it names is still live.
   */
  lemma {:induction false} TreeFailure(s: State, pid: int, fence: Option<int>, parentFirst: bool, o: Oracle, rank: int -> nat)
    requires Ranked(s.rows, rank)
    ensures var r := StopTree(s, pid, fence, parentFirst, o, rank);
      r.outcome.KillFailed? ==> FailedLast(r.state, |s.trace|, r.outcome.pid)
    decreases rank(pid), 1, 0
  {
    var f := ResolveFence(s.rows, pid, fence);
    var r := StopTree(s, pid, fence, parentFirst, o, rank);
    if !parentFirst {
      var kids := Discovered(s.rows, pid, f, o.enumFailAt(pid));
      var s1 := State(s.rows, s.trace + [Enumerate(pid, f)]);
      var below := StopForest(s1, pid, kids, f, false, o, rank);
      if below.outcome.KillFailed? {
        assert r == below;
        ForestFailure(s1, pid, kids, f, false, o, rank);
        assert FailedLast(below.state, |s1.trace|, below.outcome.pid);
      } else {
        var fin := StopOne(below.state, pid, o.interruptExits(pid), o.kill(pid));
        assert r == fin;
        assert |s.trace| < |below.state.trace| < |fin.state.trace|;
      }
    } else {
      var top := StopOne(s, pid, o.interruptExits(pid), o.kill(pid));
      if top.outcome.Completed? {
        var kids := Discovered(top.state.rows, pid, f, o.enumFailAt(pid));
        var s1 := State(top.state.rows, top.state.trace + [Enumerate(pid, f)]);
        var below := StopForest(s1, pid, kids, f, true, o, rank);
        assert r == below;
        ForestFailure(s1, pid, kids, f, true, o, rank);
        assert below.outcome.KillFailed? ==> FailedLast(below.state, |s1.trace|, below.outcome.pid);
      } else {
        assert r == top;
        assert |s.trace| < |top.state.trace|;
      }
    }
  }

  /** The same for a forest stop: the first failing subtree ends it. */
  lemma {:induction false} ForestFailure(s: State, parent: int, kids: seq<int>, fence: Option<int>, parentFirst: bool, o: Oracle, rank: int -> nat)
    requires Ranked(s.rows, rank)
    requires forall k :: k in kids ==> rank(k) < rank(parent)
    ensures var r := StopForest(s, parent, kids, fence, parentFirst, o, rank);
      r.outcome.KillFailed? ==> FailedLast(r.state, |s.trace|, r.outcome.pid)
    decreases rank(parent), 0, |kids|
  {
    if kids != [] {
      var r := StopForest(s, parent, kids, fence, parentFirst, o, rank);
      var first := StopTree(s, kids[0], fence, parentFirst, o, rank);
      if first.outcome.Completed? {
        assert r == StopForest(first.state, parent, kids[1..], fence, parentFirst, o, rank);
        ForestFailure(first.state, parent, kids[1..], fence, parentFirst, o, rank);
      } else {
        assert r == first;
        TreeFailure(s, kids[0], fence, parentFirst, o, rank);
      }
    }
  }

  /** The events from `from` on stay strictly below `pid` in `rows`. */
  ghost predicate StrictlyBelow(rows: seq<ProcessEntry>, t: seq<Event>, from: nat, pid: int) {
    forall j :: from <= j < |t| ==> t[j].pid != pid && Descendant(rows, t[j].pid, pid)
  }

  /** A forest stop of the children of `parent` touches only proper descendants of `parent`. */
  lemma ForestStrictlyBelow(rows: seq<ProcessEntry>, s: State, parent: int, kids: seq<int>, fence: Option<int>, parentFirst: bool, o: Oracle, rank: int -> nat)
    requires Ranked(rows, rank) && Ranked(s.rows, rank)
    requires forall row :: row in s.rows ==> row in rows
    requires forall k :: k in kids ==> ChildOf(s.rows, k, parent) && rank(k) < rank(parent)
    ensures StrictlyBelow(rows, StopForest(s, parent, kids, fence, parentFirst, o, rank).state.trace, |s.trace|, parent)
  {
    var t := StopForest(s, parent, kids, fence, parentFirst, o, rank).state.trace;
    ForestEventsBelow(s, parent, kids, fence, parentFirst, o, rank);
    LiftToParent(rows, s.rows, t, |s.trace|, kids, parent);
    forall j | |s.trace| <= j < |t|
      ensures t[j].pid != parent
    {
      RankedDescendant(rows, rank, t[j].pid, parent);
    }
  }

  /** Post-order shape of a trace segment starting at `n`: lookup, descendants, then the root only. */
  ghost predicate PostOrder(rows: seq<ProcessEntry>, t: seq<Event>, n: nat, pid: int, f: Option<int>) {
    && n < |t| && t[n] == Enumerate(pid, f)
    && (forall i, j :: n < j < i < |t| && t[i] == Stopping(pid) ==> Descendant(rows, t[j].pid, pid))
    && (forall i, j :: n <= i <= j < |t| && t[i] == Stopping(pid) ==> t[j].pid == pid)
  }

  /**
   * Children-first is a post-order. The tree stop first looks up the root's children; every
   * event between that lookup and the stop of the root concerns a proper descendant of the
   * root; from the stop of the root on, only the root is touched; and a completed run did
   * stop the root.
   */
  lemma ChildrenFirstOrder(s: State, pid: int, fence: Option<int>, o: Oracle, rank: int -> nat)
    requires Ranked(s.rows, rank)
    ensures var r := StopTree(s, pid, fence, false, o, rank);
      && PostOrder(s.rows, r.state.trace, |s.trace|, pid, ResolveFence(s.rows, pid, fence))
      && (r.outcome.Completed? ==> Stopping(pid) in r.state.trace[|s.trace|..])
  {
    var n := |s.trace|;
    var f := ResolveFence(s.rows, pid, fence);
    var r := StopTree(s, pid, fence, false, o, rank);
    var kids := Discovered(s.rows, pid, f, o.enumFailAt(pid));
    var s1 := State(s.rows, s.trace + [Enumerate(pid, f)]);
    var below := StopForest(s1, pid, kids, f, false, o, rank);
    var m := |below.state.trace|;
    ForestStrictlyBelow(s.rows, s1, pid, kids, f, false, o, rank);
    assert below.state.trace[n] == Enumerate(pid, f);
    if below.outcome.KillFailed? {
      assert r == below;
      assert forall i :: n < i < m ==> below.state.trace[i] != Stopping(pid);
    } else {
      var fin := StopOne(below.state, pid, o.interruptExits(pid), o.kill(pid));
      assert r == fin;
      BelowThenRoot(s.rows, below.state.trace, fin.state.trace, n, pid, f);
      assert fin.state.trace[m] == Stopping(pid) && fin.state.trace[n..][m - n] == fin.state.trace[m];
    }
  }

  /** Gluing lemma for `ChildrenFirstOrder`: a lookup and strictly-below events, then events of the root. */
  lemma BelowThenRoot(rows: seq<ProcessEntry>, t0: seq<Event>, t: seq<Event>, n: nat, pid: int, f: Option<int>)
    requires n < |t0| && t0[n] == Enumerate(pid, f)
    requires StrictlyBelow(rows, t0, n + 1, pid)
    requires t0 < t && t[|t0|] == Stopping(pid)
    requires forall i :: |t0| <= i < |t| ==> t[i].pid == pid
    requires forall i :: |t0| < i < |t| ==> !t[i].Stopping?
    ensures PostOrder(rows, t, n, pid, f)
  {
    var m := |t0|;
    assert forall i :: n <= i < m ==> t[i] == t0[i];
    forall i, j | n < j < i < |t| && t[i] == Stopping(pid)
      ensures Descendant(rows, t[j].pid, pid)
    {
      if j < m {
        assert t[j] == t0[j];
      } else {
        assert false;
      }
    }
  }

  /** Pre-order shape of a trace segment starting at `n`: the root's own stop, its lookup, then descendants. */
  ghost predicate PreOrder(rows: seq<ProcessEntry>, t: seq<Event>, n: nat, pid: int) {
    && n < |t| && t[n] == Stopping(pid)
    && (forall i, j :: n <= j < i < |t| && t[i].Enumerate? && t[i].pid == pid ==> t[j].pid == pid)
    && (forall i, j :: n <= i < j < |t| && t[i].Enumerate? && t[i].pid == pid ==> Descendant(rows, t[j].pid, pid))
  }

  /**
   * Parent-first is a pre-order. The tree stop first stops the root; everything before the
   * root's child lookup concerns the root itself; everything after it concerns proper
   * descendants; and a run that did not fail on the root looks up its children.
   */
  lemma ParentFirstOrder(s: State, pid: int, fence: Option<int>, o: Oracle, rank: int -> nat)
    requires Ranked(s.rows, rank)
    ensures var r := StopTree(s, pid, fence, true, o, rank);
      && PreOrder(s.rows, r.state.trace, |s.trace|, pid)
      && (r.outcome.Completed? ==> Enumerate(pid, ResolveFence(s.rows, pid, fence)) in r.state.trace[|s.trace|..])
  {
    var top := StopOne(s, pid, o.interruptExits(pid), o.kill(pid));
    var n := |s.trace|;
    assert forall i :: n < i < |top.state.trace| ==> !top.state.trace[i].Enumerate?;
    if top.outcome.KillFailed? {
      assert StopTree(s, pid, fence, true, o, rank) == top;
    } else {
      ParentFirstOrderAfterRoot(s, pid, fence, o, rank);
    }
  }

  /** The part of `ParentFirstOrder` after the root was stopped. */
  lemma ParentFirstOrderAfterRoot(s: State, pid: int, fence: Option<int>, o: Oracle, rank: int -> nat)
    requires Ranked(s.rows, rank)
    requires StopOne(s, pid, o.interruptExits(pid), o.kill(pid)).outcome.Completed?
    ensures var r := StopTree(s, pid, fence, true, o, rank);
      && PreOrder(s.rows, r.state.trace, |s.trace|, pid)
      && Enumerate(pid, ResolveFence(s.rows, pid, fence)) in r.state.trace[|s.trace|..]
  {
    var n := |s.trace|;
    var f := ResolveFence(s.rows, pid, fence);
    var top := StopOne(s, pid, o.interruptExits(pid), o.kill(pid));
    var m := |top.state.trace|;
    var kids := Discovered(top.state.rows, pid, f, o.enumFailAt(pid));
    var s1 := State(top.state.rows, top.state.trace + [Enumerate(pid, f)]);
    var below := StopForest(s1, pid, kids, f, true, o, rank);
    assert StopTree(s, pid, fence, true, o, rank) == below;
    ForestStrictlyBelow(s.rows, s1, pid, kids, f, true, o, rank);
    RootThenBelow(s.rows, top.state.trace, below.state.trace, n, pid, f);
    assert below.state.trace[n..][m - n] == below.state.trace[m] == s1.trace[m];
  }

  /** Gluing lemma for `ParentFirstOrder`: events of the root, its lookup, then strictly-below events. */
  lemma RootThenBelow(rows: seq<ProcessEntry>, t0: seq<Event>, t: seq<Event>, n: nat, pid: int, f: Option<int>)
    requires n < |t0| && t0[n] == Stopping(pid)
    requires forall i :: n < i < |t0| ==> t0[i] in {Interrupt(pid), Kill(pid)}
    requires t0 + [Enumerate(pid, f)] <= t
    requires StrictlyBelow(rows, t, |t0| + 1, pid)
    ensures PreOrder(rows, t, n, pid)
  {
    var m := |t0|;
    assert forall i :: 0 <= i < m ==> t[i] == t0[i];
    assert t[m] == (t0 + [Enumerate(pid, f)])[m];
  }

  /**
   * After a tree stop that completes, with the root's child lookup not failing, a fresh
   * lookup of the root's children finds only processes the fence skipped: rows whose recorded
   * parent is the root but which were created before the fence (reused pids).
   */
  lemma StopLeavesOnlySkippedChildren(s: State, root: int, fence: Option<int>, parentFirst: bool, o: Oracle, rank: int -> nat)
    requires Ranked(s.rows, rank)
    requires o.enumFailAt(root).None?
    requires StopTree(s, root, fence, parentFirst, o, rank).outcome.Completed?
    ensures var after := StopTree(s, root, fence, parentFirst, o, rank).state.rows;
      forall c :: c in ChildPids(after, root, TryGetProcessStartTime(after, root)) ==>
        exists row :: row in s.rows && row.pid == c && row.parentPid == root && Skipped(row, ResolveFence(s.rows, root, fence))
  {
    var f := ResolveFence(s.rows, root, fence);
    var r := StopTree(s, root, fence, parentFirst, o, rank);
    var after := r.state.rows;
    // Every child the stop discovered is gone afterwards.
    var gone: seq<ProcessEntry>;
    var kids: seq<int>;
    if !parentFirst {
      gone := s.rows;
      kids := Discovered(s.rows, root, f, o.enumFailAt(root));
      var s1 := State(s.rows, s.trace + [Enumerate(root, f)]);
      var below := StopForest(s1, root, kids, f, false, o, rank);
      assert below.outcome.Completed?;
      var fin := StopOne(below.state, root, o.interruptExits(root), o.kill(root));
      assert r == fin;
    } else {
      var top := StopOne(s, root, o.interruptExits(root), o.kill(root));
      assert top.outcome.Completed?;
      gone := top.state.rows;
      kids := Discovered(top.state.rows, root, f, o.enumFailAt(root));
      var s1 := State(top.state.rows, top.state.trace + [Enumerate(root, f)]);
      assert r == StopForest(s1, root, kids, f, true, o, rank);
    }
    assert forall k :: k in kids ==> !Live(after, k);
    DiscoveredPrefix(gone, root, f, o.enumFailAt(root));
    assert !Live(after, root);
    forall c | c in ChildPids(after, root, TryGetProcessStartTime(after, root))
      ensures exists row :: row in s.rows && row.pid == c && row.parentPid == root && Skipped(row, f)
    {
      var row :| row in after && row.parentPid == root && row.pid == c && Admitted(row, None);
      // The row is still live, so the stop did not discover it although it was there to be found.
      assert row in s.rows && c != root;
      assert row in gone;
      assert c !in kids;
      assert !Admitted(row, f);
    }
  }

  /**
   * The children-first stop of a process tree in which no child of the root holds a reused pid
   * leaves the root without children: a later lookup of the root's children is empty.
   */
  lemma ChildrenFirstStopClearsChildren(s: State, root: int, fence: Option<int>, o: Oracle, rank: int -> nat)
    requires Ranked(s.rows, rank)
    requires o.enumFailAt(root).None?
    requires StopTree(s, root, fence, false, o, rank).outcome.Completed?
    requires forall row :: row in s.rows && row.parentPid == root ==> !Skipped(row, ResolveFence(s.rows, root, fence))
    ensures var after := StopTree(s, root, fence, false, o, rank).state.rows;
      ChildPids(after, root, TryGetProcessStartTime(after, root)) == []
  {
    var after := StopTree(s, root, fence, false, o, rank).state.rows;
    var left := ChildPids(after, root, TryGetProcessStartTime(after, root));
    StopLeavesOnlySkippedChildren(s, root, fence, false, o, rank);
    HeadIsMember(left);
  }

  /** A non-empty list has its first element as a member. */
  lemma HeadIsMember(xs: seq<int>)
    ensures xs != [] ==> xs[0] in xs
  {
  }
}
