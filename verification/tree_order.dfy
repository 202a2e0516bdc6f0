/**
 * The order of a tree stop over its whole trace: sibling subtrees are handled one after
 * another in discovery order; children first, nothing below a process is touched once that
 * process has been stopped; parent first, every process is stopped before its children are
 * looked up.
 *
 * The statements about ancestry are read in a fixed table `table` that holds every row the
 * stop starts from, so they stay meaningful while the stop removes rows.
 */
module TreeOrder {
  import opened Wrappers
  import opened Processes
  import opened TreeStop

  /** A child ranks below its recorded parent. */
  lemma ChildRank(rows: seq<ProcessEntry>, rank: int -> nat, c: int, p: int)
    requires Ranked(rows, rank)
    ensures ChildOf(rows, c, p) ==> rank(c) < rank(p)
  {
  }

  /** A process ranks no higher than anything it is below. */
  lemma BelowRank(rows: seq<ProcessEntry>, rank: int -> nat, x: int, p: int)
    requires Ranked(rows, rank)
    ensures Below(rows, x, p) ==> rank(x) <= rank(p)
  {
    if Descendant(rows, x, p) {
      RankedDescendant(rows, rank, x, p);
    }
  }

  /** A child that is a descendant of `b` has its parent at or below `b`. */
  lemma ParentBelow(rows: seq<ProcessEntry>, a: int, b: int, p: int)
    requires Distinct(rows)
    ensures ChildOf(rows, a, p) && Descendant(rows, a, b) ==> Below(rows, p, b)
  {
    if ChildOf(rows, a, p) && Descendant(rows, a, b) {
      DescendantUp(rows, a, b);
      var q :| ChildOf(rows, a, q) && Below(rows, q, b);
      UniqueParent(rows, a, p, q);
    }
  }

  /** With one parent per process, the processes above `y` form a chain: of two of them, one is below the other. */
  lemma {:induction false} AncestorsChain(rows: seq<ProcessEntry>, rank: int -> nat, y: int, a: int, b: int)
    requires Distinct(rows) && Ranked(rows, rank)
    requires Below(rows, y, a) && Below(rows, y, b)
    ensures Below(rows, a, b) || Below(rows, b, a)
    decreases rank(a) - rank(y)
  {
    BelowRank(rows, rank, y, a);
    if y != a && y != b {
      DescendantUp(rows, y, a);
      var q :| ChildOf(rows, y, q) && Below(rows, q, a);
      DescendantUp(rows, y, b);
      var q' :| ChildOf(rows, y, q') && Below(rows, q', b);
      UniqueParent(rows, y, q, q');
      ChildRank(rows, rank, y, q);
      BelowRank(rows, rank, q, a);
      AncestorsChain(rows, rank, q, a, b);
    }
  }

  /** The subtrees of two different children of one parent share no process. */
  lemma SiblingsDisjoint(rows: seq<ProcessEntry>, rank: int -> nat, p: int, a: int, b: int, y: int)
    requires Distinct(rows) && Ranked(rows, rank)
    ensures ChildOf(rows, a, p) && ChildOf(rows, b, p) && Below(rows, y, a) && Below(rows, y, b) ==> a == b
  {
    if ChildOf(rows, a, p) && ChildOf(rows, b, p) && Below(rows, y, a) && Below(rows, y, b) {
      AncestorsChain(rows, rank, y, a, b);
      ParentBelow(rows, a, b, p);
      ParentBelow(rows, b, a, p);
      BelowRank(rows, rank, p, a);
      BelowRank(rows, rank, p, b);
      ChildRank(rows, rank, a, p);
      ChildRank(rows, rank, b, p);
    }
  }

  /** A process is not its own descendant. */
  lemma DescendantRanks(rows: seq<ProcessEntry>, rank: int -> nat, x: int, p: int)
    requires Ranked(rows, rank)
    ensures Descendant(rows, x, p) ==> rank(x) < rank(p)
  {
    if Descendant(rows, x, p) {
      RankedDescendant(rows, rank, x, p);
    }
  }

  lemma RankedSub(rows: seq<ProcessEntry>, sub: seq<ProcessEntry>, rank: int -> nat)
    requires Ranked(rows, rank) && forall row :: row in sub ==> row in rows
    ensures Ranked(sub, rank)
  {
  }

  /** Within one table, a process below the child `kids[m]` is below no other child of the same parent. */
  lemma SubtreeIndex(table: seq<ProcessEntry>, rank: int -> nat, parent: int, kids: seq<int>, y: int, m: nat)
    requires Distinct(table) && Ranked(table, rank)
    requires forall k :: k in kids ==> ChildOf(table, k, parent)
    requires NoRepeats(kids)
    requires m < |kids| && Below(table, y, kids[m])
    ensures forall a :: 0 <= a < |kids| && Below(table, y, kids[a]) ==> a == m
  {
    forall a | 0 <= a < |kids| && Below(table, y, kids[a])
      ensures a == m
    {
      assert kids[a] in kids && kids[m] in kids;
      SiblingsDisjoint(table, rank, parent, kids[m], kids[a], y);
    }
  }

  /** An event in the subtree of a later child `kids[m]` is not below one in the subtree of `kids[0]`. */
  lemma LaterSiblingNotBelow(table: seq<ProcessEntry>, rank: int -> nat, parent: int, kids: seq<int>, x: int, y: int, m: nat)
    requires Distinct(table) && Ranked(table, rank)
    requires forall k :: k in kids ==> ChildOf(table, k, parent)
    requires NoRepeats(kids)
    requires 0 < m < |kids| && Below(table, x, kids[0]) && Below(table, y, kids[m])
    ensures !Descendant(table, y, x)
  {
    BelowTrans(table, y, x, kids[0]);
    SubtreeIndex(table, rank, parent, kids, y, m);
  }

  /** A member of `kids[1..]` sits at a position from 1 on. */
  lemma TailIndex(kids: seq<int>, k: int) returns (m: nat)
    requires kids != [] && k in kids[1..]
    ensures 0 < m < |kids| && kids[m] == k
  {
    var i :| 0 <= i < |kids[1..]| && kids[1..][i] == k;
    m := i + 1;
  }

  /**
   * Events from position `from` on never go back to an earlier sibling: an event within the
   * subtree of `kids[a]` before an event within the subtree of `kids[b]` means `a <= b`.
   */
  ghost predicate SiblingOrder(table: seq<ProcessEntry>, t: seq<Event>, from: nat, kids: seq<int>) {
    forall i, j, a, b ::
      (from <= i < j < |t| && 0 <= a < |kids| && 0 <= b < |kids|
       && Below(table, t[i].pid, kids[a]) && Below(table, t[j].pid, kids[b])) ==> a <= b
  }

  /** From position `from` on, every event below a child `kids[a]` has `lo <= a < hi`. */
  ghost predicate UnderOnly(table: seq<ProcessEntry>, t: seq<Event>, from: nat, kids: seq<int>, lo: nat, hi: nat) {
    forall i, a :: from <= i < |t| && 0 <= a < |kids| && Below(table, t[i].pid, kids[a]) ==> lo <= a < hi
  }

  /** Every event of the first subtree of a forest stop is below `kids[0]` and below no other child. */
  lemma FirstSubtreeOnly(table: seq<ProcessEntry>, s: State, parent: int, kids: seq<int>, fence: Option<int>,
                         parentFirst: bool, o: Oracle, rank: int -> nat)
    requires Distinct(table) && Ranked(table, rank) && Ranked(s.rows, rank)
    requires forall row :: row in s.rows ==> row in table
    requires forall k :: k in kids ==> ChildOf(table, k, parent)
    requires NoRepeats(kids) && kids != []
    ensures UnderOnly(table, StopTree(s, kids[0], fence, parentFirst, o, rank).state.trace, |s.trace|, kids, 0, 1)
  {
    var t := StopTree(s, kids[0], fence, parentFirst, o, rank).state.trace;
    TreeEventsBelow(s, kids[0], fence, parentFirst, o, rank);
    forall i, a | |s.trace| <= i < |t| && 0 <= a < |kids| && Below(table, t[i].pid, kids[a])
      ensures 0 <= a < 1
    {
      BelowMono(table, s.rows, t[i].pid, kids[0]);
      SubtreeIndex(table, rank, parent, kids, t[i].pid, 0);
    }
  }

  /** Every event of the stop of the later children `kids[1..]` is below none but a later child. */
  lemma LaterSubtreesOnly(table: seq<ProcessEntry>, s: State, parent: int, kids: seq<int>, fence: Option<int>,
                          parentFirst: bool, o: Oracle, rank: int -> nat)
    requires Distinct(table) && Ranked(table, rank) && Ranked(s.rows, rank)
    requires forall row :: row in s.rows ==> row in table
    requires forall k :: k in kids ==> ChildOf(table, k, parent) && rank(k) < rank(parent)
    requires NoRepeats(kids) && kids != []
    ensures UnderOnly(table, StopForest(s, parent, kids[1..], fence, parentFirst, o, rank).state.trace, |s.trace|, kids, 1, |kids|)
  {
    var t := StopForest(s, parent, kids[1..], fence, parentFirst, o, rank).state.trace;
    ForestEventsBelow(s, parent, kids[1..], fence, parentFirst, o, rank);
    assert WithinSubtrees(s.rows, t, |s.trace|, kids[1..]);
    forall i, a | |s.trace| <= i < |t| && 0 <= a < |kids| && Below(table, t[i].pid, kids[a])
      ensures 1 <= a < |kids|
    {
      var e := t[i];
      assert exists k :: k in kids[1..] && (e.pid == k || Descendant(s.rows, e.pid, k));
      var k :| k in kids[1..] && (e.pid == k || Descendant(s.rows, e.pid, k));
      BelowMono(table, s.rows, e.pid, k);
      var m := TailIndex(kids, k);
      SubtreeIndex(table, rank, parent, kids, e.pid, m);
    }
  }

  /** Over a table with distinct pids, whatever a forest stop does falls into the subtrees of its children in discovery order. */
  lemma {:induction false} ForestSiblingOrder(table: seq<ProcessEntry>, s: State, parent: int, kids: seq<int>, fence: Option<int>,
                                              parentFirst: bool, o: Oracle, rank: int -> nat)
    requires Distinct(table) && Ranked(table, rank) && Ranked(s.rows, rank)
    requires forall row :: row in s.rows ==> row in table
    requires forall k :: k in kids ==> ChildOf(table, k, parent) && rank(k) < rank(parent)
    requires NoRepeats(kids)
    ensures SiblingOrder(table, StopForest(s, parent, kids, fence, parentFirst, o, rank).state.trace, |s.trace|, kids)
    decreases |kids|
  {
    if kids != [] {
      var r := StopForest(s, parent, kids, fence, parentFirst, o, rank);
      var first := StopTree(s, kids[0], fence, parentFirst, o, rank);
      FirstSubtreeOnly(table, s, parent, kids, fence, parentFirst, o, rank);
      if first.outcome.KillFailed? {
        assert r == first;
      } else {
        var rest := StopForest(first.state, parent, kids[1..], fence, parentFirst, o, rank);
        assert r == rest;
        RankedSub(s.rows, first.state.rows, rank);
        ForestSiblingOrder(table, first.state, parent, kids[1..], fence, parentFirst, o, rank);
        LaterSubtreesOnly(table, first.state, parent, kids, fence, parentFirst, o, rank);
        SiblingOrderGlue(table, first.state.trace, rest.state.trace, |s.trace|, kids);
      }
    }
  }

  /** A first segment within `kids[0]` only, then a segment within later children only and in their order: the whole is in order. */
  lemma SiblingOrderGlue(table: seq<ProcessEntry>, t0: seq<Event>, t: seq<Event>, from: nat, kids: seq<int>)
    requires t0 <= t && kids != []
    requires UnderOnly(table, t0, from, kids, 0, 1) && UnderOnly(table, t, |t0|, kids, 1, |kids|)
    requires SiblingOrder(table, t, |t0|, kids[1..])
    ensures SiblingOrder(table, t, from, kids)
  {
    forall i, j, a, b | from <= i < j < |t| && 0 <= a < |kids| && 0 <= b < |kids|
      && Below(table, t[i].pid, kids[a]) && Below(table, t[j].pid, kids[b])
      ensures a <= b
    {
      if i < |t0| {
        assert t[i] == t0[i];
      } else {
        assert 1 <= a && 1 <= b;
        assert kids[1..][a - 1] == kids[a] && kids[1..][b - 1] == kids[b];
      }
    }
  }

  /** Once a process is stopped, no later event from position `from` on concerns a process below it. */
  ghost predicate NothingBelowAfterStop(table: seq<ProcessEntry>, t: seq<Event>, from: nat) {
    forall i, j :: from <= i < j < |t| && t[i].Stopping? ==> !Descendant(table, t[j].pid, t[i].pid)
  }

  /**
   * Children first, over a table with distinct pids, the whole stop is in post-order: after
   * any process is stopped, nothing below it is looked up, interrupted, killed or stopped.
   */
  lemma {:induction false} ChildrenFirstPostOrder(table: seq<ProcessEntry>, s: State, pid: int, fence: Option<int>, o: Oracle, rank: int -> nat)
    requires Distinct(table) && Ranked(table, rank) && Distinct(s.rows) && Ranked(s.rows, rank)
    requires forall row :: row in s.rows ==> row in table
    ensures NothingBelowAfterStop(table, StopTree(s, pid, fence, false, o, rank).state.trace, |s.trace|)
    decreases rank(pid), 1, 0
  {
    var f := ResolveFence(s.rows, pid, fence);
    var r := StopTree(s, pid, fence, false, o, rank);
    var kids := Discovered(s.rows, pid, f, o.enumFailAt(pid));
    var s1 := State(s.rows, s.trace + [Enumerate(pid, f)]);
    DiscoveredRankBelow(s.rows, rank, pid, f, o.enumFailAt(pid));
    DiscoveredNoRepeats(s.rows, pid, f, o.enumFailAt(pid));
    forall k | k in kids
      ensures ChildOf(table, k, pid)
    {
      ChildOfMono(table, s.rows, k, pid);
    }
    var below := StopForest(s1, pid, kids, f, false, o, rank);
    ForestPostOrder(table, s1, pid, kids, f, o, rank);
    ForestEventsBelow(s1, pid, kids, f, false, o, rank);
    LiftToParent(table, s.rows, below.state.trace, |s1.trace|, kids, pid);
    assert below.state.trace[|s.trace|] == Enumerate(pid, f);
    if below.outcome.KillFailed? {
      assert r == below;
      PostOrderRootGlue(table, rank, below.state.trace, below.state.trace, |s.trace|, pid);
    } else {
      var fin := StopOne(below.state, pid, o.interruptExits(pid), o.kill(pid));
      assert r == fin;
      PostOrderRootGlue(table, rank, below.state.trace, fin.state.trace, |s.trace|, pid);
    }
  }

  /** A lookup, then events strictly below `pid` in post-order, then events of `pid` itself: the whole is in post-order. */
  lemma PostOrderRootGlue(table: seq<ProcessEntry>, rank: int -> nat, t0: seq<Event>, t: seq<Event>, from: nat, pid: int)
    requires Ranked(table, rank)
    requires t0 <= t && from < |t0| && !t0[from].Stopping?
    requires NothingBelowAfterStop(table, t0, from + 1)
    requires forall i :: from + 1 <= i < |t0| ==> Descendant(table, t0[i].pid, pid)
    requires forall i :: |t0| <= i < |t| ==> t[i].pid == pid
    ensures NothingBelowAfterStop(table, t, from)
  {
    DescendantRanks(table, rank, pid, pid);
    forall i, j | from <= i < j < |t| && t[i].Stopping?
      ensures !Descendant(table, t[j].pid, t[i].pid)
    {
      if j < |t0| {
        assert t[i] == t0[i] && t[j] == t0[j];
      } else if i < |t0| {
        assert t[i] == t0[i];
        DescendantRanks(table, rank, t[i].pid, pid);
        DescendantRanks(table, rank, pid, t[i].pid);
      }
    }
  }

  lemma {:induction false} ForestPostOrder(table: seq<ProcessEntry>, s: State, parent: int, kids: seq<int>, fence: Option<int>, o: Oracle, rank: int -> nat)
    requires Distinct(table) && Ranked(table, rank) && Distinct(s.rows) && Ranked(s.rows, rank)
    requires forall row :: row in s.rows ==> row in table
    requires forall k :: k in kids ==> ChildOf(table, k, parent) && rank(k) < rank(parent)
    requires NoRepeats(kids)
    ensures NothingBelowAfterStop(table, StopForest(s, parent, kids, fence, false, o, rank).state.trace, |s.trace|)
    decreases rank(parent), 0, |kids|
  {
    if kids != [] {
      var r := StopForest(s, parent, kids, fence, false, o, rank);
      var first := StopTree(s, kids[0], fence, false, o, rank);
      assert kids[0] in kids;
      ChildrenFirstPostOrder(table, s, kids[0], fence, o, rank);
      if first.outcome.KillFailed? {
        assert r == first;
      } else {
        var rest := StopForest(first.state, parent, kids[1..], fence, false, o, rank);
        assert r == rest;
        RankedSub(s.rows, first.state.rows, rank);
        ForestPostOrder(table, first.state, parent, kids[1..], fence, o, rank);
        TreeEventsBelow(s, kids[0], fence, false, o, rank);
        WithinSubtreeMono(table, s.rows, first.state.trace, |s.trace|, kids[0]);
        ForestEventsBelow(first.state, parent, kids[1..], fence, false, o, rank);
        WithinSubtreesMono(table, first.state.rows, rest.state.trace, |first.state.trace|, kids[1..]);
        PostOrderSiblingGlue(table, rank, parent, kids, first.state.trace, rest.state.trace, |s.trace|);
      }
    }
  }

  /** Post-order within the first subtree and within the later ones: the whole forest is in post-order. */
  lemma PostOrderSiblingGlue(table: seq<ProcessEntry>, rank: int -> nat, parent: int, kids: seq<int>, t0: seq<Event>, t: seq<Event>, from: nat)
    requires Distinct(table) && Ranked(table, rank)
    requires forall k :: k in kids ==> ChildOf(table, k, parent)
    requires NoRepeats(kids) && kids != []
    requires t0 <= t
    requires NothingBelowAfterStop(table, t0, from) && NothingBelowAfterStop(table, t, |t0|)
    requires WithinSubtree(table, t0, from, kids[0]) && WithinSubtrees(table, t, |t0|, kids[1..])
    ensures NothingBelowAfterStop(table, t, from)
  {
    forall i, j | from <= i < j < |t| && t[i].Stopping?
      ensures !Descendant(table, t[j].pid, t[i].pid)
    {
      if j < |t0| {
        assert t[i] == t0[i] && t[j] == t0[j];
      } else if i < |t0| {
        assert t[i] == t0[i];
        assert Below(table, t[i].pid, kids[0]);
        var e := t[j];
        assert exists k :: k in kids[1..] && (e.pid == k || Descendant(table, e.pid, k));
        var k :| k in kids[1..] && (e.pid == k || Descendant(table, e.pid, k));
        var m := TailIndex(kids, k);
        LaterSiblingNotBelow(table, rank, parent, kids, t[i].pid, t[j].pid, m);
      }
    }
  }

  lemma WithinSubtreeMono(table: seq<ProcessEntry>, rows: seq<ProcessEntry>, t: seq<Event>, from: nat, pid: int)
    requires forall row :: row in rows ==> row in table
    requires WithinSubtree(rows, t, from, pid)
    ensures WithinSubtree(table, t, from, pid)
  {
    forall i | from <= i < |t|
      ensures Below(table, t[i].pid, pid)
    {
      BelowMono(table, rows, t[i].pid, pid);
    }
  }

  lemma WithinSubtreesMono(table: seq<ProcessEntry>, rows: seq<ProcessEntry>, t: seq<Event>, from: nat, kids: seq<int>)
    requires forall row :: row in rows ==> row in table
    requires WithinSubtrees(rows, t, from, kids)
    ensures WithinSubtrees(table, t, from, kids)
  {
    forall i | from <= i < |t|
      ensures exists k :: k in kids && (t[i].pid == k || Descendant(table, t[i].pid, k))
    {
      var e := t[i];
      assert exists k :: k in kids && (e.pid == k || Descendant(rows, e.pid, k));
      var k :| k in kids && (e.pid == k || Descendant(rows, e.pid, k));
      BelowMono(table, rows, e.pid, k);
      assert k in kids && (e.pid == k || Descendant(table, e.pid, k));
    }
    assert forall i :: from <= i < |t| ==> exists k :: k in kids && (t[i].pid == k || Descendant(table, t[i].pid, k));
  }

  /** From position `from` on, every child lookup of a process comes after a stop of that process. */
  ghost predicate StoppedBeforeLookup(t: seq<Event>, from: nat) {
    forall i :: from <= i < |t| && t[i].Enumerate? ==> exists j :: from <= j < i && t[j] == Stopping(t[i].pid)
  }

  lemma StoppedBeforeLookupExtends(t0: seq<Event>, t: seq<Event>, from: nat, mid: nat)
    requires t0 <= t && from <= mid
    requires StoppedBeforeLookup(t0, from) && StoppedBeforeLookup(t, mid)
    requires forall i :: |t0| <= i < mid && i < |t| ==> !t[i].Enumerate?
    ensures StoppedBeforeLookup(t, from)
  {
    forall i | from <= i < |t| && t[i].Enumerate?
      ensures exists j :: from <= j < i && t[j] == Stopping(t[i].pid)
    {
      if i < |t0| {
        assert t[i] == t0[i];
        var j :| from <= j < i && t0[j] == Stopping(t0[i].pid);
        assert t[j] == t0[j];
      } else {
        var j :| mid <= j < i && t[j] == Stopping(t[i].pid);
      }
    }
  }

  /** Parent first, every process whose children are looked up has been stopped before the lookup. */
  lemma {:induction false} ParentFirstStopsBeforeLookup(s: State, pid: int, fence: Option<int>, o: Oracle, rank: int -> nat)
    requires Ranked(s.rows, rank)
    ensures StoppedBeforeLookup(StopTree(s, pid, fence, true, o, rank).state.trace, |s.trace|)
    decreases rank(pid), 1, 0
  {
    var f := ResolveFence(s.rows, pid, fence);
    var r := StopTree(s, pid, fence, true, o, rank);
    var top := StopOne(s, pid, o.interruptExits(pid), o.kill(pid));
    assert forall i :: |s.trace| <= i < |top.state.trace| ==> !top.state.trace[i].Enumerate?;
    if top.outcome.KillFailed? {
      assert r == top;
    } else {
      var kids := Discovered(top.state.rows, pid, f, o.enumFailAt(pid));
      var s1 := State(top.state.rows, top.state.trace + [Enumerate(pid, f)]);
      DiscoveredRankBelow(top.state.rows, rank, pid, f, o.enumFailAt(pid));
      var below := StopForest(s1, pid, kids, f, true, o, rank);
      assert r == below;
      ParentFirstForestStopsBeforeLookup(s1, pid, kids, f, o, rank);
      assert s1.trace[|s.trace|] == Stopping(pid);
      assert StoppedBeforeLookup(s1.trace, |s.trace|);
      StoppedBeforeLookupExtends(s1.trace, below.state.trace, |s.trace|, |s1.trace|);
    }
  }

  lemma {:induction false} ParentFirstForestStopsBeforeLookup(s: State, parent: int, kids: seq<int>, fence: Option<int>, o: Oracle, rank: int -> nat)
    requires Ranked(s.rows, rank)
    requires forall k :: k in kids ==> rank(k) < rank(parent)
    ensures StoppedBeforeLookup(StopForest(s, parent, kids, fence, true, o, rank).state.trace, |s.trace|)
    decreases rank(parent), 0, |kids|
  {
    if kids != [] {
      var r := StopForest(s, parent, kids, fence, true, o, rank);
      var first := StopTree(s, kids[0], fence, true, o, rank);
      assert kids[0] in kids;
      ParentFirstStopsBeforeLookup(s, kids[0], fence, o, rank);
      if first.outcome.KillFailed? {
        assert r == first;
      } else {
        var rest := StopForest(first.state, parent, kids[1..], fence, true, o, rank);
        assert r == rest;
        ParentFirstForestStopsBeforeLookup(first.state, parent, kids[1..], fence, o, rank);
        StoppedBeforeLookupExtends(first.state.trace, rest.state.trace, |s.trace|, |first.state.trace|);
      }
    }
  }
}
