/**
 * The operating system's process table, as the process helper sees it, and the two
 * read-only operations over it: the start-time lookup and fenced child discovery.
 *
 * The table lists the LIVE processes in the order in which the process-table query
 * enumerates them. Start times are abstract instants (integers).
 */
module Processes {
  import opened Wrappers

  /** One row of the process table: the process id, the id recorded as its parent, and its creation time. */
  datatype ProcessEntry = ProcessEntry(pid: int, parentPid: int, startTime: int)

  /** A live process with this pid is in the table. */
  ghost predicate Live(rows: seq<ProcessEntry>, pid: int) {
    exists row :: row in rows && row.pid == pid
  }

  /** No two live processes share a pid. */
  ghost predicate Distinct(rows: seq<ProcessEntry>) {
    rows == [] || (!Live(rows[1..], rows[0].pid) && Distinct(rows[1..]))
  }

  /** A non-zero pid whose recorded parent is `parent`: a process that child discovery can report. */
  ghost predicate ChildOf(rows: seq<ProcessEntry>, child: int, parent: int) {
    child != 0 && exists row :: row in rows && row.pid == child && row.parentPid == parent
  }

  /** `x` is reached from `p` by `n + 1` child steps. */
  ghost predicate DescendsFrom(rows: seq<ProcessEntry>, x: int, p: int, n: nat)
    decreases n
  {
    if n == 0 then ChildOf(rows, x, p)
    else exists k :: ChildOf(rows, k, p) && DescendsFrom(rows, x, k, n - 1)
  }

  /** `x` is a proper descendant of `p` through the recorded parent pids. */
  ghost predicate Descendant(rows: seq<ProcessEntry>, x: int, p: int) {
    exists n: nat :: DescendsFrom(rows, x, p, n)
  }

  lemma {:induction false} DistinctUnique(rows: seq<ProcessEntry>, a: ProcessEntry, b: ProcessEntry)
    requires Distinct(rows) && a in rows && b in rows && a.pid == b.pid
    ensures a == b
  {
    assert a == rows[0] || a in rows[1..];
    assert b == rows[0] || b in rows[1..];
    if a in rows[1..] && b in rows[1..] {
      DistinctUnique(rows[1..], a, b);
    }
  }

  /** Resolving a pid to a live process (`Process.GetProcessById`): the first row with that pid. */
  function GetProcessById(rows: seq<ProcessEntry>, pid: int): (p: Option<ProcessEntry>)
    ensures p.Some? <==> Live(rows, pid)
    ensures p.Some? ==> p.value in rows && p.value.pid == pid
  {
    if rows == [] then None
    else if rows[0].pid == pid then Some(rows[0])
    else
      assert forall row :: row in rows <==> row == rows[0] || row in rows[1..];
      GetProcessById(rows[1..], pid)
  }

  /** The start-time lookup: the creation time of a live pid, none for a pid that is not live. It never fails. */
  function TryGetProcessStartTime(rows: seq<ProcessEntry>, pid: int): (t: Option<int>)
    ensures t.Some? <==> Live(rows, pid)
    ensures Distinct(rows) ==> forall row :: row in rows && row.pid == pid ==> t == Some(row.startTime)
  {
    match GetProcessById(rows, pid)
    case None => None
    case Some(p) =>
      assert Distinct(rows) ==> forall row :: row in rows && row.pid == pid ==> row == p by {
        forall row | Distinct(rows) && row in rows && row.pid == pid { DistinctUnique(rows, row, p); }
      }
      Some(p.startTime)
  }

  /** The table once the process `pid` has exited: every other row is kept, in order. */
  function Without(rows: seq<ProcessEntry>, pid: int): (r: seq<ProcessEntry>)
    ensures forall row :: row in r <==> row in rows && row.pid != pid
    ensures !Live(r, pid)
    ensures Distinct(rows) ==> Distinct(r)
  {
    if rows == [] then []
    else
      assert forall row :: row in rows <==> row == rows[0] || row in rows[1..];
      var rest := Without(rows[1..], pid);
      if rows[0].pid == pid then rest
      else
        assert ([rows[0]] + rest)[1..] == rest;
        [rows[0]] + rest
  }

  /** The process-table query "processes whose recorded parent is pid", in enumeration order. */
  function Candidates(rows: seq<ProcessEntry>, pid: int): (r: seq<ProcessEntry>)
    ensures |r| <= |rows|
    ensures forall i :: 0 <= i < |r| ==> r[i].parentPid == pid
  {
    if rows == [] then []
    else (if rows[0].parentPid == pid then [rows[0]] else []) + Candidates(rows[1..], pid)
  }

  /** The query yields exactly the rows whose recorded parent is `pid`. */
  lemma {:induction false} CandidateMembers(rows: seq<ProcessEntry>, pid: int)
    ensures forall row :: row in Candidates(rows, pid) <==> row in rows && row.parentPid == pid
  {
    if rows != [] {
      assert forall row :: row in rows <==> row == rows[0] || row in rows[1..];
      CandidateMembers(rows[1..], pid);
    }
  }

  /** Over a table with distinct pids, the candidates have distinct pids too. */
  lemma {:induction false} CandidatesDistinct(rows: seq<ProcessEntry>, pid: int)
    requires Distinct(rows)
    ensures Distinct(Candidates(rows, pid))
  {
    if rows != [] {
      var rest := Candidates(rows[1..], pid);
      CandidatesDistinct(rows[1..], pid);
      if rows[0].parentPid == pid {
        CandidateMembers(rows[1..], pid);
        assert ([rows[0]] + rest)[1..] == rest;
        assert Candidates(rows, pid) == [rows[0]] + rest;
      } else {
        assert [] + rest == rest;
        assert Candidates(rows, pid) == rest;
      }
    }
  }

  /** The fence test: a candidate created strictly before the fence holds a reused pid. */
  predicate Skipped(row: ProcessEntry, fence: Option<int>)
    ensures fence.None? ==> !Skipped(row, fence)
    ensures fence.Some? && fence.value <= row.startTime ==> !Skipped(row, fence)
  {
    fence.Some? && row.startTime < fence.value
  }

  /** A candidate is reported when the fence does not skip it and its pid is not 0. */
  predicate Admitted(row: ProcessEntry, fence: Option<int>)
    ensures Admitted(row, fence) ==> row.pid != 0
    ensures fence.None? ==> (Admitted(row, fence) <==> row.pid != 0)
  {
    row.pid != 0 && !Skipped(row, fence)
  }

  /** What the discovery loop collects from the first `n` candidates: the admitted pids, in order. */
  function Harvest(cands: seq<ProcessEntry>, n: nat, fence: Option<int>): (r: seq<int>)
    requires n <= |cands|
    ensures |r| <= n
  {
    if n == 0 then []
    else Harvest(cands, n - 1, fence) + (if Admitted(cands[n - 1], fence) then [cands[n - 1].pid] else [])
  }

  /** The harvest of the first `n` candidates holds exactly their admitted pids; pid 0 is never admitted. */
  lemma {:induction false} HarvestMembers(cands: seq<ProcessEntry>, n: nat, fence: Option<int>)
    requires n <= |cands|
    ensures forall c :: c in Harvest(cands, n, fence) <==> exists row :: row in cands[..n] && row.pid == c && Admitted(row, fence)
    ensures 0 !in Harvest(cands, n, fence)
  {
    if n > 0 {
      assert cands[..n] == cands[..n - 1] + [cands[n - 1]];
      assert forall row :: row in cands[..n] <==> row in cands[..n - 1] || row == cands[n - 1];
      HarvestMembers(cands, n - 1, fence);
    }
  }

  /** Harvesting fewer candidates gives a prefix of the longer harvest. */
  lemma {:induction false} HarvestPrefix(cands: seq<ProcessEntry>, k: nat, n: nat, fence: Option<int>)
    requires k <= n <= |cands|
    ensures Harvest(cands, k, fence) <= Harvest(cands, n, fence)
    decreases n
  {
    if k < n {
      HarvestPrefix(cands, k, n - 1, fence);
    }
  }

  /** The children of `pid` that discovery reports when the enumeration does not fail. */
  function ChildPids(rows: seq<ProcessEntry>, pid: int, fence: Option<int>): (r: seq<int>)
    ensures forall c :: c in r <==>
      exists row :: row in rows && row.parentPid == pid && row.pid == c && Admitted(row, fence)
    ensures forall c :: c in r ==> ChildOf(rows, c, pid)
    ensures fence.None? ==> forall c :: c in r <==> ChildOf(rows, c, pid)
  {
    var cands := Candidates(rows, pid);
    CandidateMembers(rows, pid);
    HarvestMembers(cands, |cands|, fence);
    assert cands[..|cands|] == cands;
    Harvest(cands, |cands|, fence)
  }

  /** How many of `n` candidates the enumeration yields before it fails at position `failAt` (all of them if it does not). */
  function Yielded(n: nat, failAt: Option<nat>): (k: nat)
    ensures k <= n
  {
    if failAt.Some? && failAt.value < n then failAt.value else n
  }

  /** What child discovery returns: the admitted pids among the candidates enumerated before any failure. */
  function Discovered(rows: seq<ProcessEntry>, pid: int, fence: Option<int>, failAt: Option<nat>): (r: seq<int>)
    ensures forall c :: c in r ==> ChildOf(rows, c, pid)
  {
    var cands := Candidates(rows, pid);
    var k := Yielded(|cands|, failAt);
    CandidateMembers(rows, pid);
    HarvestMembers(cands, k, fence);
    assert forall row :: row in cands[..k] ==> row in cands;
    Harvest(cands, k, fence)
  }

  /**
   * Discovery under failure: what it returns is a prefix of the full answer, the full answer
   * when the enumeration does not fail, and the empty list when it fails before the first row.
   */
  lemma DiscoveredPrefix(rows: seq<ProcessEntry>, pid: int, fence: Option<int>, failAt: Option<nat>)
    ensures Discovered(rows, pid, fence, failAt) <= ChildPids(rows, pid, fence)
    ensures failAt.None? ==> Discovered(rows, pid, fence, failAt) == ChildPids(rows, pid, fence)
    ensures failAt == Some(0) ==> Discovered(rows, pid, fence, failAt) == []
  {
    var cands := Candidates(rows, pid);
    HarvestPrefix(cands, Yielded(|cands|, failAt), |cands|, fence);
  }

  /**
   * The fence decides: with a fence, a live row whose recorded parent is `pid` (and whose
   * pid is not 0) is reported exactly when it was created no earlier than the fence.
   */
  lemma FenceDecides(rows: seq<ProcessEntry>, pid: int, fence: int, row: ProcessEntry)
    requires Distinct(rows)
    requires row in rows && row.parentPid == pid && row.pid != 0
    ensures row.pid in ChildPids(rows, pid, Some(fence)) <==> row.startTime >= fence
  {
    if row.pid in ChildPids(rows, pid, Some(fence)) {
      var other :| other in rows && other.parentPid == pid && other.pid == row.pid && Admitted(other, Some(fence));
      DistinctUnique(rows, row, other);
    }
  }

  /**
   * Fenced by the parent's own start time, a live row whose recorded parent is `pid` (and
   * whose pid is not 0) is reported exactly when it was not created before that parent.
   */
  lemma OwnStartTimeFence(rows: seq<ProcessEntry>, pid: int, row: ProcessEntry)
    requires Distinct(rows)
    requires row in rows && row.parentPid == pid && row.pid != 0
    ensures row.pid in ChildPids(rows, pid, TryGetProcessStartTime(rows, pid)) <==>
      forall p :: p in rows && p.pid == pid ==> p.startTime <= row.startTime
  {
    var t := TryGetProcessStartTime(rows, pid);
    if t.Some? {
      FenceDecides(rows, pid, t.value, row);
    }
  }

  lemma ChildOfMono(rows: seq<ProcessEntry>, sub: seq<ProcessEntry>, c: int, p: int)
    requires forall row :: row in sub ==> row in rows
    requires ChildOf(sub, c, p)
    ensures ChildOf(rows, c, p)
  {
    var row :| row in sub && row.pid == c && row.parentPid == p;
    assert row in rows;
  }

  lemma {:induction false} DescendsFromMono(rows: seq<ProcessEntry>, sub: seq<ProcessEntry>, x: int, p: int, n: nat)
    requires forall row :: row in sub ==> row in rows
    requires DescendsFrom(sub, x, p, n)
    ensures DescendsFrom(rows, x, p, n)
    decreases n
  {
    if n == 0 {
      ChildOfMono(rows, sub, x, p);
    } else {
      var k :| ChildOf(sub, k, p) && DescendsFrom(sub, x, k, n - 1);
      ChildOfMono(rows, sub, k, p);
      DescendsFromMono(rows, sub, x, k, n - 1);
    }
  }

  /** A process that descends in part of the table descends in the whole table. */
  lemma DescendantMono(rows: seq<ProcessEntry>, sub: seq<ProcessEntry>, x: int, p: int)
    requires forall row :: row in sub ==> row in rows
    requires Descendant(sub, x, p)
    ensures Descendant(rows, x, p)
  {
    var n: nat :| DescendsFrom(sub, x, p, n);
    DescendsFromMono(rows, sub, x, p, n);
  }

  /** A child of `p`, and everything below that child, is below `p`. */
  lemma DescendantStep(rows: seq<ProcessEntry>, x: int, k: int, p: int)
    requires ChildOf(rows, k, p)
    requires x == k || Descendant(rows, x, k)
    ensures Descendant(rows, x, p)
  {
    if x == k {
      assert DescendsFrom(rows, x, p, 0);
    } else {
      var n: nat :| DescendsFrom(rows, x, k, n);
      assert DescendsFrom(rows, x, p, n + 1);
    }
  }
  /** No pid occurs twice. */
  ghost predicate NoRepeats(xs: seq<int>) {
    forall i, j :: 0 <= i < j < |xs| ==> xs[i] != xs[j]
  }

  /** Distinct pids, position by position. */
  lemma {:induction false} DistinctIndices(rows: seq<ProcessEntry>, i: nat, j: nat)
    requires Distinct(rows) && i < j < |rows|
    ensures rows[i].pid != rows[j].pid
  {
    assert rows[j] == rows[1..][j - 1];
    if i > 0 {
      assert rows[i] == rows[1..][i - 1];
      DistinctIndices(rows[1..], i - 1, j - 1);
    }
  }

  /** Over candidates with distinct pids, the loop never collects a pid twice. */
  lemma {:induction false} HarvestNoRepeats(cands: seq<ProcessEntry>, n: nat, fence: Option<int>)
    requires Distinct(cands) && n <= |cands|
    ensures NoRepeats(Harvest(cands, n, fence))
  {
    if n > 0 {
      HarvestNoRepeats(cands, n - 1, fence);
      HarvestMembers(cands, n - 1, fence);
      var h := Harvest(cands, n - 1, fence);
      forall c | c in h
        ensures c != cands[n - 1].pid
      {
        var row :| row in cands[..n - 1] && row.pid == c && Admitted(row, fence);
        var m :| 0 <= m < n - 1 && cands[..n - 1][m] == row;
        DistinctIndices(cands, m, n - 1);
      }
      var r := h + (if Admitted(cands[n - 1], fence) then [cands[n - 1].pid] else []);
      forall i, j | 0 <= i < j < |r|
        ensures r[i] != r[j]
      {
        if j < |h| {
          assert r[i] == h[i] && r[j] == h[j];
        } else {
          assert r[i] == h[i] && h[i] in h;
        }
      }
    }
  }

  /** Child discovery over a table with distinct pids never reports a pid twice. */
  lemma DiscoveredNoRepeats(rows: seq<ProcessEntry>, pid: int, fence: Option<int>, failAt: Option<nat>)
    requires Distinct(rows)
    ensures NoRepeats(Discovered(rows, pid, fence, failAt))
  {
    var cands := Candidates(rows, pid);
    CandidatesDistinct(rows, pid);
    HarvestNoRepeats(cands, Yielded(|cands|, failAt), fence);
  }

  /** `x` is `p` itself or a descendant of `p`. */
  ghost predicate Below(rows: seq<ProcessEntry>, x: int, p: int) {
    x == p || Descendant(rows, x, p)
  }

  /** Read bottom-up: a descendant `n + 1` steps below `p` has a parent `n` steps below `p`. */
  lemma {:induction false} DescendsFromUp(rows: seq<ProcessEntry>, x: int, p: int, n: nat)
    requires DescendsFrom(rows, x, p, n + 1)
    ensures exists q :: ChildOf(rows, x, q) && DescendsFrom(rows, q, p, n)
    decreases n
  {
    var k :| ChildOf(rows, k, p) && DescendsFrom(rows, x, k, n);
    if n == 0 {
      assert ChildOf(rows, x, k) && DescendsFrom(rows, k, p, 0);
    } else {
      DescendsFromUp(rows, x, k, n - 1);
      var q :| ChildOf(rows, x, q) && DescendsFrom(rows, q, k, n - 1);
      assert DescendsFrom(rows, q, p, n);
    }
  }

  /** A descendant of `p` has a recorded parent that is `p` or below `p`. */
  lemma DescendantUp(rows: seq<ProcessEntry>, x: int, p: int)
    requires Descendant(rows, x, p)
    ensures exists q :: ChildOf(rows, x, q) && Below(rows, q, p)
  {
    var n: nat :| DescendsFrom(rows, x, p, n);
    if n == 0 {
      assert ChildOf(rows, x, p) && Below(rows, p, p);
    } else {
      DescendsFromUp(rows, x, p, n - 1);
      var q :| ChildOf(rows, x, q) && DescendsFrom(rows, q, p, n - 1);
      assert Below(rows, q, p);
    }
  }

  /** With distinct pids, a process has one recorded parent. */
  lemma UniqueParent(rows: seq<ProcessEntry>, x: int, q: int, q': int)
    requires Distinct(rows)
    ensures ChildOf(rows, x, q) && ChildOf(rows, x, q') ==> q == q'
  {
    if ChildOf(rows, x, q) && ChildOf(rows, x, q') {
      var a :| a in rows && a.pid == x && a.parentPid == q;
      var b :| b in rows && b.pid == x && b.parentPid == q';
      DistinctUnique(rows, a, b);
    }
  }

  lemma {:induction false} DescendsFromTrans(rows: seq<ProcessEntry>, x: int, y: int, z: int, m: nat, n: nat)
    requires DescendsFrom(rows, x, y, m) && DescendsFrom(rows, y, z, n)
    ensures DescendsFrom(rows, x, z, m + n + 1)
    decreases n
  {
    if n == 0 {
      assert ChildOf(rows, y, z) && DescendsFrom(rows, x, y, m);
    } else {
      var k :| ChildOf(rows, k, z) && DescendsFrom(rows, y, k, n - 1);
      DescendsFromTrans(rows, x, y, k, m, n - 1);
      assert ChildOf(rows, k, z) && DescendsFrom(rows, x, k, m + n);
    }
  }

  /** Being below is transitive. */
  lemma BelowTrans(rows: seq<ProcessEntry>, x: int, y: int, z: int)
    ensures Below(rows, x, y) && Below(rows, y, z) ==> Below(rows, x, z)
  {
    if Descendant(rows, x, y) && Descendant(rows, y, z) {
      var m: nat :| DescendsFrom(rows, x, y, m);
      var n: nat :| DescendsFrom(rows, y, z, n);
      DescendsFromTrans(rows, x, y, z, m, n);
    }
  }

  lemma BelowMono(rows: seq<ProcessEntry>, sub: seq<ProcessEntry>, x: int, p: int)
    requires forall row :: row in sub ==> row in rows
    ensures Below(sub, x, p) ==> Below(rows, x, p)
  {
    if Descendant(sub, x, p) {
      DescendantMono(rows, sub, x, p);
    }
  }
}
