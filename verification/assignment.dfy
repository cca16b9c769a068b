/** The task assigner of src/Structure.hpp (`Assigner`): a pool of unclaimed
    station indices and a map from robot to claimed station. A robot asking
    for a task gets the unclaimed station with the best score, the lowest
    index winning ties; the source finds it by a stable insertion sort of the
    scores followed by a walk over the sorted indices. */
module Assignment {
  import opened Geometry
  import opened GameState
  import opened Scoring

  /** A score and a station index; index -1 means no task. */
  datatype Task = Task(score: real, worktopID: int)

  datatype Assigner = Assigner(available: set<int>, workDict: map<int, int>)

  /** The station indices 0 .. n-1. */
  function Range(n: int): (r: set<int>)
    ensures forall i :: i in r <==> 0 <= i < n
    decreases n
  {
    if n <= 0 then {} else Range(n - 1) + {n - 1}
  }

  lemma {:induction false} RangeSize(n: nat)
    ensures |Range(n)| == n
  {
    if n > 0 {
      RangeSize(n - 1);
      assert Range(n) == Range(n - 1) + {n - 1};
    }
  }

  /** Some robot claims station s. */
  ghost predicate Claimed(a: Assigner, s: int) {
    exists r :: r in a.workDict && a.workDict[r] == s
  }

  lemma ClaimedIsValue(m: map<int, int>, v: int)
    ensures v in m.Values <==> exists r :: r in m && m[r] == v
  {
    if v in m.Values && forall r :: r in m ==> m[r] != v {
      assert false;
    }
  }

  lemma NonEmptyHasMember(s: set<int>)
    requires s != {}
    ensures exists x :: x in s
  {
    if forall x :: x !in s {
    }
  }

  /** Called once after the map is loaded: every station index is unclaimed. */
  function Init(a: Assigner, n: int): (a': Assigner)
    ensures forall i :: i in a'.available <==> 0 <= i < n
    ensures a'.workDict == a.workDict
  {
    a.(available := Range(n))
  }

  // ------------------------------------------------------------- ordering

  /** Station x comes before station y: a higher score, or the same score and
      a lower index. This is a strict total order on the indices of `s`. */
  predicate Before(s: seq<real>, x: int, y: int) {
    0 <= x < |s| && 0 <= y < |s| && (s[x] > s[y] || (s[x] == s[y] && x < y))
  }

  /** `idx` lists station indices in non-increasing score order, equal scores
      in increasing index order. */
  predicate Ranked(s: seq<real>, idx: seq<int>) {
    forall a, b :: 0 <= a < b < |idx| ==> Before(s, idx[a], idx[b])
  }

  /** Every index 0 .. n-1 occurs in `idx`. */
  predicate Covers(idx: seq<int>, n: int) {
    forall m :: 0 <= m < n ==> m in idx
  }

  /** `idx` holds each of 0 .. n-1 (and nothing else). */
  predicate IsPermutationOfRange(idx: seq<int>, n: int) {
    && |idx| == n
    && (forall k :: 0 <= k < |idx| ==> 0 <= idx[k] < n)
    && Covers(idx, n)
  }

  /** A ranked sequence has no repeated index. */
  lemma RankedDistinct(s: seq<real>, idx: seq<int>)
    requires Ranked(s, idx)
    ensures forall a, b :: 0 <= a < b < |idx| ==> idx[a] != idx[b]
  {
  }

  /** Inserting index t behind every entry that scores at least as much and
      ahead of every entry that scores less keeps the sequence ranked. */
  lemma InsertRanked(s: seq<real>, p: seq<int>, j: int, t: int)
    requires t == |p| < |s|
    requires Ranked(s, p)
    requires forall k :: 0 <= k < |p| ==> 0 <= p[k] < t
    requires Covers(p, t)
    requires 0 <= j <= |p|
    requires j > 0 ==> s[p[j - 1]] >= s[t]
    requires forall k :: j <= k < |p| ==> s[p[k]] < s[t]
    ensures var q := p[..j] + [t] + p[j..];
            && Ranked(s, q)
            && (forall k :: 0 <= k < |q| ==> 0 <= q[k] <= t)
            && Covers(q, t + 1)
  {
    var q := p[..j] + [t] + p[j..];
    assert forall k :: 0 <= k < j ==> q[k] == p[k];
    assert q[j] == t;
    assert forall k :: j < k < |q| ==> q[k] == p[k - 1];
    forall a, b | 0 <= a < b < |q|
      ensures Before(s, q[a], q[b])
    {
      if b < j {
      } else if b == j {
        if a < j - 1 {
          assert Before(s, p[a], p[j - 1]);
        }
      } else if a < j {
      } else if a == j {
      } else {
        assert Before(s, p[a - 1], p[b - 1]);
      }
    }
    forall m | 0 <= m <= t
      ensures m in q
    {
      if m < t {
        assert m in p;
        var k :| 0 <= k < |p| && p[k] == m;
        if k < j {
          assert q[k] == m;
        } else {
          assert q[k + 1] == m;
        }
      } else {
        assert q[j] == m;
      }
    }
  }

  /** The source's stable insertion sort of station indices by descending
      score, on an array. */
  method GetSortedIndex(scores: seq<real>) returns (indexs: seq<int>)
    ensures IsPermutationOfRange(indexs, |scores|)
    ensures Ranked(scores, indexs)
  {
    var n := |scores|;
    if n == 0 {
      return [];
    }
    var a := new int[n];
    for i := 0 to n
      invariant forall k :: 0 <= k < i ==> a[k] == k
    {
      a[i] := i;
    }
    var i := 1;
    assert a[..1] == [0];
    while i < n
      invariant 1 <= i <= n
      invariant forall k :: i <= k < n ==> a[k] == k
      invariant Ranked(scores, a[..i])
      invariant forall k :: 0 <= k < i ==> 0 <= a[k] < i
      invariant Covers(a[..i], i)
    {
      InsertNext(scores, a, i);
      i := i + 1;
    }
    indexs := a[..];
    assert indexs == a[..i];
  }

  /** One pass of the outer loop: move index i = a[i] into place among the
      already ranked prefix a[..i]. */
  method InsertNext(scores: seq<real>, a: array<int>, i: int)
    requires a.Length == |scores| && 1 <= i < a.Length
    requires forall k :: i <= k < a.Length ==> a[k] == k
    requires Ranked(scores, a[..i])
    requires forall k :: 0 <= k < i ==> 0 <= a[k] < i
    requires Covers(a[..i], i)
    modifies a
    ensures forall k :: i + 1 <= k < a.Length ==> a[k] == k
    ensures Ranked(scores, a[..i + 1])
    ensures forall k :: 0 <= k < i + 1 ==> 0 <= a[k] < i + 1
    ensures Covers(a[..i + 1], i + 1)
  {
    var t := a[i];
    var j := i;
    while j > 0 && scores[t] > scores[a[j - 1]]
      invariant 0 <= j <= i
      invariant forall k :: j <= k < i ==> scores[a[k]] < scores[t]
    {
      j := j - 1;
    }
    ghost var prev := a[..i];
    ShiftRight(a, j, i);
    a[j] := t;
    assert a[..i + 1] == prev[..j] + [t] + prev[j..];
    InsertRanked(scores, prev, j, t);
  }

  /** Move a[j .. i-1] one slot to the right, overwriting a[i]. */
  method ShiftRight(a: array<int>, j: int, i: int)
    requires 0 <= j <= i < a.Length
    modifies a
    ensures forall m :: 0 <= m < j ==> a[m] == old(a[m])
    ensures forall m :: j < m <= i ==> a[m] == old(a[m - 1])
    ensures forall m :: i < m < a.Length ==> a[m] == old(a[m])
  {
    var k := i;
    while k > j
      invariant j <= k <= i
      invariant forall m :: 0 <= m <= k ==> a[m] == old(a[m])
      invariant forall m :: k < m <= i ==> a[m] == old(a[m - 1])
      invariant forall m :: i < m < a.Length ==> a[m] == old(a[m])
    {
      a[k] := a[k - 1];
      k := k - 1;
    }
  }

  // ------------------------------------------------------ best unclaimed

  /** b is the best pool member among the stations 0 .. k-1. */
  predicate IsBestBelow(pool: set<int>, s: seq<real>, b: int, k: int)
    requires k <= |s|
  {
    && 0 <= b < k && b in pool
    && forall m :: 0 <= m < k && m in pool && m != b ==> Before(s, b, m)
  }

  /** Reference choice: scan the stations in index order and keep the first
      one of highest score that is in the pool; -1 when none is. */
  function BestIn(pool: set<int>, s: seq<real>, k: int): (b: int)
    requires 0 <= k <= |s|
    ensures b == -1 <==> forall m :: 0 <= m < k ==> m !in pool
    ensures b != -1 ==> IsBestBelow(pool, s, b, k)
  {
    if k == 0 then -1
    else
      var b := BestIn(pool, s, k - 1);
      if k - 1 in pool && (b == -1 || s[k - 1] > s[b]) then k - 1 else b
  }

  /** There is at most one best pool member. */
  lemma BestUnique(pool: set<int>, s: seq<real>, b1: int, b2: int)
    requires IsBestBelow(pool, s, b1, |s|) && IsBestBelow(pool, s, b2, |s|)
    ensures b1 == b2
  {
  }

  /** Reference semantics of AssignTask on given scores: claim the best
      unclaimed station for `robotId`, or return the sentinel {0.0, -1} and
      change nothing. */
  function PickTask(a: Assigner, robotId: int, scores: seq<real>): (res: (Task, Assigner))
    ensures res.0.worktopID == -1 <==> forall m :: 0 <= m < |scores| ==> m !in a.available
    ensures res.0.worktopID == -1 ==> res.0.score == 0.0 && res.1 == a
    ensures var id := res.0.worktopID;
            id != -1 ==>
              && IsBestBelow(a.available, scores, id, |scores|)
              && res.0.score == scores[id]
              && res.1.available == a.available - {id}
              && res.1.workDict == a.workDict[robotId := id]
  {
    var b := BestIn(a.available, scores, |scores|);
    if b == -1 then (Task(0.0, -1), a)
    else (Task(scores[b], b), Assigner(a.available - {b}, a.workDict[robotId := b]))
  }

  /** The source's AssignTask: score every station for the robot, sort, and
      claim the first sorted index still in the pool. It agrees with the
      reference choice. */
  method AssignTask(o: MathOracle, g: Game, a: Assigner, robotId: int) returns (task: Task, a': Assigner)
    requires ValidOracle(o) && ValidRobot(g, robotId)
    ensures (task, a') == PickTask(a, robotId, EstimateWorktops(o, g, robotId))
  {
    var scores := EstimateWorktops(o, g, robotId);
    task, a' := AssignFromScores(a, robotId, scores);
  }

  /** Sort-and-walk on given scores: the first index in sorted order that is
      still in the pool is the best unclaimed station. */
  method AssignFromScores(a: Assigner, robotId: int, scores: seq<real>) returns (task: Task, a': Assigner)
    ensures (task, a') == PickTask(a, robotId, scores)
  {
    var sortedIndex := GetSortedIndex(scores);
    ghost var best := BestIn(a.available, scores, |scores|);
    var k := 0;
    while k < |sortedIndex|
      invariant 0 <= k <= |sortedIndex|
      invariant forall q :: 0 <= q < k ==> sortedIndex[q] !in a.available
    {
      var i := sortedIndex[k];
      if i in a.available {
        forall m | 0 <= m < |scores| && m in a.available && m != i
          ensures Before(scores, i, m)
        {
          assert m in sortedIndex;
          var q :| 0 <= q < |sortedIndex| && sortedIndex[q] == m;
          assert k < q;
        }
        BestUnique(a.available, scores, i, best);
        return Task(scores[i], i), Assigner(a.available - {i}, a.workDict[robotId := i]);
      }
      k := k + 1;
    }
    forall m | 0 <= m < |scores|
      ensures m !in a.available
    {
      assert m in sortedIndex;
      var q :| 0 <= q < |sortedIndex| && sortedIndex[q] == m;
    }
    return Task(0.0, -1), a;
  }

  /** The task of `robotId` is over, whether it succeeded or not: its station
      goes back to the pool and its claim is erased. A robot without a claim
      puts station 0 back, as a map lookup with a missing key yields 0. */
  function TaskOver(a: Assigner, robotId: int): (a': Assigner)
    ensures robotId !in a'.workDict
    ensures a'.workDict == a.workDict - {robotId}
    ensures robotId in a.workDict ==> a'.available == a.available + {a.workDict[robotId]}
    ensures robotId !in a.workDict ==> a'.available == a.available + {0}
  {
    var claimed := if robotId in a.workDict then a.workDict[robotId] else 0;
    Assigner(a.available + {claimed}, a.workDict - {robotId})
  }

  // ------------------------------------------------------- pool invariant

  /** Every station index below n is either unclaimed or claimed by exactly
      one robot, never both. */
  ghost predicate PoolInv(a: Assigner, n: int) {
    && (forall s :: s in a.available ==> 0 <= s < n)
    && (forall r :: r in a.workDict ==> 0 <= a.workDict[r] < n && a.workDict[r] !in a.available)
    && (forall r1, r2 :: r1 in a.workDict && r2 in a.workDict && r1 != r2 ==> a.workDict[r1] != a.workDict[r2])
    && (forall s :: 0 <= s < n && s !in a.available ==> Claimed(a, s))
  }

  /** An injective map has as many values as keys. */
  lemma {:induction false} InjectiveValuesSize(m: map<int, int>)
    requires forall r1, r2 :: r1 in m && r2 in m && r1 != r2 ==> m[r1] != m[r2]
    ensures |m.Values| == |m.Keys|
    decreases |m.Keys|
  {
    if m.Keys != {} {
      NonEmptyHasMember(m.Keys);
      var r :| r in m.Keys;
      var m' := m - {r};
      assert m'.Keys == m.Keys - {r};
      forall v | v in m.Values - {m[r]}
        ensures v in m'.Values
      {
        ClaimedIsValue(m, v);
        var r' :| r' in m && m[r'] == v;
        assert r' in m' && m'[r'] == v;
        ClaimedIsValue(m', v);
      }
      forall v | v in m'.Values
        ensures v in m.Values - {m[r]}
      {
        ClaimedIsValue(m', v);
        var r' :| r' in m' && m'[r'] == v;
        ClaimedIsValue(m, v);
      }
      assert m'.Values == m.Values - {m[r]};
      InjectiveValuesSize(m');
    }
  }

  /** Pool conservation: unclaimed stations plus claims make up all n stations. */
  lemma PoolConservation(a: Assigner, n: nat)
    requires PoolInv(a, n)
    ensures |a.available| + |a.workDict| == n
  {
    var values := a.workDict.Values;
    InjectiveValuesSize(a.workDict);
    forall s | s in values
      ensures 0 <= s < n && s !in a.available
    {
      ClaimedIsValue(a.workDict, s);
    }
    forall s | 0 <= s < n && s !in a.available
      ensures s in values
    {
      ClaimedIsValue(a.workDict, s);
    }
    assert a.available + values == Range(n);
    assert a.available !! values;
    RangeSize(n);
  }

  lemma InitEstablishesPool(a: Assigner, n: int)
    requires a.workDict == map[]
    ensures PoolInv(Init(a, n), n)
  {
  }

  /** Claiming keeps the pool invariant when the robot held no claim. */
  lemma PickTaskPreservesPool(a: Assigner, robotId: int, scores: seq<real>)
    requires PoolInv(a, |scores|) && robotId !in a.workDict
    ensures PoolInv(PickTask(a, robotId, scores).1, |scores|)
  {
    var res := PickTask(a, robotId, scores);
    var id := res.0.worktopID;
    if id != -1 {
      var a' := res.1;
      forall s | 0 <= s < |scores| && s !in a'.available
        ensures Claimed(a', s)
      {
        if s == id {
          assert a'.workDict[robotId] == id;
        } else {
          var r :| r in a.workDict && a.workDict[r] == s;
          assert a'.workDict[r] == s;
        }
      }
    }
  }

  /** Releasing keeps the pool invariant when the robot held a claim. */
  lemma TaskOverPreservesPool(a: Assigner, robotId: int, n: int)
    requires PoolInv(a, n) && robotId in a.workDict
    ensures PoolInv(TaskOver(a, robotId), n)
  {
    var a' := TaskOver(a, robotId);
    forall s | 0 <= s < n && s !in a'.available
      ensures Claimed(a', s)
    {
      var r :| r in a.workDict && a.workDict[r] == s;
      assert r != robotId;
      assert a'.workDict[r] == s;
    }
  }

  /** Releasing right after a claim gives back the assigner as it was. */
  lemma ClaimThenRelease(a: Assigner, robotId: int, scores: seq<real>)
    requires robotId !in a.workDict
    requires PickTask(a, robotId, scores).0.worktopID != -1
    ensures TaskOver(PickTask(a, robotId, scores).1, robotId) == a
  {
    var res := PickTask(a, robotId, scores);
    var id := res.0.worktopID;
    assert a.available - {id} + {id} == a.available;
    assert a.workDict[robotId := id] - {robotId} == a.workDict;
  }

  /** As written, releasing a robot that holds no claim is not a no-op: it
      puts station 0 back into the pool, which breaks the invariant while
      another robot holds station 0. */
  lemma TaskOverWithoutClaimBreaksPool(a: Assigner, robotId: int, other: int, n: int)
    requires PoolInv(a, n) && robotId !in a.workDict
    requires other in a.workDict && a.workDict[other] == 0
    ensures !PoolInv(TaskOver(a, robotId), n)
  {
    var a' := TaskOver(a, robotId);
    assert other in a'.workDict && a'.workDict[other] == 0 && 0 in a'.available;
  }
}
