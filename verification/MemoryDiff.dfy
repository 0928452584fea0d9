/** diffMemorySnapshots of debugger/agent/agent_api.cpp: the changed ranges of two snapshots. */
module MemoryDiff {
  import opened Words

  datatype DiffRange = DiffRange(address: Word, oldBytes: seq<Byte>, newBytes: seq<Byte>)

  datatype Error = InvalidRange | NotFound | LimitExceeded

  datatype Result = Fail(error: Error) | Diff(ranges: seq<DiffRange>, changedBytes: nat)

  datatype Snapshot = Snapshot(start: Word, data: seq<Byte>)

  const MAX_RANGES := 4096
  const MAX_BYTES := 32768

  predicate CoversWindow(s: Snapshot, start: Word, length: nat)
  {
    start >= s.start && start + length <= s.start + |s.data|
  }

  function Window(s: Snapshot, start: Word, length: nat): (w: seq<Byte>)
    requires CoversWindow(s, start, length)
    ensures |w| == length
  {
    s.data[start - s.start..start - s.start + length]
  }

  /** Number of positions before i where the windows differ. */
  function Changes(a: seq<Byte>, b: seq<Byte>, i: nat): (n: nat)
    requires |a| == |b| && i <= |a|
    ensures n <= i
  {
    if i == 0 then 0 else Changes(a, b, i - 1) + if a[i - 1] != b[i - 1] then 1 else 0
  }

  /** Number of maximal runs of differing positions that start before i. */
  function RunStarts(a: seq<Byte>, b: seq<Byte>, i: nat): nat
    requires |a| == |b| && i <= |a|
  {
    if i == 0 then 0
    else RunStarts(a, b, i - 1) + if a[i - 1] != b[i - 1] && (i == 1 || a[i - 2] == b[i - 2]) then 1 else 0
  }

  /** Both counts only grow, so exceeding a limit on the way is exceeding it at the end. */
  lemma {:induction false} CountsGrow(a: seq<Byte>, b: seq<Byte>, i: nat, j: nat)
    requires |a| == |b| && i <= j <= |a|
    ensures Changes(a, b, i) <= Changes(a, b, j) && RunStarts(a, b, i) <= RunStarts(a, b, j)
    decreases j
  {
    if i < j {
      CountsGrow(a, b, i, j - 1);
    }
  }

  /** Overwrites the ranges' places with their new bytes. */
  function Apply(a: seq<Byte>, start: Word, rs: seq<DiffRange>): (r: seq<Byte>)
    ensures |r| == |a|
  {
    if rs == [] then a
    else
      var p := Apply(a, start, rs[..|rs| - 1]);
      var g := rs[|rs| - 1];
      var at := g.address - start;
      if 0 <= at && at + |g.newBytes| <= |a| then p[..at] + g.newBytes + p[at + |g.newBytes|..] else p
  }

  /** A maximal run of n differences at offset `at`, with the old and the new bytes. */
  ghost predicate RangeParts(a: seq<Byte>, b: seq<Byte>, at: int, n: nat, x: seq<Byte>, y: seq<Byte>)
    requires |a| == |b|
  {
    && 0 <= at && n > 0 && at + n <= |a| && |x| == |y| == n && x == a[at..at + n] && y == b[at..at + n]
    && (forall k | at <= k < at + n :: a[k] != b[k])
    && (at > 0 ==> a[at - 1] == b[at - 1]) && (at + n < |a| ==> a[at + n] == b[at + n])
  }

  /** One reported range: old and new bytes of a maximal run of differences. */
  ghost predicate RangeOk(g: DiffRange, a: seq<Byte>, b: seq<Byte>, start: Word)
    requires |a| == |b|
  {
    RangeParts(a, b, g.address - start, |g.oldBytes|, g.oldBytes, g.newBytes)
  }

  ghost predicate Ascending(rs: seq<DiffRange>)
  {
    forall i, j | 0 <= i < j < |rs| :: rs[i].address + |rs[i].oldBytes| < rs[j].address
  }

  /** The ranges found before position i. */
  ghost predicate FoundTo(rs: seq<DiffRange>, a: seq<Byte>, b: seq<Byte>, start: Word, i: nat)
    requires |a| == |b| && i <= |a|
  {
    && (forall g <- rs :: RangeOk(g, a, b, start) && g.address - start + |g.oldBytes| <= i)
    && Ascending(rs)
    && Apply(a, start, rs) == b[..i] + a[i..]
    && |rs| == RunStarts(a, b, i)
    && (i < |a| && i > 0 && a[i - 1] != b[i - 1] ==> a[i] == b[i])
  }

  lemma SkipEqual(rs: seq<DiffRange>, a: seq<Byte>, b: seq<Byte>, start: Word, i: nat)
    requires |a| == |b| && i < |a| && a[i] == b[i] && FoundTo(rs, a, b, start, i)
    ensures FoundTo(rs, a, b, start, i + 1)
  {
    hide RangeOk, Apply;
    assert b[..i] + a[i..] == b[..i + 1] + a[i + 1..];
  }

  lemma {:induction false} RunCounts(a: seq<Byte>, b: seq<Byte>, i: nat, j: nat)
    requires |a| == |b| && i < j <= |a| && (forall k | i <= k < j :: a[k] != b[k]) && (i > 0 ==> a[i - 1] == b[i - 1])
    ensures RunStarts(a, b, j) == RunStarts(a, b, i) + 1 && Changes(a, b, j) == Changes(a, b, i) + j - i
    decreases j
  {
    if j > i + 1 {
      RunCounts(a, b, i, j - 1);
    }
  }

  lemma ApplyMore(a: seq<Byte>, b: seq<Byte>, start: Word, rs: seq<DiffRange>, i: nat, j: nat)
    requires |a| == |b| && i < j <= |a| && start + |a| <= 65536 && Apply(a, start, rs) == b[..i] + a[i..]
    ensures Apply(a, start, rs + [DiffRange(start + i, a[i..j], b[i..j])]) == b[..j] + a[j..]
  {
    hide Apply;
    var g := DiffRange(start + i, a[i..j], b[i..j]);
    ApplyLast(a, start, rs, g);
    Patched(a, b, i, j);
  }

  lemma Patched(a: seq<Byte>, b: seq<Byte>, i: nat, j: nat)
    requires |a| == |b| && i <= j <= |a|
    ensures var p := b[..i] + a[i..]; p[..i] + b[i..j] + p[j..] == b[..j] + a[j..]
  {
    var p := b[..i] + a[i..];
    assert p[..i] == b[..i] && p[j..] == a[j..] && b[..i] + b[i..j] == b[..j];
  }

  lemma ApplyLast(a: seq<Byte>, start: Word, rs: seq<DiffRange>, g: DiffRange)
    ensures var p, at := Apply(a, start, rs), g.address - start;
            0 <= at && at + |g.newBytes| <= |a| ==>
              Apply(a, start, rs + [g]) == p[..at] + g.newBytes + p[at + |g.newBytes|..]
  {
    assert (rs + [g])[..|rs|] == rs;
  }

  lemma AddRange(rs: seq<DiffRange>, a: seq<Byte>, b: seq<Byte>, start: Word, i: nat, j: nat)
    requires |a| == |b| && i < j <= |a| && start + |a| <= 65536 && FoundTo(rs, a, b, start, i)
    requires (forall k | i <= k < j :: a[k] != b[k]) && (j < |a| ==> a[j] == b[j])
    ensures FoundTo(rs + [DiffRange(start + i, a[i..j], b[i..j])], a, b, start, j)
  {
    hide RangeOk, Apply, RunStarts, Changes;
    var g := DiffRange(start + i, a[i..j], b[i..j]);
    var rs' := rs + [g];
    assert a[i] != b[i];
    RunCounts(a, b, i, j);
    ApplyMore(a, b, start, rs, i, j);
    assert RangeOk(g, a, b, start) by { NewRange(a, b, start, i, j); }
    forall x | 0 <= x < |rs| ensures rs[x].address + |rs[x].oldBytes| < g.address {
      assert rs[x] in rs && RangeOk(rs[x], a, b, start);
      EndsEqual(rs[x], a, b, start);
    }
    forall x <- rs' ensures RangeOk(x, a, b, start) && x.address - start + |x.oldBytes| <= j {
      assert x in rs || x == g;
    }
  }

  lemma NewRange(a: seq<Byte>, b: seq<Byte>, start: Word, i: nat, j: nat)
    requires |a| == |b| && i < j <= |a| && start + |a| <= 65536
    requires (forall k | i <= k < j :: a[k] != b[k]) && (j < |a| ==> a[j] == b[j]) && (i > 0 ==> a[i - 1] == b[i - 1])
    ensures RangeOk(DiffRange(start + i, a[i..j], b[i..j]), a, b, start)
  {
    var x, y := a[i..j], b[i..j];
    assert |x| == |y| == j - i && i + |x| == j;
    assert RangeParts(a, b, i, j - i, x, y);
  }

  lemma EndsEqual(g: DiffRange, a: seq<Byte>, b: seq<Byte>, start: Word)
    requires |a| == |b| && RangeOk(g, a, b, start)
    ensures var e := g.address - start + |g.oldBytes|; e < |a| ==> a[e] == b[e]
  {
  }

  /** A diff that fits the limits patches A into B and lists the maximal changed ranges in order;
      one that does not fit is an error, never a shortened list. */
  method DiffMemorySnapshots(snapA: Snapshot, snapB: Snapshot, start: Word, length: nat) returns (r: Result)
    ensures r == Fail(NotFound) <==>
              0 < length && start + length <= 0x10000 && (snapA.data == [] || snapB.data == [])
    ensures r == Fail(InvalidRange) <==>
              length == 0 || start + length > 0x10000
              || (snapA.data != [] && snapB.data != []
                  && (!CoversWindow(snapA, start, length) || !CoversWindow(snapB, start, length)))
    ensures r != Fail(InvalidRange) && r != Fail(NotFound) ==>
              var a, b := Window(snapA, start, length), Window(snapB, start, length);
              (r == Fail(LimitExceeded) <==> RunStarts(a, b, length) > MAX_RANGES || Changes(a, b, length) > MAX_BYTES)
    ensures r.Diff? ==>
              var a, b := Window(snapA, start, length), Window(snapB, start, length);
              && Apply(a, start, r.ranges) == b && r.changedBytes == Changes(a, b, length)
              && Ascending(r.ranges) && forall g <- r.ranges :: RangeOk(g, a, b, start)
  {
    if length == 0 || start + length > 0x10000 {
      return Fail(InvalidRange);
    }
    if snapA.data == [] || snapB.data == [] {
      return Fail(NotFound);
    }
    if !CoversWindow(snapA, start, length) || !CoversWindow(snapB, start, length) {
      return Fail(InvalidRange);
    }
    hide RangeOk, Apply, RunStarts, Changes, Ascending;
    r := Scan(Window(snapA, start, length), Window(snapB, start, length), start);
  }

  /** One run of differences, from i to its end. */
  method CollectRun(a: seq<Byte>, b: seq<Byte>, i: nat) returns (j: nat, oldBytes: seq<Byte>, newBytes: seq<Byte>)
    requires |a| == |b| && i < |a| && a[i] != b[i]
    ensures i < j <= |a| && (forall k | i <= k < j :: a[k] != b[k]) && (j < |a| ==> a[j] == b[j])
    ensures oldBytes == a[i..j] && newBytes == b[i..j]
  {
    j, oldBytes, newBytes := i, [], [];
    while j < |a| && a[j] != b[j]
      invariant i <= j <= |a| && forall k | i <= k < j :: a[k] != b[k]
      invariant oldBytes == a[i..j] && newBytes == b[i..j]
    {
      oldBytes, newBytes := oldBytes + [a[j]], newBytes + [b[j]];
      j := j + 1;
    }
  }

  /** The byte-for-byte comparison. */
  method Scan(a: seq<Byte>, b: seq<Byte>, start: Word) returns (r: Result)
    requires |a| == |b| && start + |a| <= 65536
    ensures r == Fail(LimitExceeded) <==> RunStarts(a, b, |a|) > MAX_RANGES || Changes(a, b, |a|) > MAX_BYTES
    ensures r != Fail(LimitExceeded) ==>
              && r.Diff? && Apply(a, start, r.ranges) == b && r.changedBytes == Changes(a, b, |a|)
              && Ascending(r.ranges) && forall g <- r.ranges :: RangeOk(g, a, b, start)
  {
    hide RangeOk, Apply, RunStarts, Changes, FoundTo, Ascending;
    var ranges, changed := [], 0;
    var i := 0;
    NothingFound(a, b, start);
    while i < |a|
      invariant i <= |a| && FoundTo(ranges, a, b, start, i) && changed == Changes(a, b, i)
      invariant RunStarts(a, b, i) <= MAX_RANGES && Changes(a, b, i) <= MAX_BYTES
    {
      if a[i] == b[i] {
        SkipEqual(ranges, a, b, start, i);
        Unchanged(a, b, i);
        i := i + 1;
      } else {
        var j, oldBytes, newBytes := CollectRun(a, b, i);
        if i > 0 {
          BeforeRun(ranges, a, b, start, i);
        }
        RunCounts(a, b, i, j);
        AddRange(ranges, a, b, start, i, j);
        changed := changed + |oldBytes|;
        ranges := ranges + [DiffRange(start + i, oldBytes, newBytes)];
        i := j;
        FoundCount(ranges, a, b, start, i);
        if |ranges| > MAX_RANGES || changed > MAX_BYTES {
          CountsGrow(a, b, i, |a|);
          return Fail(LimitExceeded);
        }
      }
    }
    Complete(ranges, a, b, start);
    r := Diff(ranges, changed);
  }

  lemma NothingFound(a: seq<Byte>, b: seq<Byte>, start: Word)
    requires |a| == |b|
    ensures FoundTo([], a, b, start, 0) && Changes(a, b, 0) == 0 && RunStarts(a, b, 0) == 0
  {
  }

  lemma Unchanged(a: seq<Byte>, b: seq<Byte>, i: nat)
    requires |a| == |b| && i < |a| && a[i] == b[i]
    ensures Changes(a, b, i + 1) == Changes(a, b, i) && RunStarts(a, b, i + 1) == RunStarts(a, b, i)
  {
  }

  lemma BeforeRun(rs: seq<DiffRange>, a: seq<Byte>, b: seq<Byte>, start: Word, i: nat)
    requires |a| == |b| && 0 < i < |a| && FoundTo(rs, a, b, start, i) && a[i] != b[i]
    ensures a[i - 1] == b[i - 1]
  {
  }

  lemma FoundCount(rs: seq<DiffRange>, a: seq<Byte>, b: seq<Byte>, start: Word, i: nat)
    requires |a| == |b| && i <= |a| && FoundTo(rs, a, b, start, i)
    ensures |rs| == RunStarts(a, b, i)
  {
  }

  lemma Complete(rs: seq<DiffRange>, a: seq<Byte>, b: seq<Byte>, start: Word)
    requires |a| == |b| && FoundTo(rs, a, b, start, |a|)
    ensures Apply(a, start, rs) == b && Ascending(rs) && forall g <- rs :: RangeOk(g, a, b, start)
  {
    assert b[..|a|] + a[|a|..] == b;
  }
}
