/**
  Scanning the buffer of task records that ffrt fills: a walk over record-sized
  steps of a byte buffer that stops at the first record without a name, with
  64-bit accumulators for the durations.
 */
module FfrtParser {
  import opened Selection

  const TWO_64 := 0x1_0000_0000_0000_0000
  type uint64 = x: int | 0 <= x < TWO_64

  const COLLECT_FFRT_METRIC_MAX_SIZE := 5000

  datatype Stat = Stat(taskName: string, startTime: uint64, endTime: uint64)

  /** The five numbers and the task lines of one report. */
  datatype Report = Report(sum: uint64, max: uint64, min: uint64, avg: uint64, count: uint64, tasks: seq<Stat>)

  // ---------- What a scan reads ----------

  /** The records before the first one without a name. */
  ghost function Named(records: seq<Stat>): seq<Stat> {
    if records == [] || records[0].taskName == "" then [] else [records[0]] + Named(records[1..])
  }

  /** The records whose end is not before their start, in order. */
  ghost function Timed(records: seq<Stat>): seq<Stat> {
    if records == [] then []
    else
      var last := records[|records| - 1];
      Timed(records[..|records| - 1]) + if last.startTime > last.endTime then [] else [last]
  }

  /** The time of a record; zero for one that ends before it starts, which no report includes. */
  ghost function Duration(stat: Stat): uint64 {
    if stat.startTime > stat.endTime then 0 else stat.endTime - stat.startTime
  }

  /** The exact total, not cut to 64 bits. */
  ghost function Total(tasks: seq<Stat>): nat {
    if tasks == [] then 0 else Total(tasks[..|tasks| - 1]) + Duration(tasks[|tasks| - 1])
  }

  /** The named records are the longest prefix of records with non-empty names. */
  lemma {:induction false} NamedIsLongestPrefix(records: seq<Stat>)
    ensures var n := |Named(records)|;
            && n <= |records| && Named(records) == records[..n]
            && (forall i :: 0 <= i < n ==> records[i].taskName != "")
            && (n < |records| ==> records[n].taskName == "")
  {
    if records != [] && records[0].taskName != "" {
      NamedIsLongestPrefix(records[1..]);
      var n := |Named(records[1..])|;
      forall i | 0 <= i < n + 1 ensures records[i].taskName != "" {
        if i > 0 { assert records[i] == records[1..][i - 1]; }
      }
    }
  }

  lemma {:induction false} TimedMembers(records: seq<Stat>)
    ensures |Timed(records)| <= |records|
    ensures forall t :: t in Timed(records) ==> t in records && t.startTime <= t.endTime
    ensures forall t :: t in records && t.startTime <= t.endTime ==> t in Timed(records)
  {
    if records != [] {
      var n := |records| - 1;
      TimedMembers(records[..n]);
      assert records == records[..n] + [records[n]];
    }
  }

  /** `lo` and `hi` are the least and the greatest duration. */
  ghost predicate Extremes(tasks: seq<Stat>, lo: int, hi: int) {
    && (forall t :: t in tasks ==> lo <= Duration(t) <= hi)
    && (exists t :: t in tasks && Duration(t) == lo)
    && (exists t :: t in tasks && Duration(t) == hi)
  }

  function Max(a: uint64, b: uint64): uint64 { if a < b then b else a }
  function Min(a: uint64, b: uint64): uint64 { if b < a then b else a }

  /** 64-bit addition, which drops the carry. */
  function Add64(a: uint64, b: uint64): uint64 { if a + b < TWO_64 then a + b else a + b - TWO_64 }

  /** The accumulators of the scan. */
  datatype Sums = Sums(sum: uint64, max: uint64, min: uint64, count: nat)

  ghost function Fold(tasks: seq<Stat>): Sums {
    if tasks == [] then Sums(0, 0, TWO_64 - 1, 0)
    else
      var s, d := Fold(tasks[..|tasks| - 1]), Duration(tasks[|tasks| - 1]);
      Sums(Add64(s.sum, d), Max(s.max, d), Min(s.min, d), s.count + 1)
  }

  lemma FoldOne(tasks: seq<Stat>, stat: Stat)
    ensures var s, d := Fold(tasks), Duration(stat);
            Fold(tasks + [stat]) == Sums(Add64(s.sum, d), Max(s.max, d), Min(s.min, d), s.count + 1)
  {
    assert (tasks + [stat])[..|tasks|] == tasks;
  }

  lemma {:induction false} FoldMeans(tasks: seq<Stat>)
    ensures Fold(tasks).count == |tasks| && Fold(tasks).sum == Total(tasks) % TWO_64
  {
    if tasks != [] {
      var n := |tasks| - 1;
      FoldMeans(tasks[..n]);
      Add64Wraps(Total(tasks[..n]), Duration(tasks[n]));
    }
  }

  lemma Add64Wraps(a: nat, b: uint64)
    ensures Add64(a % TWO_64, b) == (a + b) % TWO_64
  {
  }

  lemma {:induction false} FoldExtremes(tasks: seq<Stat>)
    requires tasks != []
    ensures Extremes(tasks, Fold(tasks).min, Fold(tasks).max)
  {
    var n := |tasks| - 1;
    var pre, last := tasks[..n], tasks[n];
    assert tasks == pre + [last];
    if n > 0 {
      FoldExtremes(pre);
      var a :| a in pre && Duration(a) == Fold(pre).min;
      var b :| b in pre && Duration(b) == Fold(pre).max;
      assert a in tasks && b in tasks;
    } else {
      assert Fold(pre) == Sums(0, 0, TWO_64 - 1, 0);
    }
    assert last in tasks;
  }

  lemma TimedOne(records: seq<Stat>, i: nat)
    requires i < |records|
    ensures Timed(records[..i + 1]) == Timed(records[..i]) + if records[i].startTime > records[i].endTime then [] else [records[i]]
  {
    assert records[..i + 1][..i] == records[..i];
  }

  lemma NamedMore(records: seq<Stat>, i: nat)
    requires i <= |Named(records)|
    ensures i <= |Named(records)| <= |records|
    ensures i < |records| && records[i].taskName != "" ==> i < |Named(records)|
    ensures i == |records| || records[i].taskName == "" ==> records[..i] == Named(records)
  {
    NamedIsLongestPrefix(records);
  }

  /** What a report says about the records of a buffer. */
  ghost predicate Reports(r: Report, records: seq<Stat>) {
    var tasks := Timed(Named(records));
    && r.tasks == tasks && r.count == |tasks|
    && r.sum == Total(tasks) % TWO_64
    && (if tasks == [] then r.max == 0 && r.min == 0 && r.avg == 0
        else Extremes(tasks, r.min, r.max) && r.avg == r.sum / r.count)
  }

  /**
    The walk: `current` is a byte offset into a buffer of `|records|` records of
    `statSize` bytes.  It only ever reads at record boundaries inside the buffer.
   */
  method FfrtStatisticsParser(records: seq<Stat>, statSize: int) returns (r: Report)
    requires |records| == 5000 && statSize > 0
    ensures Reports(r, records)
  {
    ghost var i := 0;
    NamedMore(records, 0);
    var current, last := 0, statSize * COLLECT_FFRT_METRIC_MAX_SIZE;
    var tasks: seq<Stat> := [];
    var maxTime: uint64, minTime: uint64, sumTime: uint64, count: nat := 0, TWO_64 - 1, 0, 0;
    while current < last && records[RecordAt(current, statSize, i, |records|)].taskName != ""
      invariant i <= |Named(records)| <= |records| && current == Offset(i, statSize)
      invariant tasks == Timed(records[..i])
      invariant Fold(tasks) == Sums(sumTime, maxTime, minTime, count)
      decreases last - current
    {
      var stat := records[RecordAt(current, statSize, i, |records|)];
      NamedMore(records, i);
      TimedOne(records, i);
      if stat.startTime > stat.endTime {
        current, i := current + statSize, i + 1;
        continue;
      }
      var duration: uint64 := stat.endTime - stat.startTime;
      FoldOne(tasks, stat);
      sumTime := Add64(sumTime, duration);
      maxTime := Max(maxTime, duration);
      minTime := Min(minTime, duration);
      count := count + 1;
      tasks := tasks + [stat];
      current, i := current + statSize, i + 1;
    }
    PastTheEnd(i, |records|, statSize);
    NamedMore(records, i);
    r := Summarize(tasks, sumTime, maxTime, minTime, count, records);
  }

  /** The numbers after the loop: the minimum of no task is zero, and so is the average. */
  method Summarize(tasks: seq<Stat>, sumTime: uint64, maxTime: uint64, minTime: uint64, count: nat, ghost records: seq<Stat>)
    returns (r: Report)
    requires tasks == Timed(Named(records)) && |records| < TWO_64
    requires Fold(tasks) == Sums(sumTime, maxTime, minTime, count)
    ensures Reports(r, records)
  {
    FoldMeans(tasks);
    NamedMore(records, 0);
    TimedMembers(Named(records));
    if count == 0 {
      r := Report(sumTime, maxTime, 0, 0, count, tasks);
    } else {
      FoldExtremes(tasks);
      r := Report(sumTime, maxTime, minTime, Average(sumTime, count), count, tasks);
    }
  }

  function Average(sum: uint64, count: nat): (avg: uint64)
    requires count > 0
    ensures avg == sum / count
  {
    DivAtMost(sum, count);
    sum / count
  }

  /** The byte offset of the i-th record. */
  ghost function Offset(i: nat, statSize: int): int {
    if i == 0 then 0 else Offset(i - 1, statSize) + statSize
  }

  lemma {:induction false} OffsetProduct(i: nat, statSize: int)
    ensures Offset(i, statSize) == i * statSize
  {
    if i > 0 { OffsetProduct(i - 1, statSize); }
  }

  lemma PastTheEnd(i: nat, n: nat, statSize: int)
    requires statSize > 0
    ensures Offset(i, statSize) < statSize * n <==> i < n
  {
    OffsetProduct(i, statSize);
    OnBoundary(i, n, statSize);
  }

  lemma OnBoundary(i: nat, n: nat, statSize: int)
    requires statSize > 0
    ensures i * statSize / statSize == i
    ensures i * statSize < n * statSize <==> i < n
  {
    if i < n {
      assert n * statSize == i * statSize + (n - i) * statSize;
    } else {
      assert i * statSize == n * statSize + (i - n) * statSize;
    }
  }

  /** The index of the record at a byte offset on a record boundary. */
  function RecordAt(offset: int, statSize: int, ghost i: nat, ghost n: nat): (k: nat)
    requires statSize > 0 && offset == Offset(i, statSize) < statSize * n
    ensures k == i < n
  {
    OffsetProduct(i, statSize);
    OnBoundary(i, n, statSize);
    offset / statSize
  }

  // ---------- What the numbers mean ----------

  /** The sums of the start times and of the end times. */
  ghost function SumOfStarts(tasks: seq<Stat>): nat {
    if tasks == [] then 0 else SumOfStarts(tasks[..|tasks| - 1]) + tasks[|tasks| - 1].startTime
  }

  ghost function SumOfEnds(tasks: seq<Stat>): nat {
    if tasks == [] then 0 else SumOfEnds(tasks[..|tasks| - 1]) + tasks[|tasks| - 1].endTime
  }

  lemma {:induction false} TotalOfTimes(tasks: seq<Stat>)
    requires forall t :: t in tasks ==> t.startTime <= t.endTime
    ensures Total(tasks) + SumOfStarts(tasks) == SumOfEnds(tasks)
  {
    if tasks != [] {
      var n := |tasks| - 1;
      assert tasks[n] in tasks;
      TotalOfTimes(tasks[..n]);
    }
  }

  /**
    A report in terms of the recorded times: no task ends before it starts, the
    extremes bound every end time less start time and are attained, and the sum is
    that of the end times less that of the start times, cut to 64 bits.
   */
  lemma ReportOfTimes(r: Report, records: seq<Stat>)
    requires Reports(r, records)
    ensures forall t :: t in r.tasks ==> t.startTime <= t.endTime && r.min <= t.endTime - t.startTime <= r.max
    ensures r.tasks != [] ==> exists t :: t in r.tasks && t.endTime - t.startTime == r.min
    ensures r.tasks != [] ==> exists t :: t in r.tasks && t.endTime - t.startTime == r.max
    ensures Total(r.tasks) == SumOfEnds(r.tasks) - SumOfStarts(r.tasks)
    ensures r.sum == (SumOfEnds(r.tasks) - SumOfStarts(r.tasks)) % 0x1_0000_0000_0000_0000
  {
    TimedMembers(Named(records));
    TotalOfTimes(r.tasks);
    if r.tasks != [] {
      var a :| a in r.tasks && Duration(a) == r.min;
      var b :| b in r.tasks && Duration(b) == r.max;
      assert a.endTime - a.startTime == r.min && b.endTime - b.startTime == r.max;
    }
  }

  ghost function Forward(records: seq<Stat>): nat -> bool {
    (i: nat) => i < |records| && records[i].startTime <= records[i].endTime
  }

  /** The reported tasks by position: of the records before the first unnamed one, those that do not end before they start, in order. */
  lemma ReportedTasks(r: Report, records: seq<Stat>) returns (n: nat, idx: seq<nat>)
    requires Reports(r, records)
    ensures n <= |records| && (forall i :: 0 <= i < n ==> records[i].taskName != "") && (n < |records| ==> records[n].taskName == "")
    ensures Picks(idx, n, Forward(records)) && At(records, r.tasks, idx)
  {
    NamedIsLongestPrefix(records);
    n := |Named(records)|;
    TimedIsPick(records, n);
    idx := PickInOrder(records, n, Forward(records));
  }

  lemma {:induction false} TimedIsPick(records: seq<Stat>, n: nat)
    requires n <= |records|
    ensures Timed(records[..n]) == Pick(records, n, Forward(records))
  {
    if n > 0 {
      TimedIsPick(records, n - 1);
      TimedOne(records, n - 1);
    }
  }

  lemma {:induction false} TotalBounds(tasks: seq<Stat>, lo: nat, hi: nat)
    requires forall t :: t in tasks ==> lo <= Duration(t) <= hi
    ensures lo * |tasks| <= Total(tasks) <= hi * |tasks|
  {
    if tasks != [] {
      var n := |tasks| - 1;
      assert tasks[n] in tasks;
      TotalBounds(tasks[..n], lo, hi);
      OneMore(n, lo);
      OneMore(n, hi);
    }
  }

  lemma DivBounds(a: nat, n: nat)
    requires n > 0
    ensures a / n * n <= a < (a / n + 1) * n
  {
  }

  lemma DivAtMost(a: nat, n: nat)
    requires n > 0
    ensures a / n <= a
  {
    MulMonotone(1, n, a);
    assert a <= a * n;
    AverageBetween(a, a, n, 0, a);
  }

  lemma MulMonotone(a: nat, b: nat, n: nat)
    requires a <= b
    ensures a * n <= b * n
  {
    assert b * n == a * n + (b - a) * n;
  }

  /** The reported sum and average are the true ones if and only if the true sum fits 64 bits. */
  lemma ExactlyWhenSumFits(r: Report, records: seq<Stat>)
    requires Reports(r, records)
    ensures r.sum == Total(r.tasks) <==> Total(r.tasks) < TWO_64
    ensures r.count > 0 ==> (r.avg == Total(r.tasks) / r.count <==> Total(r.tasks) < TWO_64)
  {
    var total := Total(r.tasks);
    if total >= TWO_64 && r.count > 0 {
      assert r.sum + r.count <= total;
      DivBounds(r.sum, r.count);
      DivBounds(total, r.count);
      OneMore(r.avg, r.count);
    }
  }

  lemma OneMore(k: nat, x: nat)
    ensures (k + 1) * x == k * x + x && x * (k + 1) == x * k + x
  {
  }

  lemma AverageBetween(sum: nat, total: nat, n: nat, lo: nat, hi: nat)
    requires n > 0 && lo * n <= total <= hi * n && sum <= total
    ensures sum / n * n <= sum < (sum / n + 1) * n
    ensures sum / n <= hi
    ensures lo <= sum / n <==> lo * n <= sum
  {
    DivBounds(sum, n);
    if hi < sum / n {
      MulMonotone(hi + 1, sum / n, n);
      OneMore(hi, n);
    }
    if sum / n < lo {
      MulMonotone(sum / n + 1, lo, n);
    } else {
      MulMonotone(lo, sum / n, n);
    }
  }

  lemma TotalWithin(r: Report, records: seq<Stat>)
    requires Reports(r, records) && r.count > 0
    ensures r.min * r.count <= Total(r.tasks) <= r.max * r.count
    ensures r.avg == r.sum / r.count && r.sum == Total(r.tasks) % TWO_64 && r.sum <= Total(r.tasks)
  {
    TotalBounds(r.tasks, r.min, r.max);
  }

  /** On every buffer the average is at most the maximum and rounds the reported sum down; when it is at least the minimum. */
  lemma AverageBounds(r: Report, records: seq<Stat>)
    requires Reports(r, records) && r.count > 0
    ensures r.avg * r.count <= r.sum < (r.avg + 1) * r.count
    ensures r.avg <= r.max
    ensures r.min <= r.avg <==> r.min * r.count <= Total(r.tasks) % TWO_64
    ensures Total(r.tasks) < TWO_64 ==> r.min <= r.avg
  {
    TotalWithin(r, records);
    AverageBetween(r.sum, Total(r.tasks), r.count, r.min, r.max);
  }

  lemma TotalOfTwo(a: Stat, b: Stat)
    ensures Total([a, b]) == Duration(a) + Duration(b)
  {
    assert [a, b][..1] == [a] && [a][..0] == [];
    assert Total([a]) == Duration(a);
  }

  lemma TimedTwo(records: seq<Stat>)
    requires |records| > 2 && records[0].taskName != "" && records[1].taskName != "" && records[2].taskName == ""
    requires records[0].startTime <= records[0].endTime && records[1].startTime <= records[1].endTime
    ensures Timed(Named(records)) == [records[0], records[1]]
  {
    NamedIsLongestPrefix(records);
    assert Named(records) == records[..2] && records[..0] == [];
    TimedOne(records, 0);
    TimedOne(records, 1);
  }

  /** Two tasks of half the range: the sum wraps to zero and the average is below the minimum. */
  lemma WrappedSum(r: Report, records: seq<Stat>)
    requires Reports(r, records) && |records| > 2 && records[2].taskName == ""
    requires records[0] == Stat("a", 0, TWO_64 / 2) && records[1] == Stat("b", 0, TWO_64 / 2)
    ensures r.sum == 0 && r.avg == 0 && r.min == r.max == TWO_64 / 2
  {
    TimedTwo(records);
    TotalOfTwo(records[0], records[1]);
  }
}
