/**
  Starting an ability that depends on others: poll the system ability manager
  until every valid dependency is present or the timeout has passed, check once
  more, and start only if that last check finds them all.
 */
module DependencyWait {
  import opened Selection

  const MIN_DEPENDENCY_TIMEOUT := 200
  const MAX_DEPENDENCY_TIMEOUT := 60000
  const DEFAULT_DEPENDENCY_TIMEOUT := 6000
  const CHECK_PERIOD := 50  // milliseconds slept between two checks
  const INT64_MAX := 0x7FFF_FFFF_FFFF_FFFF

  /** The answers of one check: no manager proxy, or for each dependency whether it was found. */
  datatype Check = NoProxy | Answers(found: seq<bool>)

  ghost predicate Fits(deps: seq<int>, check: Check) {
    check.Answers? ==> |check.found| == |deps|
  }

  /** Every valid dependency was found; without a proxy nothing is. */
  ghost predicate AllPresent(deps: seq<int>, valid: int -> bool, check: Check)
    requires Fits(deps, check)
  {
    match check
    case NoProxy => deps == []
    case Answers(found) => forall i :: 0 <= i < |deps| && valid(deps[i]) ==> found[i]
  }

  /** The dependencies a check reports as missing among the first `n`; invalid ids are skipped. */
  ghost function MissingAmong(deps: seq<int>, valid: int -> bool, found: seq<bool>, n: nat): seq<int>
    requires |found| == |deps| && n <= |deps|
  {
    if n == 0 then []
    else if valid(deps[n - 1]) && !found[n - 1] then MissingAmong(deps, valid, found, n - 1) + [deps[n - 1]]
    else MissingAmong(deps, valid, found, n - 1)
  }

  ghost function Missing(deps: seq<int>, valid: int -> bool, found: seq<bool>): seq<int>
    requires |found| == |deps|
  {
    MissingAmong(deps, valid, found, |deps|)
  }

  lemma {:induction false} NoneMissingAmong(deps: seq<int>, valid: int -> bool, found: seq<bool>, n: nat)
    requires |found| == |deps| && n <= |deps|
    ensures MissingAmong(deps, valid, found, n) == [] <==> forall i :: 0 <= i < n && valid(deps[i]) ==> found[i]
  {
    if n > 0 { NoneMissingAmong(deps, valid, found, n - 1); }
  }

  lemma NoneMissing(deps: seq<int>, valid: int -> bool, found: seq<bool>)
    requires |found| == |deps|
    ensures Missing(deps, valid, found) == [] <==> forall i :: 0 <= i < |deps| && valid(deps[i]) ==> found[i]
  {
    NoneMissingAmong(deps, valid, found, |deps|);
  }

  ghost function IsMissing(deps: seq<int>, valid: int -> bool, found: seq<bool>): nat -> bool
    requires |found| == |deps|
  {
    (i: nat) => i < |deps| && valid(deps[i]) && !found[i]
  }

  /** The missing dependencies are those of exactly these positions, in order. */
  lemma MissingInOrder(deps: seq<int>, valid: int -> bool, found: seq<bool>) returns (idx: seq<nat>)
    requires |found| == |deps|
    ensures Picks(idx, |deps|, IsMissing(deps, valid, found)) && At(deps, Missing(deps, valid, found), idx)
  {
    MissingIsPick(deps, valid, found, |deps|);
    idx := PickInOrder(deps, |deps|, IsMissing(deps, valid, found));
  }

  lemma {:induction false} MissingIsPick(deps: seq<int>, valid: int -> bool, found: seq<bool>, n: nat)
    requires |found| == |deps| && n <= |deps|
    ensures MissingAmong(deps, valid, found, n) == Pick(deps, n, IsMissing(deps, valid, found))
  {
    if n > 0 { MissingIsPick(deps, valid, found, n - 1); }
  }

  method CheckDependencyStatus(deps: seq<int>, valid: int -> bool, check: Check) returns (missing: seq<int>)
    requires Fits(deps, check)
    ensures missing == (if check.NoProxy? then deps else Missing(deps, valid, check.found))
    ensures missing == [] <==> AllPresent(deps, valid, check)
  {
    if check.NoProxy? {
      return deps;
    }
    missing := [];
    for i := 0 to |deps|
      invariant missing == MissingAmong(deps, valid, check.found, i)
    {
      if valid(deps[i]) {
        if !check.found[i] {
          missing := missing + [deps[i]];
        }
      }
    }
    NoneMissing(deps, valid, check.found);
  }

  class SystemAbility {
    const dependSa: seq<int>
    var dependTimeout: int

    /** The timeout always lies in the allowed range. */
    ghost predicate Valid()
      reads this
    {
      MIN_DEPENDENCY_TIMEOUT <= dependTimeout <= MAX_DEPENDENCY_TIMEOUT
    }

    constructor (dependSa: seq<int>)
      ensures Valid() && this.dependSa == dependSa && dependTimeout == 6000
    {
      this.dependSa := dependSa;
      dependTimeout := DEFAULT_DEPENDENCY_TIMEOUT;
    }

    method SetDependTimeout(timeout: int)
      requires Valid()
      modifies this
      ensures Valid()
      ensures dependTimeout == (if 200 <= timeout <= 60000 then timeout else old(dependTimeout))
      ensures 200 <= dependTimeout <= 60000
    {
      if timeout >= MIN_DEPENDENCY_TIMEOUT && timeout <= MAX_DEPENDENCY_TIMEOUT {
        dependTimeout := timeout;
      }
    }

    /**
      `tick(n)` is the n-th clock read and `checks(n)` the n-th check.  The first two
      reads may coincide; between later reads there is a sleep of at least one period.
     */
    method StartDependSaTask(valid: int -> bool, tick: nat -> int, checks: nat -> Check)
      returns (started: bool, sleeps: nat)
      requires Valid()
      requires tick(0) <= tick(1) && forall n: nat :: n >= 1 ==> tick(n) + 50 <= tick(n + 1)
      requires forall n: nat :: Fits(dependSa, checks(n))
      // started exactly when the check after the loop finds every valid dependency
      ensures started <==> AllPresent(dependSa, valid, checks(sleeps + 1))
      // the loop ends within ceil(timeout / period) sleeps
      ensures sleeps <= (dependTimeout + 49) / 50 <= 1200
      // it does not stop before the timeout unless a check found every dependency
      ensures AllPresent(dependSa, valid, checks(sleeps)) || tick(sleeps + 1) - tick(0) >= dependTimeout
      ensures forall n: nat :: n < sleeps ==> !AllPresent(dependSa, valid, checks(n))
    {
      var start := tick(0);
      sleeps := 0;
      var missing := CheckDependencyStatus(dependSa, valid, checks(0));
      while missing != []
        invariant missing == [] <==> AllPresent(dependSa, valid, checks(sleeps))
        invariant start + CHECK_PERIOD * sleeps <= tick(sleeps + 1)
        invariant CHECK_PERIOD * sleeps < dependTimeout + CHECK_PERIOD
        invariant forall n: nat :: n < sleeps ==> !AllPresent(dependSa, valid, checks(n))
        decreases dependTimeout + CHECK_PERIOD - CHECK_PERIOD * sleeps
      {
        var end := tick(sleeps + 1);
        var duration := if end >= start then end - start else INT64_MAX - end + start;
        if duration < dependTimeout {
          sleeps := sleeps + 1;
        } else {
          break;
        }
        missing := CheckDependencyStatus(dependSa, valid, checks(sleeps));
      }
      var unprepared := CheckDependencyStatus(dependSa, valid, checks(sleeps + 1));
      started := unprepared == [];
    }

    /** An ability without dependencies is started at once. */
    method StartSystemAbilityTask(valid: int -> bool, tick: nat -> int, checks: nat -> Check)
      returns (started: bool, sleeps: nat)
      requires Valid()
      requires tick(0) <= tick(1) && forall n: nat :: n >= 1 ==> tick(n) + 50 <= tick(n + 1)
      requires forall n: nat :: Fits(dependSa, checks(n))
      ensures started <==> dependSa == [] || AllPresent(dependSa, valid, checks(sleeps + 1))
      ensures dependSa == [] ==> sleeps == 0
      ensures sleeps <= (dependTimeout + 49) / 50 <= 1200
      ensures dependSa != [] ==> AllPresent(dependSa, valid, checks(sleeps)) || tick(sleeps + 1) - tick(0) >= dependTimeout
      ensures dependSa != [] ==> forall n: nat :: n < sleeps ==> !AllPresent(dependSa, valid, checks(n))
    {
      if dependSa == [] {
        return true, 0;
      }
      started, sleeps := StartDependSaTask(valid, tick, checks);
    }
  }
}
