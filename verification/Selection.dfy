/** The positions of a sequence that satisfy a condition, in increasing order: how every filtering loop is described. */
module Selection {
  ghost predicate Picks(idx: seq<nat>, n: nat, keep: nat -> bool) {
    && Increasing(idx, n, keep)
    && (forall i: nat :: i < n && keep(i) ==> i in idx)
  }

  lemma PickNext(idx: seq<nat>, n: nat, keep: nat -> bool)
    requires Picks(idx, n, keep)
    ensures Picks(if keep(n) then idx + [n] else idx, n + 1, keep)
  {
    var more := if keep(n) then idx + [n] else idx;
    forall i: nat | i < n + 1 && keep(i) ensures i in more {
      if i < n { assert i in idx; }
    }
  }

  /** The list holds the elements at the given positions. */
  ghost predicate At<T>(all: seq<T>, list: seq<T>, idx: seq<nat>) {
    |list| == |idx| && forall k :: 0 <= k < |idx| ==> idx[k] < |all| && list[k] == all[idx[k]]
  }

  /** The elements among the first `n` whose position satisfies the condition. */
  ghost function Pick<T>(all: seq<T>, n: nat, keep: nat -> bool): seq<T>
    requires n <= |all|
  {
    if n == 0 then []
    else if keep(n - 1) then Pick(all, n - 1, keep) + [all[n - 1]]
    else Pick(all, n - 1, keep)
  }

  ghost function Positions(n: nat, keep: nat -> bool): seq<nat> {
    if n == 0 then []
    else if keep(n - 1) then Positions(n - 1, keep) + [n - 1]
    else Positions(n - 1, keep)
  }

  ghost predicate Increasing(idx: seq<nat>, n: nat, keep: nat -> bool) {
    && (forall k :: 0 <= k < |idx| ==> idx[k] < n && keep(idx[k]))
    && (forall j, k :: 0 <= j < k < |idx| ==> idx[j] < idx[k])
  }

  lemma IncreasingNext(idx: seq<nat>, n: nat, keep: nat -> bool)
    requires Increasing(idx, n, keep)
    ensures Increasing(if keep(n) then idx + [n] else idx, n + 1, keep)
  {
  }

  lemma {:induction false} PositionsSound(n: nat, keep: nat -> bool)
    ensures Increasing(Positions(n, keep), n, keep)
  {
    if n > 0 {
      PositionsSound(n - 1, keep);
      IncreasingNext(Positions(n - 1, keep), n - 1, keep);
    }
  }

  lemma {:induction false} PositionsComplete(n: nat, keep: nat -> bool, i: nat)
    requires i < n && keep(i)
    ensures i in Positions(n, keep)
  {
    if i < n - 1 { PositionsComplete(n - 1, keep, i); }
  }

  lemma PositionsPick(n: nat, keep: nat -> bool)
    ensures Picks(Positions(n, keep), n, keep)
  {
    PositionsSound(n, keep);
    forall i: nat | i < n && keep(i) ensures i in Positions(n, keep) {
      PositionsComplete(n, keep, i);
    }
  }

  lemma {:induction false} PickAt<T>(all: seq<T>, n: nat, keep: nat -> bool)
    requires n <= |all|
    ensures At(all, Pick(all, n, keep), Positions(n, keep))
  {
    if n > 0 {
      PickAt(all, n - 1, keep);
      AtNext(all, Pick(all, n - 1, keep), Positions(n - 1, keep), n - 1);
    }
  }

  lemma PickInOrder<T>(all: seq<T>, n: nat, keep: nat -> bool) returns (idx: seq<nat>)
    requires n <= |all|
    ensures Picks(idx, n, keep) && At(all, Pick(all, n, keep), idx)
  {
    idx := Positions(n, keep);
    PositionsPick(n, keep);
    PickAt(all, n, keep);
  }

  lemma AtNext<T>(all: seq<T>, list: seq<T>, idx: seq<nat>, n: nat)
    requires n < |all| && At(all, list, idx)
    ensures At(all, list + [all[n]], idx + [n])
  {
  }
}
