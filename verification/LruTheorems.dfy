/**
  What an expiring LRU cache guarantees over whole runs: which values a Get may
  return (freshness), which keys it must still hold (retention, and exactly when
  without expiry and removal), and how two capacities compare (inclusion).
 */
module LruTheorems {
  import opened Options
  import opened RecencyList

  // ---------- Freshness: every stored entry is the last write of its key ----------

  /** The entry left by the latest Add of `k`, unless a Remove of `k` or a Clear came after it. */
  ghost function LastWrite<K, V>(ops: seq<Op<K, V>>, k: K): Option<Entry<K, V>> {
    if ops == [] then None
    else
      match ops[|ops| - 1]
      case Add(k', v, now, _) => if k' == k then Some(Entry(k, v, now)) else LastWrite(ops[..|ops| - 1], k)
      case Get(_, _) => LastWrite(ops[..|ops| - 1], k)
      case Remove(k') => if k' == k then None else LastWrite(ops[..|ops| - 1], k)
      case Clear => None
  }

  ghost predicate Overwrites<K, V>(op: Op<K, V>, k: K) {
    op.Clear? || ((op.Add? || op.Remove?) && op.key == k)
  }

  /** Every entry of a step's result is the one just added or an old one the step did not overwrite. */
  lemma StepOrigin<K, V>(c: Config, s: Entries<K, V>, op: Op<K, V>, e: Entry<K, V>)
    requires Distinct(s) && e in Step(c, s, op)
    ensures (op.Add? && e == Entry(op.key, op.value, op.now)) || (e in s && !Overwrites(op, e.key))
  {
    var k := op.key;
    WithoutMembers(s, {k});
    FindMember(s, k);
    match op
    case Add(_, v, now, seen) =>
      WithoutMembers(s, Expired(c, s, seen));
      if e != Entry(k, v, now) {
        if k in KeySet(s) {
          assert e in Without(s, {k});
        } else {
          assert e in MakeRoom(c, s, seen);
          assert e in s;
          assert e.key in KeySet(s);
        }
      }
    case Get(_, _) =>
      if Find(s, k).Some? && e != Find(s, k).value {
        assert e in Without(s, {k});
      }
    case Remove(_) => assert e in Without(s, {k});
  }

  lemma {:induction false} EntriesAreLastWrites<K, V>(c: Config, ops: seq<Op<K, V>>, e: Entry<K, V>)
    requires e in Run(c, ops)
    ensures LastWrite(ops, e.key) == Some(e)
  {
    if ops != [] {
      var pre, op := ops[..|ops| - 1], ops[|ops| - 1];
      RunBounded(c, [], pre);
      StepOrigin(c, Run(c, pre), op, e);
      if !(op.Add? && e == Entry(op.key, op.value, op.now)) {
        EntriesAreLastWrites(c, pre, e);
      }
    }
  }

  lemma {:induction false} LastWriteIndex<K, V>(ops: seq<Op<K, V>>, k: K) returns (i: nat)
    requires LastWrite(ops, k).Some?
    ensures i < |ops| && ops[i].Add? && LastWrite(ops, k) == Some(Entry(k, ops[i].value, ops[i].now)) && ops[i].key == k
    ensures forall j :: i < j < |ops| ==> !Overwrites(ops[j], k)
  {
    var pre, op := ops[..|ops| - 1], ops[|ops| - 1];
    if op.Add? && op.key == k {
      i := |ops| - 1;
    } else {
      i := LastWriteIndex(pre, k);
      forall j | i < j < |ops| ensures !Overwrites(ops[j], k) {
        if j < |pre| { assert ops[j] == pre[j]; }
      }
    }
  }

  /**
    Freshness by history: a hit returns what the latest Add of the key stored;
    nothing overwrote it since; and its age, counted from that Add whatever hits
    came in between, is within the interval.
   */
  lemma HitIsFresh<K, V>(c: Config, ops: seq<Op<K, V>>, k: K, now: int) returns (i: nat)
    requires Answer(c, Run(c, ops), k, now).Some?
    ensures i < |ops| && ops[i].Add? && ops[i].key == k
    ensures Answer(c, Run(c, ops), k, now) == Some(ops[i].value)
    ensures forall j :: i < j < |ops| ==> !Overwrites(ops[j], k)
    ensures c.interval > 0 ==> now - ops[i].now <= c.interval
  {
    FindMember(Run(c, ops), k);
    EntriesAreLastWrites(c, ops, Find(Run(c, ops), k).value);
    i := LastWriteIndex(ops, k);
  }

  // ---------- Retention ----------

  /** The key an operation makes most recently used: an Add always, a Get when it hits. */
  ghost function TouchedBy<K, V>(c: Config, s: Entries<K, V>, op: Op<K, V>): set<K> {
    match op
    case Add(k, _, _, _) => {k}
    case Get(k, now) => if Answer(c, s, k, now).Some? then {k} else {}
    case _ => {}
  }

  ghost function Touched<K, V>(c: Config, s: Entries<K, V>, ops: seq<Op<K, V>>): set<K> {
    if ops == [] then {}
    else
      var pre := ops[..|ops| - 1];
      Touched(c, s, pre) + TouchedBy(c, RunFrom(c, s, pre), ops[|ops| - 1])
  }

  /** The operation is a Get of `e` while it is valid, or concerns another key and its sweep does not find `e` expired. */
  ghost predicate Spares<K, V>(c: Config, op: Op<K, V>, e: Entry<K, V>) {
    && !op.Clear?
    && (op.key == e.key ==> op.Get? && !IsExpired(c, e.time, op.now))
    && (op.Add? && e.key in op.seen ==> !IsExpired(c, e.time, op.seen[e.key]))
  }

  lemma WithoutAround<K, V>(a: Entries<K, V>, e: Entry<K, V>, b: Entries<K, V>, dead: set<K>)
    requires e.key !in dead
    ensures Without(a + [e] + b, dead) == Without(a, dead) + [e] + Without(b, dead)
    ensures KeySet(Without(a, dead)) == KeySet(a) - dead
  {
    WithoutConcat(a + [e], b, dead);
    WithoutConcat(a, [e], dead);
    WithoutMembers(a, dead);
  }

  lemma AroundKeys<K, V>(a: Entries<K, V>, e: Entry<K, V>, b: Entries<K, V>)
    requires Distinct(a + [e] + b)
    ensures Distinct(a) && |KeySet(a)| == |a|
    ensures e.key !in KeySet(a) && e.key !in KeySet(b)
    ensures KeySet(a + [e] + b) == KeySet(a) + {e.key} + KeySet(b)
  {
    var s := a + [e] + b;
    forall i, j | 0 <= i < j < |a| ensures a[i].key != a[j].key {
      assert s[i] == a[i] && s[j] == a[j];
    }
    KeySetSize(a);
    forall i | 0 <= i < |a| ensures a[i].key != e.key {
      assert s[i] == a[i] && s[|a|] == e;
    }
    forall i | 0 <= i < |b| ensures b[i].key != e.key {
      assert s[|a| + 1 + i] == b[i] && s[|a|] == e;
    }
    assert forall x :: x in s <==> x in a || x == e || x in b;
  }

  lemma PushKeys<K, V>(x: Entry<K, V>, a: Entries<K, V>)
    ensures KeySet([x] + a) == {x.key} + KeySet(a)
  {
    assert forall y :: y in [x] + a <==> y == x || y in a;
  }

  /** Moving another key to the front puts exactly that key in front of `e`. */
  lemma FrontAround<K, V>(a: Entries<K, V>, e: Entry<K, V>, b: Entries<K, V>, n: Entry<K, V>)
    returns (a': Entries<K, V>, b': Entries<K, V>)
    requires n.key != e.key
    ensures Front(a + [e] + b, n) == a' + [e] + b'
    ensures KeySet(a') == KeySet(a) + {n.key}
  {
    WithoutAround(a, e, b, {n.key});
    var a0 := Without(a, {n.key});
    PushKeys(n, a0);
    a', b' := [n] + a0, Without(b, {n.key});
  }

  /**
    One step that spares `e`: the entries in front of it stay within the touched
    keys, and it is not evicted while fewer than `capacity` other keys were touched.
   */
  lemma RetentionStep<K, V>(c: Config, a: Entries<K, V>, e: Entry<K, V>, b: Entries<K, V>, touched: set<K>, op: Op<K, V>)
    returns (a': Entries<K, V>, b': Entries<K, V>)
    requires Bounded(c, a + [e] + b) && KeySet(a) <= touched
    requires Spares(c, op, e)
    requires |touched + TouchedBy(c, a + [e] + b, op) - {e.key}| < c.capacity
    ensures Step(c, a + [e] + b, op) == a' + [e] + b'
    ensures KeySet(a') <= touched + TouchedBy(c, a + [e] + b, op)
  {
    var s, x := a + [e] + b, op.key;
    if x == e.key {
      a', b' := HitComesToFront(c, a, e, b, op);
    } else if op.Add? {
      a', b' := RetentionAdd(c, a, e, b, touched, op);
    } else if op.Get? {
      FindMember(s, x);
      if Find(s, x).None? {
        a', b' := a, b;
      } else if IsExpired(c, Find(s, x).value.time, op.now) {
        WithoutAround(a, e, b, {x});
        a', b' := Without(a, {x}), Without(b, {x});
      } else {
        a', b' := FrontAround(a, e, b, Find(s, x).value);
      }
    } else {
      WithoutAround(a, e, b, {x});
      a', b' := Without(a, {x}), Without(b, {x});
    }
  }

  lemma RetentionAdd<K, V>(c: Config, a: Entries<K, V>, e: Entry<K, V>, b: Entries<K, V>, touched: set<K>, op: Op<K, V>)
    returns (a': Entries<K, V>, b': Entries<K, V>)
    requires Bounded(c, a + [e] + b) && KeySet(a) <= touched
    requires op.Add? && op.key != e.key && Spares(c, op, e)
    requires |touched + {op.key} - {e.key}| < c.capacity
    ensures Step(c, a + [e] + b, op) == a' + [e] + b'
    ensures KeySet(a') <= touched + {op.key}
  {
    var n := Entry(op.key, op.value, op.now);
    if op.key in KeySet(a + [e] + b) {
      a', b' := FrontAround(a, e, b, n);
    } else {
      var a0;
      a0, b' := RoomKeeps(c, a, e, b, touched, op);
      PushKeys(n, a0);
      PushAround(n, a0, e, b');
      a' := [n] + a0;
    }
  }

  lemma RoomKeeps<K, V>(c: Config, a: Entries<K, V>, e: Entry<K, V>, b: Entries<K, V>, touched: set<K>, op: Op<K, V>)
    returns (a': Entries<K, V>, b': Entries<K, V>)
    requires Bounded(c, a + [e] + b) && KeySet(a) <= touched
    requires op.Add? && op.key != e.key && Spares(c, op, e) && op.key !in KeySet(a + [e] + b)
    requires |touched + {op.key} - {e.key}| < c.capacity
    ensures MakeRoom(c, a + [e] + b, op.seen) == a' + [e] + b'
    ensures KeySet(a') <= touched
  {
    AroundKeys(a, e, b);
    assert touched - {e.key} + {op.key} == touched + {op.key} - {e.key};
    a', b' := RoomAround(c, a, e, b, touched - {e.key}, op);
  }

  lemma PushAround<K, V>(n: Entry<K, V>, a: Entries<K, V>, e: Entry<K, V>, b: Entries<K, V>)
    ensures [n] + (a + [e] + b) == [n] + a + [e] + b
  {
  }

  lemma HitComesToFront<K, V>(c: Config, a: Entries<K, V>, e: Entry<K, V>, b: Entries<K, V>, op: Op<K, V>)
    returns (a': Entries<K, V>, b': Entries<K, V>)
    requires Distinct(a + [e] + b) && op.Get? && op.key == e.key && !IsExpired(c, e.time, op.now)
    ensures Step(c, a + [e] + b, op) == a' + [e] + b' && a' == []
  {
    var s := a + [e] + b;
    assert s[|a|] == e;
    FindUnique(s, e);
    a', b' := [], Without(s, {e.key});
  }

  lemma NotExpired<K, V>(c: Config, s: Entries<K, V>, e: Entry<K, V>, seen: map<K, int>)
    requires Distinct(s) && e in s
    requires e.key in seen ==> !IsExpired(c, e.time, seen[e.key])
    ensures e.key !in Expired(c, s, seen)
  {
    forall f | f in s && f.key == e.key ensures f == e {
      FindUnique(s, e);
      FindUnique(s, f);
    }
  }

  /** Making room for a new key keeps `e`: the sweep spares it, and it is not the last of a full list. */
  lemma RoomAround<K, V>(c: Config, a: Entries<K, V>, e: Entry<K, V>, b: Entries<K, V>, touched: set<K>, op: Op<K, V>)
    returns (a': Entries<K, V>, b': Entries<K, V>)
    requires Bounded(c, a + [e] + b) && KeySet(a) <= touched
    requires op.Add? && Spares(c, op, e) && op.key !in KeySet(a + [e] + b)
    requires |touched + {op.key}| < c.capacity
    ensures MakeRoom(c, a + [e] + b, op.seen) == a' + [e] + b'
    ensures KeySet(a') <= KeySet(a)
  {
    var s := a + [e] + b;
    AroundKeys(a, e, b);
    var dead := Expired(c, s, op.seen);
    a', b' := a, b;
    if |s| >= c.capacity {
      if dead != {} {
        assert s[|a|] == e;
        NotExpired(c, s, e, op.seen);
        WithoutAround(a, e, b, dead);
        a', b' := Without(a, dead), Without(b, dead);
      } else {
        if b == [] {
          // the keys ahead of e and the new key would be `capacity` many
          assert KeySet(a) <= touched + {op.key} - {op.key};
          SubsetSize(KeySet(a), touched + {op.key} - {op.key});
          assert false;
        }
        b' := b[..|b| - 1];
        assert s[..|s| - 1] == a + [e] + b';
      }
    }
  }

  lemma {:induction false} SubsetSize<T>(x: set<T>, y: set<T>)
    requires x <= y
    ensures |x| <= |y|
  {
    if x != {} {
      var t :| t in x;
      SubsetSize(x - {t}, y - {t});
    }
  }

  lemma {:induction false} RetentionRun<K, V>(c: Config, s: Entries<K, V>, ops: seq<Op<K, V>>, e: Entry<K, V>)
    returns (a: Entries<K, V>, b: Entries<K, V>)
    requires Bounded(c, s) && s != [] && s[0] == e
    requires forall op :: op in ops ==> Spares(c, op, e)
    requires |Touched(c, s, ops) - {e.key}| < c.capacity
    ensures RunFrom(c, s, ops) == a + [e] + b
    ensures KeySet(a) <= Touched(c, s, ops)
  {
    if ops == [] {
      a, b := [], s[1..];
    } else {
      var pre, op := ops[..|ops| - 1], ops[|ops| - 1];
      SubsetSize(Touched(c, s, pre) - {e.key}, Touched(c, s, ops) - {e.key});
      a, b := RetentionRun(c, s, pre, e);
      RunBounded(c, s, pre);
      assert op in ops;
      a, b := RetentionStep(c, a, e, b, Touched(c, s, pre), op);
    }
  }

  /** An Add of `k`, or a Get of `k` that hits, leaves `k` in front with its last write. */
  lemma TouchMovesToFront<K, V>(c: Config, history: seq<Op<K, V>>, touch: Op<K, V>)
    requires touch.Add? || (touch.Get? && Answer(c, Run(c, history), touch.key, touch.now).Some?)
    ensures var s := Run(c, history + [touch]);
            s != [] && LastWrite(history + [touch], touch.key) == Some(s[0])
  {
    var all := history + [touch];
    assert all[..|all| - 1] == history;
    FindMember(Run(c, history), touch.key);
    var s := Run(c, all);
    assert s[0] in s && s[0].key == touch.key;
    EntriesAreLastWrites(c, all, s[0]);
  }

  /** The operation neither adds, removes nor clears `k`, and read the clock no later than `now`. */
  ghost predicate LeavesAlone<K, V>(op: Op<K, V>, k: K, now: int) {
    && !op.Clear?
    && (op.key == k ==> op.Get? && op.now <= now)
    && (op.Add? ==> forall x :: x in op.seen ==> op.seen[x] <= now)
  }

  /**
    LRU retention: after an Add or hit of `k`, if the following operations leave
    `k` alone and touch fewer than `capacity` other keys, then a later Get of `k`
    at most the interval after its last Add hits, with the value of that Add.
   */
  lemma LruRetention<K, V>(c: Config, history: seq<Op<K, V>>, touch: Op<K, V>, window: seq<Op<K, V>>, now: int)
    requires touch.Add? || (touch.Get? && Answer(c, Run(c, history), touch.key, touch.now).Some?)
    requires LastWrite(history + [touch], touch.key).Some?
    requires var e := LastWrite(history + [touch], touch.key).value;
             && (c.interval == 0 || now - e.time <= c.interval)
             && forall op :: op in window ==> LeavesAlone(op, e.key, now)
    requires |Touched(c, Run(c, history + [touch]), window) - {touch.key}| < c.capacity
    ensures Answer(c, Run(c, history + [touch] + window), touch.key, now)
         == Some(LastWrite(history + [touch], touch.key).value.value)
  {
    TouchMovesToFront(c, history, touch);
    var s := Run(c, history + [touch]);
    assert s[0].key == touch.key by {
      var i := LastWriteIndex(history + [touch], touch.key);
    }
    RunBounded(c, [], history + [touch]);
    forall op | op in window ensures Spares(c, op, s[0]) {
      assert LeavesAlone(op, s[0].key, now);
    }
    var a, b := RetentionRun(c, s, window, s[0]);
    RunConcat(c, [], history + [touch], window);
    RunBounded(c, s, window);
    assert (a + [s[0]] + b)[|a|] == s[0];
    FindUnique(a + [s[0]] + b, s[0]);
  }

  // ---------- Exactly when a key survives ----------

  /** One Add or Get of another key with expiry off: the keys in front of `e` are exactly the touched ones. */
  lemma ExactStep<K, V>(c: Config, a: Entries<K, V>, e: Entry<K, V>, b: Entries<K, V>, op: Op<K, V>)
    returns (kept: bool, a': Entries<K, V>, b': Entries<K, V>)
    requires c.interval == 0 && Bounded(c, a + [e] + b)
    requires (op.Add? || op.Get?) && op.key != e.key
    ensures kept ==> Step(c, a + [e] + b, op) == a' + [e] + b' && KeySet(a') == KeySet(a) + TouchedBy(c, a + [e] + b, op)
    ensures !kept ==> e.key !in KeySet(Step(c, a + [e] + b, op)) && |KeySet(a) + TouchedBy(c, a + [e] + b, op)| >= c.capacity
  {
    var s, x := a + [e] + b, op.key;
    FindMember(s, x);
    kept := true;
    if x in KeySet(s) {
      a', b' := FrontAround(a, e, b, if op.Add? then Entry(x, op.value, op.now) else Find(s, x).value);
    } else if op.Get? {
      a', b' := a, b;
    } else {
      kept, a', b' := ExactInsert(c, a, e, b, op);
    }
  }

  /** Adding a new key evicts `e` exactly when nothing is behind it in a full cache. */
  lemma ExactInsert<K, V>(c: Config, a: Entries<K, V>, e: Entry<K, V>, b: Entries<K, V>, op: Op<K, V>)
    returns (kept: bool, a': Entries<K, V>, b': Entries<K, V>)
    requires c.interval == 0 && Bounded(c, a + [e] + b)
    requires op.Add? && op.key !in KeySet(a + [e] + b)
    ensures kept ==> Step(c, a + [e] + b, op) == a' + [e] + b' && KeySet(a') == KeySet(a) + {op.key}
    ensures !kept ==> e.key !in KeySet(Step(c, a + [e] + b, op)) && |KeySet(a) + {op.key}| >= c.capacity
  {
    kept, a', b' := |a + [e] + b| < c.capacity || b != [], a, b;
    if kept {
      a', b' := InsertKeeps(c, a, e, b, op);
    } else {
      assert a + [e] + b == a + [e];
      InsertEvicts(c, a, e, op);
    }
  }

  lemma InsertKeeps<K, V>(c: Config, a: Entries<K, V>, e: Entry<K, V>, b: Entries<K, V>, op: Op<K, V>)
    returns (a': Entries<K, V>, b': Entries<K, V>)
    requires c.interval == 0 && (|a + [e] + b| < c.capacity || b != [])
    requires op.Add? && op.key !in KeySet(a + [e] + b)
    ensures Step(c, a + [e] + b, op) == a' + [e] + b' && KeySet(a') == KeySet(a) + {op.key}
  {
    var s, n := a + [e] + b, Entry(op.key, op.value, op.now);
    RoomWithoutExpiry(c, s, op.seen);
    PushKeys(n, a);
    a', b' := [n] + a, if |s| < c.capacity then b else b[..|b| - 1];
    assert MakeRoom(c, s, op.seen) == a + [e] + b';
    assert [n] + (a + [e] + b') == a' + [e] + b';
  }

  lemma InsertEvicts<K, V>(c: Config, a: Entries<K, V>, e: Entry<K, V>, op: Op<K, V>)
    requires c.interval == 0 && Distinct(a + [e]) && |a + [e]| >= c.capacity
    requires op.Add? && op.key !in KeySet(a + [e])
    ensures e.key !in KeySet(Step(c, a + [e], op)) && |KeySet(a) + {op.key}| >= c.capacity
  {
    var n := Entry(op.key, op.value, op.now);
    RoomWithoutExpiry(c, a + [e], op.seen);
    PushKeys(n, a);
    assert (a + [e])[..|a + [e]| - 1] == a;
    assert a + [e] + [] == a + [e];
    AroundKeys(a, e, []);
  }

  lemma RoomWithoutExpiry<K, V>(c: Config, s: Entries<K, V>, seen: map<K, int>)
    requires c.interval == 0
    ensures MakeRoom(c, s, seen) == if |s| < c.capacity then s else s[..|s| - 1]
  {
    assert Expired(c, s, seen) == {};
  }

  /** A key not in the list stays out while no operation names it. */
  lemma StaysOut<K, V>(c: Config, s: Entries<K, V>, op: Op<K, V>, k: K)
    requires Distinct(s) && k !in KeySet(s) && !op.Clear? && op.key != k
    ensures k !in KeySet(Step(c, s, op))
  {
    forall e | e in Step(c, s, op) ensures e.key != k {
      StepOrigin(c, s, op, e);
    }
  }

  lemma {:induction false} ExactRun<K, V>(c: Config, s: Entries<K, V>, ops: seq<Op<K, V>>, e: Entry<K, V>)
    returns (kept: bool, a: Entries<K, V>, b: Entries<K, V>)
    requires c.interval == 0 && Bounded(c, s) && s != [] && s[0] == e
    requires forall op :: op in ops ==> (op.Add? || op.Get?) && op.key != e.key
    ensures kept ==> RunFrom(c, s, ops) == a + [e] + b && KeySet(a) == Touched(c, s, ops)
    ensures !kept ==> e.key !in KeySet(RunFrom(c, s, ops)) && |Touched(c, s, ops)| >= c.capacity
  {
    if ops == [] {
      kept, a, b := true, [], s[1..];
    } else {
      var pre, op := ops[..|ops| - 1], ops[|ops| - 1];
      kept, a, b := ExactRun(c, s, pre, e);
      RunBounded(c, s, pre);
      assert op in ops;
      if kept {
        kept, a, b := ExactStep(c, a, e, b, op);
      } else {
        StaysOut(c, RunFrom(c, s, pre), op, e.key);
        SubsetSize(Touched(c, s, pre), Touched(c, s, ops));
      }
    }
  }

  /**
    Without expiry and removal, LRU retention is exact: a key that was just
    touched is still answered after a window of Adds and Gets of other keys if
    and only if fewer than `capacity` distinct keys were touched in the window.
   */
  lemma SurvivesExactlyWithinCapacity<K, V>(c: Config, s: Entries<K, V>, ops: seq<Op<K, V>>, now: int)
    requires c.interval == 0 && Bounded(c, s) && s != []
    requires forall op :: op in ops ==> (op.Add? || op.Get?) && op.key != s[0].key
    ensures Answer(c, RunFrom(c, s, ops), s[0].key, now).Some? <==> |Touched(c, s, ops)| < c.capacity
  {
    var e, r := s[0], RunFrom(c, s, ops);
    var kept, a, b := ExactRun(c, s, ops, e);
    RunBounded(c, s, ops);
    FindMember(r, e.key);
    if kept {
      AroundKeys(a, e, b);
      assert r[|a|] == e;
      FindUnique(r, e);
    }
  }

  // ---------- Inclusion: a larger cache never misses where a smaller one hits ----------

  /** The small list is the large one without the extra keys, and there are few extra keys. */
  ghost predicate Nested<K, V>(cs: Config, cl: Config, small: Entries<K, V>, large: Entries<K, V>, extra: set<K>) {
    && small == Without(large, extra)
    && extra <= KeySet(large)
    && |extra| <= cl.capacity - cs.capacity
  }

  lemma PushWithout<K, V>(n: Entry<K, V>, s: Entries<K, V>, gone: set<K>, dead: set<K>)
    ensures Without([n] + Without(s, gone), dead)
         == (if n.key in dead then [] else [n]) + Without(s, gone + dead)
    ensures KeySet([n] + Without(s, gone)) == {n.key} + (KeySet(s) - gone)
  {
    WithoutConcat([n], Without(s, gone), dead);
    WithoutTwice(s, gone, dead);
    WithoutMembers(s, gone);
    PushKeys(n, Without(s, gone));
  }

  /** The key the eviction of a full cache without expiry takes, as the set of removed keys. */
  ghost function Evicted<K, V>(c: Config, s: Entries<K, V>): set<K> {
    if |s| < c.capacity then {} else {s[|s| - 1].key}
  }

  lemma MakeRoomEvicts<K, V>(c: Config, s: Entries<K, V>, seen: map<K, int>)
    requires c.interval == 0 && Bounded(c, s)
    ensures MakeRoom(c, s, seen) == Without(s, Evicted(c, s)) && Evicted(c, s) <= KeySet(s)
  {
    RoomWithoutExpiry(c, s, seen);
    if |s| < c.capacity {
      WithoutAbsent(s, {});
    } else {
      DropLast(s);
    }
  }

  /** If the large cache is full, the small one is full too, and evicts the same key unless that key is extra. */
  lemma EvictionsAgree<K, V>(cs: Config, cl: Config, small: Entries<K, V>, large: Entries<K, V>, extra: set<K>)
    requires cs.capacity <= cl.capacity
    requires Bounded(cs, small) && Bounded(cl, large) && Nested(cs, cl, small, large, extra)
    ensures |large| == |small| + |extra|
    ensures Evicted(cl, large) <= extra + Evicted(cs, small)
    ensures Evicted(cs, small) !! extra
  {
    WithoutLength(large, extra);
    WithoutMembers(large, extra);
    if small != [] {
      assert small[|small| - 1] in small;
    }
    if |large| >= cl.capacity && large[|large| - 1].key !in extra {
      LastKept(large, extra);
    }
  }

  lemma LastKept<K, V>(s: Entries<K, V>, dead: set<K>)
    requires s != [] && s[|s| - 1].key !in dead
    ensures Without(s, dead) == Without(s[..|s| - 1], dead) + [s[|s| - 1]]
  {
    assert s == s[..|s| - 1] + [s[|s| - 1]];
    WithoutConcat(s[..|s| - 1], [s[|s| - 1]], dead);
  }

  /** Both caches put `n` in front after losing `goneS` and `goneL`; the extra keys change accordingly. */
  lemma NestedPush<K, V>(n: Entry<K, V>, large: Entries<K, V>, extra: set<K>, goneS: set<K>, goneL: set<K>)
    requires extra + goneS <= KeySet(large) && goneL <= extra + goneS
    requires n.key in extra + goneS || n.key in KeySet(large) ==> n.key in goneL
    ensures [n] + Without(Without(large, extra), goneS)
         == Without([n] + Without(large, goneL), extra + goneS - goneL)
    ensures extra + goneS - goneL <= KeySet([n] + Without(large, goneL))
  {
    var extra' := extra + goneS - goneL;
    WithoutTwice(large, extra, goneS);
    PushWithout(n, large, goneL, extra');
    assert goneL + extra' == extra + goneS;
  }

  lemma SwapSize<T>(extra: set<T>, goneS: set<T>, goneL: set<T>)
    requires goneL <= extra + goneS && |goneS| <= 1 && |goneL| <= 1
    requires goneS !! extra
    ensures |extra + goneS - goneL| == |extra| + |goneS| - |goneL|
  {
    assert |extra + goneS| == |extra| + |goneS|;
    assert |extra + goneS - goneL| == |extra + goneS| - |goneL| by {
      assert (extra + goneS - goneL) + goneL == extra + goneS;
    }
  }

  /** The extra keys after both caches add a key the small one does not hold. */
  lemma NestedInsert<K, V>(cs: Config, cl: Config, small: Entries<K, V>, large: Entries<K, V>, extra: set<K>,
                           op: Op<K, V>) returns (extra': set<K>)
    requires cs.interval == 0 && cl.interval == 0 && cs.capacity <= cl.capacity
    requires Bounded(cs, small) && Bounded(cl, large) && Nested(cs, cl, small, large, extra)
    requires op.Add? && op.key !in KeySet(small)
    ensures Nested(cs, cl, Step(cs, small, op), Step(cl, large, op), extra')
  {
    var n := Entry(op.key, op.value, op.now);
    MakeRoomEvicts(cs, small, op.seen);
    MakeRoomEvicts(cl, large, op.seen);
    EvictionsAgree(cs, cl, small, large, extra);
    WithoutMembers(large, extra);
    var goneS := Evicted(cs, small);
    var goneL := if n.key in KeySet(large) then {n.key} else Evicted(cl, large);
    extra' := extra + goneS - goneL;
    NestedPush(n, large, extra, goneS, goneL);
    SwapSize(extra, goneS, goneL);
  }

  lemma NestedFind<K, V>(small: Entries<K, V>, large: Entries<K, V>, extra: set<K>, k: K)
    requires Distinct(large) && small == Without(large, extra) && k !in extra
    ensures Find(small, k) == Find(large, k)
  {
    WithoutMembers(large, extra);
    WithoutDistinct(large, extra);
    FindMember(small, k);
    FindMember(large, k);
    if k in KeySet(small) {
      var e := Find(small, k).value;
      assert e in Without(large, extra);
      FindUnique(large, e);
    }
  }

  /** Moving an entry to the front of both lists, or of the large one alone when its key is extra. */
  lemma NestedFront<K, V>(large: Entries<K, V>, extra: set<K>, n: Entry<K, V>)
    requires extra <= KeySet(large)
    ensures Without(Front(large, n), extra)
         == if n.key in extra then Without(large, extra) else Front(Without(large, extra), n)
    ensures extra <= KeySet(Front(large, n))
  {
    PushWithout(n, large, {n.key}, extra);
    WithoutTwice(large, extra, {n.key});
    assert {n.key} + extra == extra + {n.key};
    if n.key in extra { assert extra + {n.key} == extra; }
  }

  lemma NestedRemove<K, V>(large: Entries<K, V>, extra: set<K>, k: K)
    requires extra <= KeySet(large)
    ensures Without(Without(large, {k}), extra - {k}) == Without(Without(large, extra), {k})
    ensures extra - {k} <= KeySet(Without(large, {k}))
  {
    WithoutMembers(large, {k});
    WithoutTwice(large, {k}, extra - {k});
    WithoutTwice(large, extra, {k});
    assert {k} + (extra - {k}) == extra + {k};
  }

  lemma NestedStep<K, V>(cs: Config, cl: Config, small: Entries<K, V>, large: Entries<K, V>, extra: set<K>,
                         op: Op<K, V>) returns (extra': set<K>)
    requires cs.interval == 0 && cl.interval == 0 && cs.capacity <= cl.capacity
    requires Bounded(cs, small) && Bounded(cl, large) && Nested(cs, cl, small, large, extra)
    ensures Nested(cs, cl, Step(cs, small, op), Step(cl, large, op), extra')
  {
    extra' := extra;
    if op.Add? {
      WithoutMembers(large, extra);
      if op.key in KeySet(small) {
        NestedFront(large, extra, Entry(op.key, op.value, op.now));
      } else {
        extra' := NestedInsert(cs, cl, small, large, extra, op);
      }
    } else if op.Get? {
      extra' := NestedGet(cs, cl, small, large, extra, op);
    } else if op.Remove? {
      NestedRemove(large, extra, op.key);
      extra' := extra - {op.key};
      SubsetSize(extra', extra);
    } else {
      extra' := {};
    }
  }

  lemma NestedGet<K, V>(cs: Config, cl: Config, small: Entries<K, V>, large: Entries<K, V>, extra: set<K>,
                        op: Op<K, V>) returns (extra': set<K>)
    requires cs.interval == 0 && cl.interval == 0
    requires Distinct(large) && Nested(cs, cl, small, large, extra) && op.Get?
    ensures Nested(cs, cl, Step(cs, small, op), Step(cl, large, op), extra')
  {
    extra' := extra;
    WithoutMembers(large, extra);
    FindMember(large, op.key);
    FindMember(small, op.key);
    if op.key in KeySet(large) {
      NestedFront(large, extra, Find(large, op.key).value);
      if op.key !in extra {
        NestedFind(small, large, extra, op.key);
      }
    }
  }

  lemma {:induction false} NestedRun<K, V>(cs: Config, cl: Config, ops: seq<Op<K, V>>) returns (extra: set<K>)
    requires cs.interval == 0 && cl.interval == 0 && cs.capacity <= cl.capacity
    ensures Nested(cs, cl, Run(cs, ops), Run(cl, ops), extra)
  {
    if ops == [] {
      extra := {};
    } else {
      var pre, op := ops[..|ops| - 1], ops[|ops| - 1];
      extra := NestedRun(cs, cl, pre);
      RunBounded(cs, [], pre);
      RunBounded(cl, [], pre);
      extra := NestedStep(cs, cl, Run(cs, pre), Run(cl, pre), extra, op);
    }
  }

  /**
    LRU inclusion: with expiry disabled, after any operations on two caches of
    capacity n <= m, every answer of the small cache is the answer of the large one.
   */
  lemma LruInclusion<K, V>(cs: Config, cl: Config, ops: seq<Op<K, V>>, k: K, now: int)
    requires cs.interval == 0 && cl.interval == 0 && cs.capacity <= cl.capacity
    ensures KeySet(Run(cs, ops)) <= KeySet(Run(cl, ops))
    ensures Answer(cs, Run(cs, ops), k, now).Some? ==>
              Answer(cl, Run(cl, ops), k, now) == Answer(cs, Run(cs, ops), k, now)
  {
    var extra := NestedRun(cs, cl, ops);
    var small, large := Run(cs, ops), Run(cl, ops);
    RunBounded(cl, [], ops);
    WithoutMembers(large, extra);
    FindMember(small, k);
    if k in KeySet(small) {
      NestedFind(small, large, extra, k);
    }
  }
}
