/**
  The simple form of the expiring LRU cache: one list of timed entries, most
  recently used first.  `Step` says what each cache operation does to the list;
  the three-container class in ExpireLruCache.dfy is proved to refine it.
 */
module RecencyList {
  import opened Options

  datatype Entry<K, V> = Entry(key: K, value: V, time: int)

  type Entries<K, V> = seq<Entry<K, V>>

  /** Capacity and expiry interval in milliseconds; an interval of 0 disables expiry. */
  datatype RawConfig = RawConfig(capacity: nat, interval: nat)

  type Config = c: RawConfig | c.capacity >= 1 witness RawConfig(1, 0)

  /**
    The cache operations with the clock values they observed.  An Add sees the
    clock once for its own time stamp and, if it sweeps, once more per stored
    key: `seen[k]` is the value the sweep saw when it looked at key `k`.
   */
  datatype Op<K, V> =
    | Add(key: K, value: V, now: int, seen: map<K, int>)
    | Get(key: K, now: int)
    | Remove(key: K)
    | Clear

  ghost function KeySet<K, V>(s: Entries<K, V>): set<K> {
    set e | e in s :: e.key
  }

  ghost predicate Distinct<K, V>(s: Entries<K, V>) {
    forall i, j :: 0 <= i < j < |s| ==> s[i].key != s[j].key
  }

  /** The list without the entries whose key is in `dead`, in the same order. */
  ghost function Without<K, V>(s: Entries<K, V>, dead: set<K>): Entries<K, V> {
    if s == [] then []
    else (if s[0].key in dead then [] else [s[0]]) + Without(s[1..], dead)
  }

  ghost predicate IsExpired(c: Config, time: int, now: int) {
    c.interval > 0 && now - time > c.interval
  }

  /** The keys a sweep that saw `seen` finds expired. */
  ghost function Expired<K, V>(c: Config, s: Entries<K, V>, seen: map<K, int>): set<K> {
    set e | e in s && e.key in seen && IsExpired(c, e.time, seen[e.key]) :: e.key
  }

  /** Room for one more entry: expired entries go first, else the least recently used one. */
  ghost function MakeRoom<K, V>(c: Config, s: Entries<K, V>, seen: map<K, int>): Entries<K, V> {
    if |s| < c.capacity then s
    else if Expired(c, s, seen) != {} then Without(s, Expired(c, s, seen))
    else s[..|s| - 1]
  }

  /** Entry `n` in front, in place of any entry with its key. */
  ghost function Front<K, V>(s: Entries<K, V>, n: Entry<K, V>): Entries<K, V> {
    [n] + Without(s, {n.key})
  }

  /** The entry stored under `k`, if any. */
  ghost function Find<K, V>(s: Entries<K, V>, k: K): Option<Entry<K, V>> {
    if s == [] then None
    else if s[0].key == k then Some(s[0])
    else Find(s[1..], k)
  }

  ghost function Step<K, V>(c: Config, s: Entries<K, V>, op: Op<K, V>): Entries<K, V> {
    match op
    case Add(k, v, now, seen) =>
      if k in KeySet(s) then Front(s, Entry(k, v, now))
      else [Entry(k, v, now)] + MakeRoom(c, s, seen)
    case Get(k, now) =>
      (match Find(s, k)
       case None => s
       case Some(e) => if IsExpired(c, e.time, now) then Without(s, {k}) else Front(s, e))
    case Remove(k) => Without(s, {k})
    case Clear => []
  }

  /** What Get answers: the stored value unless it is absent or expired. */
  ghost function Answer<K, V>(c: Config, s: Entries<K, V>, k: K, now: int): Option<V> {
    match Find(s, k)
    case None => None
    case Some(e) => if IsExpired(c, e.time, now) then None else Some(e.value)
  }

  /** The list after running `ops` from list `s`. */
  ghost function RunFrom<K, V>(c: Config, s: Entries<K, V>, ops: seq<Op<K, V>>): Entries<K, V> {
    if ops == [] then s else Step(c, RunFrom(c, s, ops[..|ops| - 1]), ops[|ops| - 1])
  }

  /** The list after a run of operations on a new cache. */
  ghost function Run<K, V>(c: Config, ops: seq<Op<K, V>>): Entries<K, V> {
    RunFrom(c, [], ops)
  }

  /** The list is in the range the cache can reach: distinct keys, at most `capacity` of them. */
  ghost predicate Bounded<K, V>(c: Config, s: Entries<K, V>) {
    Distinct(s) && |s| <= c.capacity
  }

  // ---------- Without ----------

  lemma {:induction false} WithoutMembers<K, V>(s: Entries<K, V>, dead: set<K>)
    ensures forall e :: e in Without(s, dead) ==> e in s && e.key !in dead
    ensures forall e :: e in s && e.key !in dead ==> e in Without(s, dead)
    ensures KeySet(Without(s, dead)) == KeySet(s) - dead
    ensures |Without(s, dead)| <= |s|
  {
    if s != [] {
      WithoutMembers(s[1..], dead);
      assert s == [s[0]] + s[1..];
      assert forall e :: e in s <==> e == s[0] || e in s[1..];
      assert forall e :: e in Without(s, dead) <==> (e == s[0] && e.key !in dead) || e in Without(s[1..], dead);
    }
    var r := Without(s, dead);
    assert forall e :: e in r <==> e in s && e.key !in dead;
    assert forall k :: k in KeySet(r) <==> k in KeySet(s) - dead;
  }

  lemma {:induction false} WithoutDistinct<K, V>(s: Entries<K, V>, dead: set<K>)
    requires Distinct(s)
    ensures Distinct(Without(s, dead))
  {
    if s != [] {
      assert Distinct(s[1..]);
      WithoutDistinct(s[1..], dead);
      WithoutMembers(s[1..], dead);
      var r := Without(s[1..], dead);
      forall j | 0 <= j < |r| ensures r[j].key != s[0].key {
        assert r[j] in r;
        assert r[j] in s[1..];
      }
    }
  }

  lemma {:induction false} WithoutConcat<K, V>(a: Entries<K, V>, b: Entries<K, V>, dead: set<K>)
    ensures Without(a + b, dead) == Without(a, dead) + Without(b, dead)
  {
    if a == [] {
      assert a + b == b;
    } else {
      assert (a + b)[1..] == a[1..] + b;
      WithoutConcat(a[1..], b, dead);
    }
  }

  lemma {:induction false} WithoutTwice<K, V>(s: Entries<K, V>, d1: set<K>, d2: set<K>)
    ensures Without(Without(s, d1), d2) == Without(s, d1 + d2)
  {
    if s != [] {
      WithoutTwice(s[1..], d1, d2);
      var h := if s[0].key in d1 then [] else [s[0]];
      WithoutConcat(h, Without(s[1..], d1), d2);
    }
  }

  lemma {:induction false} WithoutAbsent<K, V>(s: Entries<K, V>, dead: set<K>)
    requires KeySet(s) !! dead
    ensures Without(s, dead) == s
  {
    if s != [] {
      assert s[0].key in KeySet(s);
      assert KeySet(s[1..]) <= KeySet(s);
      WithoutAbsent(s[1..], dead);
    }
  }

  lemma {:induction false} KeySetSize<K, V>(s: Entries<K, V>)
    requires Distinct(s)
    ensures |KeySet(s)| == |s|
  {
    if s != [] {
      var t := s[1..];
      assert s == [s[0]] + t;
      assert s[0].key !in KeySet(t);
      assert KeySet(s) == {s[0].key} + KeySet(t);
      KeySetSize(t);
    }
  }

  /** With distinct keys, exactly one entry is lost per removed key. */
  lemma WithoutLength<K, V>(s: Entries<K, V>, dead: set<K>)
    requires Distinct(s) && dead <= KeySet(s)
    ensures |Without(s, dead)| == |s| - |dead|
  {
    WithoutMembers(s, dead);
    WithoutDistinct(s, dead);
    KeySetSize(s);
    KeySetSize(Without(s, dead));
    assert (KeySet(s) - dead) + dead == KeySet(s);
  }

  lemma {:induction false} DropLast<K, V>(s: Entries<K, V>)
    requires Distinct(s) && s != []
    ensures s[..|s| - 1] == Without(s, {s[|s| - 1].key})
    ensures s[|s| - 1].key in KeySet(s)
  {
    if |s| > 1 {
      DropLast(s[1..]);
      assert s[..|s| - 1] == [s[0]] + s[1..][..|s| - 2];
    }
    assert s[|s| - 1] in s;
  }

  // ---------- Find ----------

  lemma {:induction false} FindMember<K, V>(s: Entries<K, V>, k: K)
    ensures Find(s, k).Some? <==> k in KeySet(s)
    ensures Find(s, k).Some? ==> Find(s, k).value in s && Find(s, k).value.key == k
  {
    if s != [] {
      assert s == [s[0]] + s[1..];
      FindMember(s[1..], k);
      assert KeySet(s) == {s[0].key} + KeySet(s[1..]);
    }
  }

  lemma {:induction false} FindUnique<K, V>(s: Entries<K, V>, e: Entry<K, V>)
    requires Distinct(s) && e in s
    ensures Find(s, e.key) == Some(e)
  {
    if s[0].key == e.key {
      var i :| 0 <= i < |s| && s[i] == e;
    } else {
      assert e in s[1..] by { assert s == [s[0]] + s[1..]; }
      FindUnique(s[1..], e);
    }
  }

  // ---------- The sweep ----------

  /**
    What a sweep does, whatever the clock showed it: it drops only entries that
    are expired when it ends, and every entry that was already expired when it
    began; the survivors keep their order, values and times.
   */
  lemma SweepExact<K, V>(c: Config, s: Entries<K, V>, seen: map<K, int>, begin: int, end: int)
    requires forall e :: e in s ==> e.key in seen
    requires forall k :: k in seen ==> begin <= seen[k] <= end
    ensures var kept := Without(s, Expired(c, s, seen));
            && (forall e :: e in kept ==> e in s && (c.interval == 0 || begin - e.time <= c.interval))
            && (Distinct(s) ==> forall e :: e in s && e !in kept ==> c.interval > 0 && end - e.time > c.interval)
            && (Distinct(s) ==> forall e :: e in s ==>
                  (e in kept <==> c.interval == 0 || seen[e.key] - e.time <= c.interval))
  {
    var dead := Expired(c, s, seen);
    WithoutMembers(s, dead);
    forall e | e in Without(s, dead) ensures e in s && !IsExpired(c, e.time, begin) {
      assert e in s && e.key !in dead;
      assert !IsExpired(c, e.time, seen[e.key]);
    }
    if Distinct(s) {
      forall e | e in s && e.key in dead ensures IsExpired(c, e.time, end) {
        var f :| f in s && f.key in seen && IsExpired(c, f.time, seen[f.key]) && f.key == e.key;
        FindUnique(s, e);
        FindUnique(s, f);
      }
    }
  }

  /** The reading of the sweep finds the entry older than the interval. */
  ghost predicate TooOld<K, V>(c: Config, e: Entry<K, V>, seen: map<K, int>) {
    e.key in seen && c.interval > 0 && seen[e.key] - e.time > c.interval
  }

  /**
    What an Add does, in numbers: it replaces the entry of its key, or fits in, or
    in a full cache drops exactly the entries its sweep finds too old, and only if
    there are none the last entry.
   */
  lemma AddExactly<K, V>(c: Config, s: Entries<K, V>, op: Op<K, V>)
    requires Bounded(c, s) && op.Add?
    ensures var n, r := Entry(op.key, op.value, op.now), Step(c, s, op);
            && r != [] && r[0] == n
            && (op.key in KeySet(s) ==> forall e :: e in r <==> e == n || (e in s && e.key != op.key))
            && (op.key !in KeySet(s) && |s| < c.capacity ==> r == [n] + s)
            && (op.key !in KeySet(s) && |s| >= c.capacity && (exists f :: f in s && TooOld(c, f, op.seen)) ==>
                  forall e :: e in r <==> e == n || (e in s && !TooOld(c, e, op.seen)))
            && (op.key !in KeySet(s) && |s| >= c.capacity && (forall f :: f in s ==> !TooOld(c, f, op.seen)) ==>
                  r == [n] + s[..|s| - 1])
  {
    var n, dead := Entry(op.key, op.value, op.now), Expired(c, s, op.seen);
    WithoutMembers(s, {op.key});
    WithoutMembers(s, dead);
    forall e | e in s ensures TooOld(c, e, op.seen) <==> e.key in dead {
      if e.key in dead {
        var f :| f in s && f.key in op.seen && IsExpired(c, f.time, op.seen[f.key]) && f.key == e.key;
        FindUnique(s, e);
        FindUnique(s, f);
      }
    }
    if op.key in KeySet(s) {
      assert forall e :: e in Step(c, s, op) <==> e == n || e in Without(s, {op.key});
    } else if |s| >= c.capacity && dead != {} {
      assert forall e :: e in Step(c, s, op) <==> e == n || e in Without(s, dead);
    }
  }

  // ---------- Every operation keeps the bound ----------

  lemma MakeRoomBounded<K, V>(c: Config, s: Entries<K, V>, seen: map<K, int>)
    requires Bounded(c, s)
    ensures Distinct(MakeRoom(c, s, seen)) && |MakeRoom(c, s, seen)| < c.capacity
    ensures forall e :: e in MakeRoom(c, s, seen) ==> e in s
    ensures KeySet(MakeRoom(c, s, seen)) <= KeySet(s)
  {
    var dead := Expired(c, s, seen);
    WithoutMembers(s, dead);
    WithoutDistinct(s, dead);
    assert dead <= KeySet(s);
    WithoutLength(s, dead);
    forall e | e in MakeRoom(c, s, seen) ensures e in s {
      if |s| >= c.capacity && dead != {} {
        assert e in Without(s, dead);
      }
    }
  }

  lemma PushDistinct<K, V>(e: Entry<K, V>, s: Entries<K, V>)
    requires Distinct(s) && e.key !in KeySet(s)
    ensures Distinct([e] + s)
  {
    forall j | 0 <= j < |s| ensures s[j].key != e.key {
      assert s[j] in s;
    }
  }

  lemma StepBounded<K, V>(c: Config, s: Entries<K, V>, op: Op<K, V>)
    requires Bounded(c, s)
    ensures Bounded(c, Step(c, s, op))
  {
    if op.Clear? { return; }
    var k := op.key;
    WithoutMembers(s, {k});
    WithoutDistinct(s, {k});
    FindMember(s, k);
    if k in KeySet(s) { WithoutLength(s, {k}); }
    match op
    case Add(_, v, now, seen) =>
      MakeRoomBounded(c, s, seen);
      if k in KeySet(s) {
        PushDistinct(Entry(k, v, now), Without(s, {k}));
      } else {
        PushDistinct(Entry(k, v, now), MakeRoom(c, s, seen));
      }
    case Get(_, now) =>
      if Find(s, k).Some? {
        PushDistinct(Find(s, k).value, Without(s, {k}));
      }
    case Remove(_) =>
  }

  lemma {:induction false} RunBounded<K, V>(c: Config, s: Entries<K, V>, ops: seq<Op<K, V>>)
    requires Bounded(c, s)
    ensures Bounded(c, RunFrom(c, s, ops))
  {
    if ops != [] {
      RunBounded(c, s, ops[..|ops| - 1]);
      StepBounded(c, RunFrom(c, s, ops[..|ops| - 1]), ops[|ops| - 1]);
    }
  }

  lemma {:induction false} RunConcat<K, V>(c: Config, s: Entries<K, V>, a: seq<Op<K, V>>, b: seq<Op<K, V>>)
    ensures RunFrom(c, s, a + b) == RunFrom(c, RunFrom(c, s, a), b)
  {
    if b == [] {
      assert a + b == a;
    } else {
      assert (a + b)[..|a + b| - 1] == a + b[..|b| - 1];
      RunConcat(c, s, a, b[..|b| - 1]);
    }
  }
}
