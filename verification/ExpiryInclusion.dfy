/**
  Two caches of different capacity with expiry, on the same operations and one
  nondecreasing clock: does a larger cache still answer whatever a smaller one
  answers?  Each sweep reads the clock on its own.  With readings of their own the
  two caches agree exactly when the large one evicts nothing the small one keeps;
  when both sweeps read the same times that never happens.
 */
module ExpiryInclusion {
  import opened Options
  import opened RecencyList
  import opened LruTheorems

  // ---------- Operations in the order of one clock ----------

  /** When the operation begins, if it reads the clock at all. */
  ghost function Begin<K, V>(op: Op<K, V>, end: int): int {
    if op.Add? || op.Get? then op.now else end
  }

  /** All readings of the operation lie between its beginning and `end`. */
  ghost predicate InTime<K, V>(op: Op<K, V>, end: int) {
    && Begin(op, end) <= end
    && (op.Add? ==> forall k :: k in op.seen ==> op.now <= op.seen[k] <= end)
  }

  ghost predicate Timed<K, V>(ops: seq<Op<K, V>>, end: int) {
    if ops == [] then true
    else
      var op := ops[|ops| - 1];
      InTime(op, end) && Timed(ops[..|ops| - 1], Begin(op, end))
  }

  /** The same operation, apart from what its sweep reads. */
  ghost predicate Twin<K, V>(a: Op<K, V>, b: Op<K, V>) {
    if a.Add? && b.Add? then a.(seen := b.seen) == b else a == b
  }

  ghost predicate Twins<K, V>(opsS: seq<Op<K, V>>, opsL: seq<Op<K, V>>) {
    |opsS| == |opsL| && forall i :: 0 <= i < |opsS| ==> Twin(opsS[i], opsL[i])
  }

  // ---------- Inclusion with readings of their own ----------

  /** Every entry of the small list that is not expired at `now` is in the large list. */
  ghost predicate Contained<K, V>(c: Config, small: Entries<K, V>, large: Entries<K, V>, now: int) {
    forall e :: e in small && !IsExpired(c, e.time, now) ==> e in large
  }

  /** The entry an Add to a full cache evicts: the last one, if its sweep finds nothing expired. */
  ghost function Victim<K, V>(c: Config, s: Entries<K, V>, op: Op<K, V>): Option<Entry<K, V>> {
    if op.Add? && op.key !in KeySet(s) && |s| >= c.capacity && Expired(c, s, op.seen) == {} then Some(s[|s| - 1]) else None
  }

  /** The large cache evicts an entry that is still valid at `end` and that the small cache holds and does not evict. */
  ghost predicate Unmatched<K, V>(cs: Config, cl: Config, small: Entries<K, V>, large: Entries<K, V>, a: Op<K, V>, b: Op<K, V>, end: int) {
    var victim := Victim(cl, large, b);
    victim.Some? && victim.value in small && !IsExpired(cl, victim.value.time, end) && Victim(cs, small, a) != victim
  }

  /** Which entries that are valid at `end` an operation leaves. */
  lemma ValidMembers<K, V>(c: Config, s: Entries<K, V>, op: Op<K, V>, end: int, e: Entry<K, V>)
    requires Bounded(c, s) && InTime(op, end) && !IsExpired(c, e.time, end)
    ensures e in Step(c, s, op) <==>
      || (op.Add? && e == Entry(op.key, op.value, op.now))
      || (e in s && !Overwrites(op, e.key) && Victim(c, s, op) != Some(e))
  {
    match op
    case Clear =>
    case Remove(k) => WithoutMembers(s, {k});
    case Get(k, now) => GetKeeps(c, s, op, end, e);
    case Add(k, v, now, seen) =>
      if k in KeySet(s) {
        WithoutMembers(s, {k});
        PushMember(Entry(k, v, now), Without(s, {k}), e);
      } else {
        PushMember(Entry(k, v, now), MakeRoom(c, s, seen), e);
        RoomMembers(c, s, op, end, e);
        assert e in s ==> e.key in KeySet(s);
      }
  }

  lemma PushMember<K, V>(n: Entry<K, V>, s: Entries<K, V>, e: Entry<K, V>)
    ensures e in [n] + s <==> e == n || e in s
  {
  }

  lemma GetKeeps<K, V>(c: Config, s: Entries<K, V>, op: Op<K, V>, end: int, e: Entry<K, V>)
    requires Distinct(s) && op.Get? && op.now <= end && !IsExpired(c, e.time, end)
    ensures e in Step(c, s, op) <==> e in s
  {
    var k := op.key;
    FindMember(s, k);
    if Find(s, k).Some? {
      var f := Find(s, k).value;
      WithoutMembers(s, {k});
      PushMember(f, Without(s, {k}), e);
      if e in s && e.key == k { FindUnique(s, e); }
    }
  }

  lemma RoomMembers<K, V>(c: Config, s: Entries<K, V>, op: Op<K, V>, end: int, e: Entry<K, V>)
    requires Bounded(c, s) && InTime(op, end) && !IsExpired(c, e.time, end) && op.Add? && op.key !in KeySet(s)
    ensures e in MakeRoom(c, s, op.seen) <==> e in s && Victim(c, s, op) != Some(e)
  {
    var dead := Expired(c, s, op.seen);
    if |s| >= c.capacity {
      if dead != {} {
        WithoutMembers(s, dead);
        if e in s && e.key in dead {
          var f :| f in s && f.key in op.seen && IsExpired(c, f.time, op.seen[f.key]) && f.key == e.key;
          FindUnique(s, e);
          FindUnique(s, f);
        }
      } else {
        DropLast(s);
        var last := s[|s| - 1];
        WithoutMembers(s, {last.key});
        if e in s && e.key == last.key {
          FindUnique(s, e);
          FindUnique(s, last);
        }
      }
    }
  }

  /** One operation keeps containment if and only if the large cache's eviction is matched. */
  lemma ContainedExactly<K, V>(cs: Config, cl: Config, small: Entries<K, V>, large: Entries<K, V>, a: Op<K, V>, b: Op<K, V>, end: int)
    requires cs.interval == cl.interval && Bounded(cs, small) && Bounded(cl, large)
    requires Twin(a, b) && InTime(a, end) && InTime(b, end) && Contained(cl, small, large, Begin(b, end))
    ensures Contained(cl, Step(cs, small, a), Step(cl, large, b), end) <==> !Unmatched(cs, cl, small, large, a, b, end)
  {
    var victim := Victim(cl, large, b);
    if Unmatched(cs, cl, small, large, a, b, end) {
      var l := victim.value;
      assert l in large;
      assert l.key in KeySet(large);
      ValidMembers(cs, small, a, end, l);
      ValidMembers(cl, large, b, end, l);
    } else {
      forall e | e in Step(cs, small, a) && !IsExpired(cl, e.time, end) ensures e in Step(cl, large, b) {
        ValidMembers(cs, small, a, end, e);
        ValidMembers(cl, large, b, end, e);
      }
    }
  }

  ghost predicate ContainedThroughout<K, V>(cs: Config, cl: Config, opsS: seq<Op<K, V>>, opsL: seq<Op<K, V>>, end: int)
    requires |opsS| == |opsL|
  {
    var n := |opsS| - 1;
    && (opsS != [] ==> ContainedThroughout(cs, cl, opsS[..n], opsL[..n], Begin(opsL[n], end)))
    && Contained(cl, Run(cs, opsS), Run(cl, opsL), end)
  }

  ghost predicate EvictionsMatched<K, V>(cs: Config, cl: Config, opsS: seq<Op<K, V>>, opsL: seq<Op<K, V>>, end: int)
    requires |opsS| == |opsL|
  {
    if opsS == [] then true
    else
      var n := |opsS| - 1;
      && EvictionsMatched(cs, cl, opsS[..n], opsL[..n], Begin(opsL[n], end))
      && !Unmatched(cs, cl, Run(cs, opsS[..n]), Run(cl, opsL[..n]), opsS[n], opsL[n], end)
  }

  /**
    Inclusion with expiry, each cache with readings of its own: at every point of
    the two runs each valid entry of one cache is in the other if and only if the
    other never evicts a valid entry that the first holds and keeps.
   */
  lemma {:induction false} InclusionExactly<K, V>(cs: Config, cl: Config, opsS: seq<Op<K, V>>, opsL: seq<Op<K, V>>, end: int)
    requires cs.interval == cl.interval && Twins(opsS, opsL) && Timed(opsS, end) && Timed(opsL, end)
    ensures ContainedThroughout(cs, cl, opsS, opsL, end) <==> EvictionsMatched(cs, cl, opsS, opsL, end)
  {
    if opsS != [] {
      var n := |opsS| - 1;
      var a, b := opsS[n], opsL[n];
      assert Twin(a, b);
      InclusionExactly(cs, cl, opsS[..n], opsL[..n], Begin(b, end));
      RunBounded(cs, [], opsS[..n]);
      RunBounded(cl, [], opsL[..n]);
      if ContainedThroughout(cs, cl, opsS[..n], opsL[..n], Begin(b, end)) {
        ContainedExactly(cs, cl, Run(cs, opsS[..n]), Run(cl, opsL[..n]), a, b, end);
      }
    }
  }

  /** Containment at `now` is what a Get at `now` needs: every answer of the small list is the answer of the large one. */
  lemma ContainedAnswers<K, V>(cs: Config, cl: Config, small: Entries<K, V>, large: Entries<K, V>, k: K, now: int)
    requires cs.interval == cl.interval && Distinct(large) && Contained(cl, small, large, now)
    ensures Answer(cs, small, k, now).Some? ==> Answer(cl, large, k, now) == Answer(cs, small, k, now)
  {
    FindMember(small, k);
    if Answer(cs, small, k, now).Some? {
      FindUnique(large, Find(small, k).value);
    }
  }

  // ---------- Inclusion with common readings ----------

  ghost function Dead<K, V>(c: Config, s: Entries<K, V>, now: int): set<K> {
    set e | e in s && IsExpired(c, e.time, now) :: e.key
  }

  /** The entries not expired at `now`, in order. */
  ghost function Valid<K, V>(c: Config, s: Entries<K, V>, now: int): Entries<K, V> {
    Without(s, Dead(c, s, now))
  }

  lemma ValidEntries<K, V>(c: Config, s: Entries<K, V>, now: int)
    requires Distinct(s)
    ensures Distinct(Valid(c, s, now)) && |Valid(c, s, now)| <= |s|
    ensures KeySet(Valid(c, s, now)) <= KeySet(s)
    ensures forall e :: e in Valid(c, s, now) ==> e in s && !IsExpired(c, e.time, now)
    ensures forall e :: e in s && !IsExpired(c, e.time, now) ==> e in Valid(c, s, now)
    ensures (forall e :: e in s ==> !IsExpired(c, e.time, now)) ==> Valid(c, s, now) == s
  {
    var dead := Dead(c, s, now);
    WithoutMembers(s, dead);
    WithoutDistinct(s, dead);
    forall e | e in s && !IsExpired(c, e.time, now) ensures e.key !in dead {
      if e.key in dead {
        var f :| f in s && IsExpired(c, f.time, now) && f.key == e.key;
        FindUnique(s, e);
        FindUnique(s, f);
      }
    }
    if forall e :: e in s ==> !IsExpired(c, e.time, now) {
      assert dead == {};
      WithoutAbsent(s, {});
    }
  }

  /** Fewer valid entries than entries when one is expired. */
  lemma FewerValid<K, V>(c: Config, s: Entries<K, V>, now: int)
    requires Distinct(s)
    ensures |Valid(c, s, now)| == |s| ==> Valid(c, s, now) == s && forall e :: e in s ==> !IsExpired(c, e.time, now)
  {
    var dead := Dead(c, s, now);
    assert dead <= KeySet(s);
    assert forall e :: e in s && IsExpired(c, e.time, now) ==> e.key in dead;
    WithoutLength(s, dead);
    if |dead| == 0 {
      WithoutAbsent(s, {});
    }
  }

  lemma ValidLater<K, V>(c: Config, s: Entries<K, V>, now: int, later: int)
    requires Distinct(s) && now <= later
    ensures Valid(c, Valid(c, s, now), later) == Valid(c, s, later)
  {
    ValidEntries(c, s, now);
    var v := Valid(c, s, now);
    WithoutTwice(s, Dead(c, s, now), Dead(c, v, later));
    assert Dead(c, s, now) + Dead(c, v, later) == Dead(c, s, later) by {
      forall k | k in Dead(c, s, later) ensures k in Dead(c, s, now) + Dead(c, v, later) {
        var e :| e in s && IsExpired(c, e.time, later) && e.key == k;
        if !IsExpired(c, e.time, now) { assert e in v; }
      }
    }
  }

  lemma ValidWithout<K, V>(c: Config, s: Entries<K, V>, gone: set<K>, now: int)
    ensures Valid(c, Without(s, gone), now) == Without(Valid(c, s, now), gone)
  {
    var r := Without(s, gone);
    WithoutMembers(s, gone);
    WithoutTwice(s, gone, Dead(c, r, now));
    WithoutTwice(s, Dead(c, s, now), gone);
    assert gone + Dead(c, r, now) == Dead(c, s, now) + gone by {
      forall k | k in Dead(c, s, now) ensures k in gone + Dead(c, r, now) {
        var e :| e in s && IsExpired(c, e.time, now) && e.key == k;
        if k !in gone { assert e in r; }
      }
    }
  }

  lemma ValidPush<K, V>(c: Config, n: Entry<K, V>, s: Entries<K, V>, now: int)
    requires n.key !in KeySet(s)
    ensures Valid(c, [n] + s, now) == (if IsExpired(c, n.time, now) then [] else [n]) + Valid(c, s, now)
  {
    var dead := Dead(c, [n] + s, now);
    var own := if IsExpired(c, n.time, now) then {n.key} else {};
    assert dead == Dead(c, s, now) + own by {
      forall k | k in dead ensures k in Dead(c, s, now) + own {
        var e :| e in [n] + s && IsExpired(c, e.time, now) && e.key == k;
        assert e == n || e in s;
      }
      assert n in [n] + s && forall e :: e in s ==> e in [n] + s;
    }
    assert n.key !in Dead(c, s, now);
    WithoutConcat([n], s, dead);
    WithoutTwice(s, Dead(c, s, now), own);
    WithoutMembers(s, Dead(c, s, now));
    WithoutAbsent(Valid(c, s, now), own);
  }

  /** Time passes: the valid entries stay nested, with no more extra keys. */
  lemma NestedLater<K, V>(cs: Config, cl: Config, small: Entries<K, V>, large: Entries<K, V>, extra: set<K>, now: int, later: int)
    returns (extra': set<K>)
    requires cs.interval == cl.interval && Distinct(small) && Distinct(large) && now <= later
    requires Nested(cs, cl, Valid(cl, small, now), Valid(cl, large, now), extra)
    ensures Nested(cs, cl, Valid(cl, small, later), Valid(cl, large, later), extra')
    ensures extra' == extra - Dead(cl, Valid(cl, large, now), later)
  {
    var vs, vl := Valid(cl, small, now), Valid(cl, large, now);
    var deadS, deadL := Dead(cl, vs, later), Dead(cl, vl, later);
    ValidLater(cl, small, now, later);
    ValidLater(cl, large, now, later);
    extra' := extra - deadL;
    SubsetSize(extra', extra);
    WithoutMembers(vl, extra);
    WithoutMembers(vl, deadL);
    WithoutTwice(vl, extra, deadS);
    WithoutTwice(vl, deadL, extra');
    assert extra + deadS == deadL + extra' by {
      forall k | k in deadL ensures k in extra + deadS {
        var e :| e in vl && IsExpired(cl, e.time, later) && e.key == k;
        if k !in extra { assert e in vs; }
      }
      forall k | k in deadS ensures k in deadL {
        var e :| e in vs && IsExpired(cl, e.time, later) && e.key == k;
        assert e in vl;
      }
    }
  }

  lemma SameInterval<K, V>(cs: Config, cl: Config, s: Entries<K, V>, now: int, seen: map<K, int>)
    requires cs.interval == cl.interval
    ensures Valid(cs, s, now) == Valid(cl, s, now) && Expired(cs, s, seen) == Expired(cl, s, seen)
  {
    assert Dead(cs, s, now) == Dead(cl, s, now);
  }

  /** Only the keys that are there matter. */
  lemma WithoutSame<K, V>(s: Entries<K, V>, d: set<K>)
    ensures Without(s, d) == Without(s, d * KeySet(s))
  {
    var here := d * KeySet(s);
    WithoutTwice(s, here, d - KeySet(s));
    WithoutMembers(s, here);
    WithoutAbsent(Without(s, here), d - KeySet(s));
    assert here + (d - KeySet(s)) == d;
  }

  // What an Add does to the valid entries.

  ghost function Taken<K, V>(c: Config, s: Entries<K, V>, op: Op<K, V>): set<K> {
    if Victim(c, s, op).Some? then {Victim(c, s, op).value.key} else {}
  }

  ghost function Added<K, V>(c: Config, op: Op<K, V>, end: int): Entries<K, V>
    requires op.Add?
  {
    if IsExpired(c, op.now, end) then [] else [Entry(op.key, op.value, op.now)]
  }

  lemma ValidRoom<K, V>(c: Config, s: Entries<K, V>, op: Op<K, V>, end: int)
    requires Bounded(c, s) && op.Add? && InTime(op, end) && op.key !in KeySet(s)
    ensures Valid(c, MakeRoom(c, s, op.seen), end) == Without(Valid(c, s, end), Taken(c, s, op))
  {
    var dead := Expired(c, s, op.seen);
    if |s| < c.capacity {
      WithoutAbsent(Valid(c, s, end), {});
    } else if dead != {} {
      ValidWithout(c, s, dead, end);
      WithoutMembers(s, Dead(c, s, end));
      assert dead <= Dead(c, s, end);
      WithoutAbsent(Valid(c, s, end), dead);
      WithoutAbsent(Valid(c, s, end), {});
    } else {
      DropLast(s);
      ValidWithout(c, s, {s[|s| - 1].key}, end);
    }
  }

  lemma ValidAdd<K, V>(c: Config, s: Entries<K, V>, op: Op<K, V>, end: int)
    requires Bounded(c, s) && op.Add? && InTime(op, end)
    ensures Valid(c, Step(c, s, op), end) == Added(c, op, end) + Without(Valid(c, s, end), {op.key} + Taken(c, s, op))
  {
    var n := Entry(op.key, op.value, op.now);
    if op.key in KeySet(s) {
      WithoutMembers(s, {op.key});
      ValidPush(c, n, Without(s, {op.key}), end);
      ValidWithout(c, s, {op.key}, end);
      assert {op.key} + Taken(c, s, op) == {op.key};
    } else {
      MakeRoomBounded(c, s, op.seen);
      ValidPush(c, n, MakeRoom(c, s, op.seen), end);
      ValidRoom(c, s, op, end);
      WithoutMembers(s, Dead(c, s, end));
      WithoutAbsent(Valid(c, s, end), {op.key});
      WithoutTwice(Valid(c, s, end), {op.key}, Taken(c, s, op));
    }
  }

  /** Both lists lose the key and what was taken from them, and may get the new entry in front. */
  lemma NestedTaken<K, V>(large: Entries<K, V>, extra: set<K>, n: Entry<K, V>, front: Entries<K, V>, takenS: set<K>, takenL: set<K>)
    returns (extra': set<K>)
    requires extra <= KeySet(large) && takenL * KeySet(large) <= extra + takenS && (front == [] || front == [n])
    ensures front + Without(Without(large, extra), {n.key} + takenS)
         == Without(front + Without(large, {n.key} + takenL), extra')
    ensures extra' <= KeySet(front + Without(large, {n.key} + takenL))
    ensures extra' <= extra + takenS - takenL - {n.key}
  {
    var keys := KeySet(large);
    var goneS, goneL := ({n.key} + takenS) * keys, ({n.key} + takenL) * keys;
    extra' := extra + goneS - goneL;
    forall x | x in goneL ensures x in extra + goneS {
      if x in takenL { assert x in takenL * keys; }
    }
    WithoutSame(large, {n.key} + takenL);
    WithoutTwice(large, extra, {n.key} + takenS);
    WithoutTwice(large, extra, goneS);
    WithoutSame(large, extra + ({n.key} + takenS));
    assert (extra + ({n.key} + takenS)) * keys == extra + goneS;
    if front == [n] {
      NestedPush(n, large, extra, goneS, goneL);
    } else {
      WithoutTwice(large, goneL, extra');
      assert goneL + extra' == extra + goneS;
      WithoutMembers(large, goneL);
      assert front + Without(large, goneL) == Without(large, goneL);
      assert front + Without(Without(large, extra), goneS) == Without(Without(large, extra), goneS);
    }
  }

  // How the evictions of the two caches compare.

  /** A sweep looks at every stored key. */
  ghost predicate Sees<K, V>(c: Config, s: Entries<K, V>, op: Op<K, V>) {
    c.interval > 0 && op.Add? ==> KeySet(s) <= op.seen.Keys
  }

  /** An eviction means that the cache is full and all its entries were valid when the Add began. */
  lemma VictimAllValid<K, V>(c: Config, s: Entries<K, V>, op: Op<K, V>, end: int)
    requires Bounded(c, s) && InTime(op, end) && Sees(c, s, op) && Victim(c, s, op).Some?
    ensures |s| == c.capacity && Valid(c, s, op.now) == s
  {
    assert forall e :: e in s && e.key in op.seen && IsExpired(c, e.time, op.seen[e.key]) ==> e.key in Expired(c, s, op.seen);
    assert forall e :: e in s ==> e.key in KeySet(s);
    ValidEntries(c, s, op.now);
  }

  /** When the large cache evicts, so does the small one: the same entry, unless the large one's is extra. */
  lemma VictimsAgree<K, V>(cs: Config, cl: Config, small: Entries<K, V>, large: Entries<K, V>, extra: set<K>, op: Op<K, V>, end: int)
    requires cs.interval == cl.interval && cs.capacity <= cl.capacity && Bounded(cs, small) && Bounded(cl, large)
    requires InTime(op, end) && Sees(cl, large, op) && Victim(cl, large, op).Some?
    requires Nested(cs, cl, Valid(cl, small, op.now), Valid(cl, large, op.now), extra)
    ensures Victim(cs, small, op).Some?
    ensures Victim(cl, large, op).value.key in extra || Victim(cs, small, op) == Victim(cl, large, op)
  {
    VictimAllValid(cl, large, op, end);
    WithoutLength(large, extra);
    WithoutMembers(large, extra);
    ValidEntries(cl, small, op.now);
    FewerValid(cl, small, op.now);
    assert small == Without(large, extra);
    SameInterval(cs, cl, small, op.now, op.seen);
    assert Expired(cl, small, op.seen) <= Expired(cl, large, op.seen);
    var l := large[|large| - 1];
    if l.key !in extra {
      LastKept(large, extra);
    }
  }

  lemma SwapOne<T>(all: set<T>, x: T, y: T, part: set<T>)
    requires x in all && part <= all - {x} + {y}
    ensures |part| <= |all|
  {
    SubsetSize(part, all - {x} + {y});
  }

  /** A small cache that evicts leaves no more extra keys than the capacities differ by. */
  lemma ExtraFits<K, V>(cs: Config, cl: Config, small: Entries<K, V>, large: Entries<K, V>, extra: set<K>, rest: set<K>, op: Op<K, V>, end: int)
    requires cs.interval == cl.interval && cs.capacity <= cl.capacity && Bounded(cs, small) && Bounded(cl, large)
    requires InTime(op, end) && Sees(cl, small, op) && Sees(cl, large, op) && Victim(cs, small, op).Some?
    requires Nested(cs, cl, Valid(cl, small, op.now), Valid(cl, large, op.now), extra)
    requires rest == extra - Dead(cl, Valid(cl, large, op.now), end)
    ensures |rest + Taken(cs, small, op) - Taken(cl, large, op) - {op.key}| <= cl.capacity - cs.capacity
  {
    ValidCounts(cs, cl, small, large, extra, op, end);
    var y, gone := Victim(cs, small, op).value.key, Taken(cl, large, op) + {op.key};
    assert rest + Taken(cs, small, op) - Taken(cl, large, op) - {op.key} == rest + {y} - gone;
    if |extra| < cl.capacity - cs.capacity {
      SubsetSize(rest + {y} - gone, extra + {y});
    } else {
      var x := ExtraLeaves(cs, cl, small, large, extra, rest, op, end);
      OneForOne(extra, rest, gone, x, y);
    }
  }

  /** A small cache that evicts is full and valid; with as many extra keys as there can be, so is the large one. */
  lemma ValidCounts<K, V>(cs: Config, cl: Config, small: Entries<K, V>, large: Entries<K, V>, extra: set<K>, op: Op<K, V>, end: int)
    requires cs.interval == cl.interval && cs.capacity <= cl.capacity && Bounded(cs, small) && Bounded(cl, large)
    requires InTime(op, end) && Sees(cl, small, op) && Victim(cs, small, op).Some?
    requires Nested(cs, cl, Valid(cl, small, op.now), Valid(cl, large, op.now), extra)
    ensures Valid(cl, small, op.now) == small
    ensures |extra| == cl.capacity - cs.capacity ==> Valid(cl, large, op.now) == large && |large| == cl.capacity
  {
    SameInterval(cs, cl, small, op.now, op.seen);
    VictimAllValid(cs, small, op, end);
    ValidEntries(cl, large, op.now);
    WithoutLength(Valid(cl, large, op.now), extra);
    FewerValid(cl, large, op.now);
  }

  /** If `x` leaves a set when `y` comes, the set does not grow. */
  lemma OneForOne<T>(all: set<T>, rest: set<T>, gone: set<T>, x: T, y: T)
    requires rest <= all && x !in rest - gone
    requires x in all || (x == y && x in gone)
    ensures |rest + {y} - gone| <= |all|
  {
    if x in all && x != y {
      SwapOne(all, x, y, rest + {y} - gone);
    } else {
      SubsetSize(rest + {y} - gone, all);
    }
  }

  /** With as many extra keys as there can be, both caches full and valid, the Add makes one of them go, or takes the same key from both. */
  lemma ExtraLeaves<K, V>(cs: Config, cl: Config, small: Entries<K, V>, large: Entries<K, V>, extra: set<K>, rest: set<K>, op: Op<K, V>, end: int)
    returns (x: K)
    requires cs.interval == cl.interval && cs.capacity <= cl.capacity && Bounded(cs, small) && Bounded(cl, large)
    requires InTime(op, end) && Sees(cl, large, op) && Victim(cs, small, op).Some?
    requires Nested(cs, cl, Valid(cl, small, op.now), Valid(cl, large, op.now), extra)
    requires Valid(cl, small, op.now) == small && Valid(cl, large, op.now) == large && |large| == cl.capacity
    requires rest == extra - Dead(cl, large, end)
    ensures x in extra || Taken(cs, small, op) == {x}
    ensures x !in rest - Taken(cl, large, op) - {op.key}
    ensures x !in extra ==> x in Taken(cl, large, op)
  {
    WithoutMembers(large, extra);
    if op.key in KeySet(large) {
      x := op.key;
    } else if Expired(cl, large, op.seen) != {} {
      x := SweptExtra(cs, cl, small, large, extra, op, end);
    } else {
      VictimsAgree(cs, cl, small, large, extra, op, end);
      x := Victim(cl, large, op).value.key;
    }
  }

  /** What the large cache sweeps while the small one finds nothing expired is an extra key. */
  lemma SweptExtra<K, V>(cs: Config, cl: Config, small: Entries<K, V>, large: Entries<K, V>, extra: set<K>, op: Op<K, V>, end: int)
    returns (x: K)
    requires cs.interval == cl.interval && op.Add? && InTime(op, end)
    requires small == Without(large, extra) && Expired(cs, small, op.seen) == {} && Expired(cl, large, op.seen) != {}
    ensures x in extra && x in Dead(cl, large, end)
  {
    var seen := op.seen;
    assert forall f :: f in small && f.key in seen && IsExpired(cs, f.time, seen[f.key]) ==> f.key in Expired(cs, small, seen);
    WithoutMembers(large, extra);
    var e :| e in large && e.key in seen && IsExpired(cl, e.time, seen[e.key]);
    x := e.key;
  }

  // Whole runs.

  lemma NestedAdd<K, V>(cs: Config, cl: Config, small: Entries<K, V>, large: Entries<K, V>, extra: set<K>, op: Op<K, V>, end: int)
    returns (extra': set<K>)
    requires cs.interval == cl.interval && cs.capacity <= cl.capacity && Bounded(cs, small) && Bounded(cl, large)
    requires op.Add? && InTime(op, end) && Sees(cl, small, op) && Sees(cl, large, op)
    requires Nested(cs, cl, Valid(cl, small, op.now), Valid(cl, large, op.now), extra)
    ensures Nested(cs, cl, Valid(cl, Step(cs, small, op), end), Valid(cl, Step(cl, large, op), end), extra')
  {
    var rest := NestedLater(cs, cl, small, large, extra, op.now, end);
    SameInterval(cs, cl, small, end, op.seen);
    SameInterval(cs, cl, Step(cs, small, op), end, op.seen);
    ValidAdd(cs, small, op, end);
    ValidAdd(cl, large, op, end);
    TakenIsExtra(cs, cl, small, large, extra, rest, op, end);
    var takenS, takenL := Taken(cs, small, op), Taken(cl, large, op);
    extra' := NestedTaken(Valid(cl, large, end), rest, Entry(op.key, op.value, op.now), Added(cl, op, end), takenS, takenL);
    if Victim(cs, small, op).Some? {
      ExtraFits(cs, cl, small, large, extra, rest, op, end);
      SubsetSize(extra', rest + takenS - takenL - {op.key});
    } else {
      SubsetSize(extra', rest);
    }
  }

  lemma TakenIsExtra<K, V>(cs: Config, cl: Config, small: Entries<K, V>, large: Entries<K, V>, extra: set<K>, rest: set<K>, op: Op<K, V>, end: int)
    requires cs.interval == cl.interval && cs.capacity <= cl.capacity && Bounded(cs, small) && Bounded(cl, large)
    requires InTime(op, end) && Sees(cl, large, op)
    requires Nested(cs, cl, Valid(cl, small, Begin(op, end)), Valid(cl, large, Begin(op, end)), extra)
    requires rest == extra - Dead(cl, Valid(cl, large, Begin(op, end)), end)
    ensures Taken(cl, large, op) * KeySet(Valid(cl, large, end)) <= rest + Taken(cs, small, op)
  {
    if Victim(cl, large, op).Some? {
      VictimsAgree(cs, cl, small, large, extra, op, end);
      ValidLater(cl, large, op.now, end);
      WithoutMembers(Valid(cl, large, op.now), Dead(cl, Valid(cl, large, op.now), end));
    }
  }

  ghost function NoExpiry(c: Config): Config {
    RawConfig(c.capacity, 0)
  }

  /** Every operation but an Add does to the valid entries what it does without expiry. */
  lemma ValidStep<K, V>(c: Config, s: Entries<K, V>, op: Op<K, V>, end: int)
    requires Distinct(s) && !op.Add?
    ensures var now := Begin(op, end); Valid(c, Step(c, s, op), now) == Step(NoExpiry(c), Valid(c, s, now), op)
  {
    var now := Begin(op, end);
    match op
    case Clear =>
    case Remove(k) => ValidWithout(c, s, {k}, now);
    case Get(k, _) => ValidGet(c, s, k, now);
  }

  lemma ValidGet<K, V>(c: Config, s: Entries<K, V>, k: K, now: int)
    requires Distinct(s)
    ensures Valid(c, Step(c, s, Get(k, now)), now) == Step(NoExpiry(c), Valid(c, s, now), Get(k, now))
  {
    var v := Valid(c, s, now);
    FindMember(s, k);
    FindMember(v, k);
    ValidEntries(c, s, now);
    ValidWithout(c, s, {k}, now);
    WithoutMembers(s, {k});
    if Find(s, k).Some? {
      var e := Find(s, k).value;
      if IsExpired(c, e.time, now) {
        forall f | f in v ensures f.key != k {
          if f.key == k { FindUnique(s, f); }
        }
        WithoutAbsent(v, {k});
      } else {
        FindUnique(v, e);
        ValidPush(c, e, Without(s, {k}), now);
      }
    }
  }

  /** Every sweep of the run looks at every key that either cache stores then. */
  ghost predicate SeesAll<K, V>(cs: Config, cl: Config, ops: seq<Op<K, V>>) {
    if ops == [] then true
    else
      var pre, op := ops[..|ops| - 1], ops[|ops| - 1];
      SeesAll(cs, cl, pre) && Sees(cl, Run(cs, pre), op) && Sees(cl, Run(cl, pre), op)
  }

  lemma {:induction false} NestedValidRun<K, V>(cs: Config, cl: Config, ops: seq<Op<K, V>>, end: int) returns (extra: set<K>)
    requires cs.interval == cl.interval && cs.capacity <= cl.capacity && Timed(ops, end) && SeesAll(cs, cl, ops)
    ensures Nested(cs, cl, Valid(cl, Run(cs, ops), end), Valid(cl, Run(cl, ops), end), extra)
  {
    if ops == [] {
      extra := {};
    } else {
      var pre, op := ops[..|ops| - 1], ops[|ops| - 1];
      extra := NestedValidRun(cs, cl, pre, Begin(op, end));
      RunBounded(cs, [], pre);
      RunBounded(cl, [], pre);
      extra := NestedValidStep(cs, cl, Run(cs, pre), Run(cl, pre), extra, op, end);
    }
  }

  lemma NestedValidStep<K, V>(cs: Config, cl: Config, small: Entries<K, V>, large: Entries<K, V>, extra: set<K>, op: Op<K, V>, end: int)
    returns (extra': set<K>)
    requires cs.interval == cl.interval && cs.capacity <= cl.capacity && Bounded(cs, small) && Bounded(cl, large)
    requires InTime(op, end) && Sees(cl, small, op) && Sees(cl, large, op)
    requires Nested(cs, cl, Valid(cl, small, Begin(op, end)), Valid(cl, large, Begin(op, end)), extra)
    ensures Nested(cs, cl, Valid(cl, Step(cs, small, op), end), Valid(cl, Step(cl, large, op), end), extra')
  {
    if op.Add? {
      extra' := NestedAdd(cs, cl, small, large, extra, op, end);
    } else {
      var now := Begin(op, end);
      SameInterval(cs, cl, small, now, map[]);
      SameInterval(cs, cl, Step(cs, small, op), now, map[]);
      ValidStep(cs, small, op, end);
      ValidStep(cl, large, op, end);
      ValidEntries(cl, small, now);
      ValidEntries(cl, large, now);
      var zs, zl := NoExpiry(cs), NoExpiry(cl);
      assert Nested(zs, zl, Valid(cl, small, now), Valid(cl, large, now), extra);
      extra' := NestedStep(zs, zl, Valid(cl, small, now), Valid(cl, large, now), extra, op);
      StepBounded(cs, small, op);
      StepBounded(cl, large, op);
      extra' := NestedLater(cs, cl, Step(cs, small, op), Step(cl, large, op), extra', now, end);
    }
  }

  /**
    LRU inclusion with expiry: after the same operations with the same readings of
    one nondecreasing clock, on two caches with one interval and capacities n <= m,
    every answer of the small cache is the answer of the large one, at any later time.
   */
  lemma LruInclusionWithExpiry<K, V>(cs: Config, cl: Config, ops: seq<Op<K, V>>, k: K, now: int)
    requires cs.interval == cl.interval && cs.capacity <= cl.capacity && Timed(ops, now) && SeesAll(cs, cl, ops)
    ensures Contained(cl, Run(cs, ops), Run(cl, ops), now)
    ensures Answer(cs, Run(cs, ops), k, now).Some? ==>
              Answer(cl, Run(cl, ops), k, now) == Answer(cs, Run(cs, ops), k, now)
  {
    var small, large := Run(cs, ops), Run(cl, ops);
    var extra := NestedValidRun(cs, cl, ops, now);
    RunBounded(cs, [], ops);
    RunBounded(cl, [], ops);
    ValidEntries(cl, small, now);
    ValidEntries(cl, large, now);
    WithoutMembers(Valid(cl, large, now), extra);
    ContainedAnswers(cs, cl, small, large, k, now);
  }

  /** With common readings the large cache never evicts a valid entry that the small one keeps. */
  lemma {:induction false} CommonReadingsMatch<K, V>(cs: Config, cl: Config, ops: seq<Op<K, V>>, end: int)
    requires cs.interval == cl.interval && cs.capacity <= cl.capacity && Timed(ops, end) && SeesAll(cs, cl, ops)
    ensures EvictionsMatched(cs, cl, ops, ops, end)
  {
    ContainedAllAlong(cs, cl, ops, end);
    InclusionExactly(cs, cl, ops, ops, end);
  }

  lemma {:induction false} ContainedAllAlong<K, V>(cs: Config, cl: Config, ops: seq<Op<K, V>>, end: int)
    requires cs.interval == cl.interval && cs.capacity <= cl.capacity && Timed(ops, end) && SeesAll(cs, cl, ops)
    ensures ContainedThroughout(cs, cl, ops, ops, end)
  {
    var extra := NestedValidRun(cs, cl, ops, end);
    RunBounded(cs, [], ops);
    RunBounded(cl, [], ops);
    ValidEntries(cl, Run(cs, ops), end);
    ValidEntries(cl, Run(cl, ops), end);
    WithoutMembers(Valid(cl, Run(cl, ops), end), extra);
    if ops != [] {
      ContainedAllAlong(cs, cl, ops[..|ops| - 1], Begin(ops[|ops| - 1], end));
    }
  }

  // ---------- Readings of their own can break inclusion ----------

  lemma Extend<K, V>(c: Config, ops: seq<Op<K, V>>, n: nat, s: Entries<K, V>)
    requires n < |ops| && Run(c, ops[..n]) == s
    ensures Run(c, ops[..n + 1]) == Step(c, s, ops[n])
    ensures n + 1 == |ops| ==> ops[..n + 1] == ops
  {
    assert ops[..n + 1][..n] == ops[..n];
  }

  lemma ListOfTwo<K, V>(a: Entry<K, V>, b: Entry<K, V>, k: K)
    ensures Without([a, b], {k}) == (if a.key == k then [] else [a]) + (if b.key == k then [] else [b])
    ensures Find([a, b], k) == if a.key == k then Some(a) else if b.key == k then Some(b) else None
    ensures KeySet([a, b]) == {a.key, b.key}
  {
    assert [a, b][1..] == [b] && [b][1..] == [];
    assert Without([b], {k}) == if b.key == k then [] else [b];
    assert Find([b], k) == if b.key == k then Some(b) else None;
    assert a in [a, b] && b in [a, b];
  }

  /** Two Adds and a hit of the older key leave the older entry in front. */
  lemma OlderInFront(c: Config, ops: seq<Op<int, int>>)
    requires c == RawConfig(2, 10) && |ops| >= 3
    requires ops[0] == Add(1, 0, 0, map[]) && ops[1] == Add(2, 0, 1, map[]) && ops[2] == Get(1, 2)
    ensures Run(c, ops[..3]) == [Entry(1, 0, 0), Entry(2, 0, 1)]
  {
    var e1, e2 := Entry(1, 0, 0), Entry(2, 0, 1);
    Extend(c, ops, 0, []);
    assert Step(c, [], ops[0]) == [e1];
    Extend(c, ops, 1, [e1]);
    assert 2 !in KeySet([e1]) && Step(c, [e1], ops[1]) == [e2, e1];
    Extend(c, ops, 2, [e2, e1]);
    ListOfTwo(e2, e1, 1);
  }

  /**
    Two caches of the same capacity and interval on the same operations: one sweep
    reads the clock a tick later, finds the entry in front expired and keeps the
    last one; the other finds nothing expired and evicts it.
   */
  lemma OwnReadingsBreakInclusion()
    ensures var c := RawConfig(2, 10);
            var pre := [Add(1, 0, 0, map[]), Add(2, 0, 1, map[]), Get(1, 2)];
            var opsS, opsL := pre + [Add(3, 0, 10, map[1 := 11, 2 := 11])], pre + [Add(3, 0, 10, map[1 := 10, 2 := 10])];
            && Twins(opsS, opsL) && Timed(opsS, 11) && Timed(opsL, 11)
            && Answer(c, Run(c, opsS), 2, 11) == Some(0) && Answer(c, Run(c, opsL), 2, 11) == None
  {
    var c: Config := RawConfig(2, 10);
    var pre := [Add(1, 0, 0, map[]), Add(2, 0, 1, map[]), Get(1, 2)];
    var opsS, opsL := pre + [Add(3, 0, 10, map[1 := 11, 2 := 11])], pre + [Add(3, 0, 10, map[1 := 10, 2 := 10])];
    LateSweep(c, opsS);
    EarlySweep(c, opsL);
    PrefixTimed(opsS);
    PrefixTimed(opsL);
  }

  lemma LateSweep(c: Config, ops: seq<Op<int, int>>)
    requires c == RawConfig(2, 10) && |ops| == 4 && ops[3] == Add(3, 0, 10, map[1 := 11, 2 := 11])
    requires ops[0] == Add(1, 0, 0, map[]) && ops[1] == Add(2, 0, 1, map[]) && ops[2] == Get(1, 2)
    ensures Answer(c, Run(c, ops), 2, 11) == Some(0)
  {
    var e1, e2, e3 := Entry(1, 0, 0), Entry(2, 0, 1), Entry(3, 0, 10);
    var s := [e1, e2];
    OlderInFront(c, ops);
    Extend(c, ops, 3, s);
    ListOfTwo(e1, e2, 1);
    assert Expired(c, s, ops[3].seen) == {1} by { assert e1 in s; }
    assert Run(c, ops) == [e3, e2];
    ListOfTwo(e3, e2, 2);
  }

  lemma EarlySweep(c: Config, ops: seq<Op<int, int>>)
    requires c == RawConfig(2, 10) && |ops| == 4 && ops[3] == Add(3, 0, 10, map[1 := 10, 2 := 10])
    requires ops[0] == Add(1, 0, 0, map[]) && ops[1] == Add(2, 0, 1, map[]) && ops[2] == Get(1, 2)
    ensures Answer(c, Run(c, ops), 2, 11) == None
  {
    var e1, e2, e3 := Entry(1, 0, 0), Entry(2, 0, 1), Entry(3, 0, 10);
    var s := [e1, e2];
    OlderInFront(c, ops);
    Extend(c, ops, 3, s);
    ListOfTwo(e1, e2, 1);
    assert Expired(c, s, ops[3].seen) == {};
    assert Run(c, ops) == [e3, e1];
    ListOfTwo(e3, e1, 2);
  }

  lemma PrefixTimed(ops: seq<Op<int, int>>)
    requires |ops| == 4 && ops[0] == Add(1, 0, 0, map[]) && ops[1] == Add(2, 0, 1, map[]) && ops[2] == Get(1, 2)
    requires ops[3].Add? && ops[3].now == 10 && InTime(ops[3], 11)
    ensures Timed(ops, 11)
  {
    assert ops[..3][..2] == ops[..2] && ops[..2][..1] == ops[..1] && ops[..1][..0] == [];
    assert Timed(ops[..1], 1);
    assert Timed(ops[..2], 2);
    assert Timed(ops[..3], 10);
  }
}
