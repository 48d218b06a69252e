/**
  ExpireLruCache: two maps and a key list, updated in place, that together stand
  for one recency-ordered list of timed entries.  Every method is proved to do to
  that list what RecencyList.Step says.
 */
module ExpireLruCache {
  import opened Options
  import opened RecencyList
  import Clock

  const DEFAULT_EXPIRE_TIME := 1000

  /** std::list::remove: the keys other than `k`, in order. */
  function RemoveKey<K(==)>(keys: seq<K>, k: K): seq<K> {
    if keys == [] then []
    else (if keys[0] == k then [] else [keys[0]]) + RemoveKey(keys[1..], k)
  }

  /** std::find: the position of the first `k`. */
  function IndexOf<K(==)>(keys: seq<K>, k: K): (i: nat)
    requires k in keys
    ensures i < |keys| && keys[i] == k
    ensures forall j :: 0 <= j < i ==> keys[j] != k
  {
    if keys[0] == k then 0 else 1 + IndexOf(keys[1..], k)
  }

  // ---------- The three containers as images of the entry list ----------

  ghost function KeysOf<K, V>(s: Entries<K, V>): seq<K> {
    if s == [] then [] else [s[0].key] + KeysOf(s[1..])
  }

  ghost function DataOf<K, V>(s: Entries<K, V>): map<K, V> {
    if s == [] then map[] else DataOf(s[1..])[s[0].key := s[0].value]
  }

  ghost function TimesOf<K, V>(s: Entries<K, V>): map<K, int> {
    if s == [] then map[] else TimesOf(s[1..])[s[0].key := s[0].time]
  }

  lemma {:induction false} KeysAt<K, V>(s: Entries<K, V>)
    ensures |KeysOf(s)| == |s|
    ensures forall i :: 0 <= i < |s| ==> KeysOf(s)[i] == s[i].key
  {
    if s != [] { KeysAt(s[1..]); }
  }

  lemma {:induction false} MapsAt<K, V>(s: Entries<K, V>)
    ensures DataOf(s).Keys == KeySet(s) && TimesOf(s).Keys == KeySet(s)
    ensures forall k :: k in KeySet(s) ==>
              Find(s, k).Some? && DataOf(s)[k] == Find(s, k).value.value && TimesOf(s)[k] == Find(s, k).value.time
  {
    if s != [] {
      MapsAt(s[1..]);
      assert s == [s[0]] + s[1..];
      assert KeySet(s) == {s[0].key} + KeySet(s[1..]);
    }
  }

  lemma {:induction false} KeysWithout<K, V>(s: Entries<K, V>, k: K)
    ensures KeysOf(Without(s, {k})) == RemoveKey(KeysOf(s), k)
  {
    if s != [] {
      KeysWithout(s[1..], k);
      assert KeysOf(s)[1..] == KeysOf(s[1..]);
      if s[0].key != k {
        assert Without(s, {k})[1..] == Without(s[1..], {k});
      } else {
        assert Without(s, {k}) == Without(s[1..], {k});
      }
    }
  }

  lemma {:induction false} DataWithout<K, V>(s: Entries<K, V>, k: K)
    ensures DataOf(Without(s, {k})) == DataOf(s) - {k}
  {
    if s != [] {
      DataWithout(s[1..], k);
      WithoutFirst(s, k);
    }
  }

  lemma {:induction false} TimesWithout<K, V>(s: Entries<K, V>, k: K)
    ensures TimesOf(Without(s, {k})) == TimesOf(s) - {k}
  {
    if s != [] {
      TimesWithout(s[1..], k);
      WithoutFirst(s, k);
    }
  }

  lemma WithoutFirst<K, V>(s: Entries<K, V>, k: K)
    requires s != []
    ensures s[0].key == k ==> Without(s, {k}) == Without(s[1..], {k})
    ensures s[0].key != k ==>
      Without(s, {k}) != [] && Without(s, {k})[0] == s[0] && Without(s, {k})[1..] == Without(s[1..], {k})
  {
  }

  lemma MapsWithout<K, V>(s: Entries<K, V>, k: K)
    ensures DataOf(Without(s, {k})) == DataOf(s) - {k}
    ensures TimesOf(Without(s, {k})) == TimesOf(s) - {k}
  {
    DataWithout(s, k);
    TimesWithout(s, k);
  }

  lemma SpliceToFront<K, V>(s: Entries<K, V>, i: nat)
    requires Distinct(s) && i < |s|
    ensures |KeysOf(s)| == |s|
    ensures RemoveKey(KeysOf(s), s[i].key) == KeysOf(s)[..i] + KeysOf(s)[i + 1..]
  {
    KeysAt(s);
    SpliceOut(KeysOf(s), i);
  }

  lemma {:induction false} SpliceOut<K>(keys: seq<K>, i: nat)
    requires i < |keys| && forall j :: 0 <= j < |keys| && j != i ==> keys[j] != keys[i]
    ensures RemoveKey(keys, keys[i]) == keys[..i] + keys[i + 1..]
  {
    if i == 0 {
      NotThere(keys[1..], keys[0]);
    } else {
      SpliceOut(keys[1..], i - 1);
      assert keys[..i] == [keys[0]] + keys[1..][..i - 1];
    }
  }

  lemma {:induction false} NotThere<K>(keys: seq<K>, k: K)
    requires k !in keys
    ensures RemoveKey(keys, k) == keys
  {
    if keys != [] { NotThere(keys[1..], k); }
  }

  /** Popping the last key and erasing it from both maps drops the last entry. */
  lemma ImagesOfDropLast<K, V>(s: Entries<K, V>)
    requires Distinct(s) && s != []
    ensures KeysOf(s) != [] && KeysOf(s)[|KeysOf(s)| - 1] == s[|s| - 1].key
    ensures KeysOf(s[..|s| - 1]) == KeysOf(s)[..|KeysOf(s)| - 1]
    ensures DataOf(s[..|s| - 1]) == DataOf(s) - {s[|s| - 1].key}
    ensures TimesOf(s[..|s| - 1]) == TimesOf(s) - {s[|s| - 1].key}
  {
    KeysAt(s);
    KeysAt(s[..|s| - 1]);
    DropLast(s);
    MapsWithout(s, s[|s| - 1].key);
  }

  /** Putting an entry in front of entries without its key. */
  lemma ImagesOfFront<K, V>(s: Entries<K, V>, n: Entry<K, V>)
    ensures KeysOf([n] + s) == [n.key] + KeysOf(s)
    ensures DataOf([n] + s) == DataOf(s)[n.key := n.value]
    ensures TimesOf([n] + s) == TimesOf(s)[n.key := n.time]
  {
    assert ([n] + s)[1..] == s;
  }

  // ---------- The sweep ----------

  /** The keys of a timestamp map that a sweep which saw `seen` so far has found expired. */
  ghost function Found<K>(c: Config, t: map<K, int>, seen: map<K, int>): set<K> {
    set k | k in seen && k in t && IsExpired(c, t[k], seen[k])
  }

  ghost predicate Within<K>(seen: map<K, int>, begin: int, end: int) {
    begin <= end && forall k :: k in seen ==> begin <= seen[k] <= end
  }

  lemma WithinStep<K>(seen: map<K, int>, begin: int, before: int, k: K, t: int)
    requires Within(seen, begin, before) && before <= t
    ensures Within(seen[k := t], begin, t)
  {
  }

  /** How far a sweep over entries `s` has come: what it has seen and what is left. */
  ghost predicate Swept<K, V>(c: Config, s: Entries<K, V>, seen: map<K, int>, cleared: bool, left: Entries<K, V>) {
    && seen.Keys <= KeySet(s)
    && left == Without(s, Found(c, TimesOf(s), seen))
    && (cleared <==> Found(c, TimesOf(s), seen) != {})
  }

  lemma SweptStart<K, V>(c: Config, s: Entries<K, V>)
    ensures Swept(c, s, map[], false, s)
    ensures KeySet(s) == TimesOf(s).Keys
  {
    assert Found(c, TimesOf(s), map[]) == {};
    WithoutAbsent(s, {});
    MapsAt(s);
  }

  /** A key not looked at yet is still stored, with its time. */
  lemma SweptPending<K, V>(c: Config, s: Entries<K, V>, seen: map<K, int>, cleared: bool, left: Entries<K, V>, k: K)
    requires Swept(c, s, seen, cleared, left) && Distinct(s) && k in KeySet(s) && k !in seen
    ensures k in TimesOf(s) && k in TimesOf(left) && TimesOf(left)[k] == TimesOf(s)[k]
  {
    var found := Found(c, TimesOf(s), seen);
    MapsAt(s);
    MapsAt(left);
    WithoutMembers(s, found);
    WithoutDistinct(s, found);
    FindMember(left, k);
    FindUnique(s, Find(left, k).value);
  }

  /** Looking at one more key removes it exactly when it is expired. */
  lemma SweptStep<K, V>(c: Config, s: Entries<K, V>, seen: map<K, int>, cleared: bool, left: Entries<K, V>, k: K, now: int)
    requires Swept(c, s, seen, cleared, left) && k in KeySet(s) && k in TimesOf(s) && k !in seen
    ensures KeySet(s) - seen[k := now].Keys == KeySet(s) - seen.Keys - {k}
    ensures var gone := IsExpired(c, TimesOf(s)[k], now);
            Swept(c, s, seen[k := now], cleared || gone, if gone then Without(left, {k}) else left)
  {
    var t := TimesOf(s);
    var was, found := Found(c, t, seen), Found(c, t, seen[k := now]);
    assert found == if IsExpired(c, t[k], now) then was + {k} else was;
    WithoutTwice(s, was, {k});
  }

  lemma FoundIsExpired<K, V>(c: Config, s: Entries<K, V>, seen: map<K, int>)
    requires Distinct(s)
    ensures Expired(c, s, seen) == Found(c, TimesOf(s), seen)
  {
    MapsAt(s);
    forall e | e in s ensures Find(s, e.key) == Some(e) {
      FindUnique(s, e);
    }
    forall k | k in Found(c, TimesOf(s), seen) ensures k in Expired(c, s, seen) {
      FindMember(s, k);
    }
    forall k | k in Expired(c, s, seen) ensures k in Found(c, TimesOf(s), seen) {
      var e :| e in s && e.key in seen && IsExpired(c, e.time, seen[e.key]) && e.key == k;
      assert k in KeySet(s);
    }
  }

  type Positive = n: nat | n >= 1 witness 1

  class ExpireLruCache<K(==, !new), V> {
    const size: Positive
    const expireTime: nat
    ghost var contents: Entries<K, V>  // the recency list the containers stand for
    var data: map<K, V>
    var timestamp: map<K, int>
    var keys: seq<K>

    ghost predicate Valid()
      reads this
    {
      && Bounded(Conf(), contents)
      && keys == KeysOf(contents)
      && forall k :: KeyAgrees(k)
    }

    /** Both maps say about key `k` what the list says. */
    ghost predicate KeyAgrees(k: K)
      reads this
    {
      && (if k in DataOf(contents) then k in data && data[k] == DataOf(contents)[k] else k !in data)
      && (if k in TimesOf(contents) then k in timestamp && timestamp[k] == TimesOf(contents)[k] else k !in timestamp)
    }

    /** Valid in terms of whole maps. */
    lemma Images()
      requires Valid()
      ensures data == DataOf(contents) && timestamp == TimesOf(contents)
    {
      forall k ensures k in data <==> k in DataOf(contents) { assert KeyAgrees(k); }
      forall k ensures k in timestamp <==> k in TimesOf(contents) { assert KeyAgrees(k); }
      forall k | k in data ensures data[k] == DataOf(contents)[k] { assert KeyAgrees(k); }
      forall k | k in timestamp ensures timestamp[k] == TimesOf(contents)[k] { assert KeyAgrees(k); }
    }

    lemma FromImages()
      requires Bounded(Conf(), contents) && keys == KeysOf(contents)
      requires data == DataOf(contents) && timestamp == TimesOf(contents)
      ensures Valid()
    {
    }

    ghost function Conf(): Config {
      RawConfig(size, expireTime)
    }

    /** The three containers hold the same keys, each key once in the list, within the capacity. */
    lemma ContainersAgree()
      requires Valid()
      ensures data.Keys == timestamp.Keys == KeySet(contents)
      ensures forall k :: k in keys <==> k in data
      ensures forall i, j :: 0 <= i < j < |keys| ==> keys[i] != keys[j]
      ensures |data| == |keys| == |contents| <= size
    {
      Images();
      MapsAt(contents);
      KeysAt(contents);
      KeySetSize(contents);
      forall k | k in data ensures k in keys {
        FindMember(contents, k);
        var i :| 0 <= i < |contents| && contents[i] == Find(contents, k).value;
        assert keys[i] == k;
      }
      forall k | k in keys ensures k in data {
        var i :| 0 <= i < |keys| && keys[i] == k;
        assert contents[i] in contents;
      }
      assert |data| == |data.Keys|;
    }

    constructor (cacheSize: nat, expireTimeSec: int)
      ensures Valid() && contents == []
      ensures size == (if cacheSize > 0 then cacheSize else 1)
      ensures expireTime == (if expireTimeSec < 0 then DEFAULT_EXPIRE_TIME else expireTimeSec)
    {
      size := if cacheSize > 0 then cacheSize else 1;
      expireTime := if expireTimeSec < 0 then DEFAULT_EXPIRE_TIME else expireTimeSec;
      data := map[];
      timestamp := map[];
      keys := [];
      contents := [];
    }

    method Add(key: K, value: V, clock: Clock.Clock) returns (ghost now: int, ghost seen: map<K, int>)
      requires Valid()
      modifies this, clock
      ensures Valid()
      ensures contents == Step(Conf(), old(contents), RecencyList.Add(key, value, now, seen))
      ensures old(clock.now) <= now <= clock.now
      ensures forall k :: k in seen ==> now <= seen[k] <= clock.now
      ensures var s := old(contents);
              key !in KeySet(s) && |s| >= size && expireTime > 0 ==> seen.Keys == KeySet(s)
    {
      var ts := clock.GetTickCount();
      now, seen := ts, map[];
      ContainersAgree();
      if key in data {
        Replace(key, value, ts);
        return;
      }
      if |data| >= size {
        seen := Reclaim(clock);
      }
      Push(key, value, ts);
    }

    /** Room in a full cache: sweep if entries expire, and evict the last entry if the sweep cleared nothing. */
    method Reclaim(clock: Clock.Clock) returns (ghost seen: map<K, int>)
      requires Valid() && |contents| >= size
      modifies this, clock
      ensures Valid() && |contents| < size
      ensures KeySet(contents) <= KeySet(old(contents))
      ensures contents == MakeRoom(Conf(), old(contents), seen)
      ensures old(clock.now) <= clock.now
      ensures forall k :: k in seen ==> old(clock.now) <= seen[k] <= clock.now
      ensures expireTime > 0 ==> seen.Keys == KeySet(old(contents))
    {
      seen := map[];
      ghost var s := contents;
      var cleared := false;
      if expireTime > 0 {
        cleared, seen := ClearExpired(clock);
      }
      if !cleared {
        assert Expired(Conf(), s, seen) == {};
        WithoutAbsent(s, {});
        EvictLast();
      }
      MakeRoomBounded(Conf(), s, seen);
    }

    /** An Add of a stored key: new value and time, moved to the front. */
    method Replace(key: K, value: V, ts: int)
      requires Valid() && key in KeySet(contents)
      modifies this
      ensures Valid() && contents == Front(old(contents), Entry(key, value, ts))
    {
      Images();
      data := data - {key};
      timestamp := timestamp - {key};
      data := data[key := value];
      timestamp := timestamp[key := ts];
      MoveToFront(key, Entry(key, value, ts));
      MapsWithout(old(contents), key);
      ImagesOfFront(Without(old(contents), {key}), Entry(key, value, ts));
    }

    /** Splice the key to the front of the list. */
    method MoveToFront(key: K, ghost n: Entry<K, V>)
      requires Bounded(Conf(), contents) && keys == KeysOf(contents)
      requires key in KeySet(contents) && n.key == key
      modifies this`keys, this`contents
      ensures contents == Front(old(contents), n)
      ensures Bounded(Conf(), contents) && keys == KeysOf(contents)
    {
      ghost var s := contents;
      KeysAt(s);
      ghost var e :| e in s && e.key == key;
      ghost var j :| 0 <= j < |s| && s[j] == e;
      assert keys[j] == key;
      var i := IndexOf(keys, key);
      keys := [keys[i]] + (keys[..i] + keys[i + 1..]);
      contents := Front(s, n);
      SpliceToFront(s, i);
      KeysWithout(s, key);
      ImagesOfFront(Without(s, {key}), n);
      FrontBounded(Conf(), s, n);
    }

    /** Drop the least recently used entry; the list is never empty here. */
    method EvictLast()
      requires Valid() && contents != []
      modifies this
      ensures Valid() && contents == old(contents)[..|old(contents)| - 1]
    {
      Images();
      ImagesOfDropLast(contents);
      var lruKey := keys[|keys| - 1];
      data := data - {lruKey};
      timestamp := timestamp - {lruKey};
      keys := keys[..|keys| - 1];
      contents := contents[..|contents| - 1];
    }

    method Push(key: K, value: V, ts: int)
      requires Valid() && key !in KeySet(contents) && |contents| < size
      modifies this
      ensures Valid() && contents == [Entry(key, value, ts)] + old(contents)
    {
      Images();
      data := data[key := value];
      timestamp := timestamp[key := ts];
      keys := [key] + keys;
      ImagesOfFront(contents, Entry(key, value, ts));
      PushDistinct(Entry(key, value, ts), contents);
      contents := [Entry(key, value, ts)] + contents;
    }

    /**
      The sweep: looks at every stored key once, in some order, reading the clock
      for each, and erases the expired ones as it goes.
     */
    method ClearExpired(clock: Clock.Clock) returns (cleared: bool, ghost seen: map<K, int>)
      requires Valid()
      modifies this, clock
      ensures Valid()
      ensures seen.Keys == KeySet(old(contents))
      ensures forall k :: k in seen ==> old(clock.now) <= seen[k] <= clock.now
      ensures old(clock.now) <= clock.now
      ensures contents == Without(old(contents), Expired(Conf(), old(contents), seen))
      ensures cleared <==> Expired(Conf(), old(contents), seen) != {}
      // the survivors are those at most `expireTime` old when visited
      ensures forall e :: e in old(contents) ==> (e in contents <==> expireTime == 0 || seen[e.key] - e.time <= expireTime)
    {
      cleared, seen := false, map[];
      ghost var s, begin := contents, clock.now;
      SweptStart(Conf(), s);
      var pending := PendingKeys();
      while pending != {}
        invariant Valid()
        invariant Within(seen, begin, clock.now)
        invariant Swept(Conf(), s, seen, cleared, contents)
        invariant pending == KeySet(s) - seen.Keys
      {
        var k :| k in pending;
        ghost var left, before := contents, clock.now;
        SweptPending(Conf(), s, seen, cleared, left, k);
        var t, gone := Visit(k, clock);
        WithinStep(seen, begin, before, k, t);
        SweptStep(Conf(), s, seen, cleared, left, k, t);
        seen := seen[k := t];
        cleared := cleared || gone;
        pending := pending - {k};
      }
      assert seen.Keys == KeySet(s) by {
        assert forall k :: k in KeySet(s) ==> k in pending || k in seen.Keys;
      }
      FoundIsExpired(Conf(), s, seen);
      SweepExact(Conf(), s, seen, begin, clock.now);
    }

    method PendingKeys() returns (ks: set<K>)
      requires Valid()
      ensures ks == KeySet(contents)
    {
      Images();
      MapsAt(contents);
      ks := timestamp.Keys;
    }

    /** One look of the sweep at a stored key: read the clock, erase the key if it is expired. */
    method Visit(k: K, clock: Clock.Clock) returns (t: int, gone: bool)
      requires Valid() && k in TimesOf(contents)
      modifies this, clock
      ensures Valid()
      ensures old(clock.now) <= t == clock.now
      ensures gone <==> IsExpired(Conf(), TimesOf(old(contents))[k], t)
      ensures gone <==> expireTime > 0 && t - TimesOf(old(contents))[k] > expireTime
      ensures contents == if gone then Without(old(contents), {k}) else old(contents)
    {
      t := clock.GetTickCount();
      assert KeyAgrees(k);
      gone := expireTime > 0 && t - timestamp[k] > expireTime;
      if gone {
        Erase(k);
      }
    }

    /** Erase a key from the list and both maps. */
    method Erase(key: K)
      requires Valid()
      modifies this
      ensures Valid() && contents == Without(old(contents), {key})
    {
      Images();
      KeysWithout(contents, key);
      MapsWithout(contents, key);
      WithoutMembers(contents, {key});
      WithoutDistinct(contents, {key});
      keys := RemoveKey(keys, key);
      data := data - {key};
      timestamp := timestamp - {key};
      contents := Without(contents, {key});
      FromImages();
    }

    method Get(key: K, clock: Clock.Clock) returns (r: Option<V>, ghost now: int)
      requires Valid()
      modifies this, clock
      ensures Valid()
      ensures r == Answer(Conf(), old(contents), key, now)
      ensures contents == Step(Conf(), old(contents), RecencyList.Get(key, now))
      ensures old(clock.now) <= now <= clock.now
      // answered exactly when stored and at most `expireTime` old
      ensures r.Some? <==> key in old(timestamp) && (expireTime == 0 || now - old(timestamp)[key] <= expireTime)
      ensures r.Some? ==> key in old(data) && r.value == old(data)[key]
    {
      now := clock.now;
      Images();
      MapsAt(contents);
      FindMember(contents, key);
      if key !in data {
        return None, now;
      }
      ghost var e := Find(contents, key).value;
      if expireTime > 0 {
        var t := clock.GetTickCount();
        now := t;
        if t - timestamp[key] > expireTime {
          Erase(key);
          return None, now;
        }
      }
      MoveToFront(key, e);
      FrontImages(old(contents), e);
      r := Some(data[key]);
    }

    method Remove(key: K)
      requires Valid()
      modifies this
      ensures Valid()
      ensures contents == Step(Conf(), old(contents), RecencyList.Remove(key))
    {
      Erase(key);
    }

    method Clear()
      requires Valid()
      modifies this
      ensures Valid() && contents == []
    {
      data := map[];
      timestamp := map[];
      keys := [];
      contents := [];
    }
  }

  lemma FrontBounded<K, V>(c: Config, s: Entries<K, V>, n: Entry<K, V>)
    requires Bounded(c, s) && n.key in KeySet(s)
    ensures Bounded(c, Front(s, n))
  {
    WithoutMembers(s, {n.key});
    WithoutDistinct(s, {n.key});
    WithoutLength(s, {n.key});
    PushDistinct(n, Without(s, {n.key}));
  }

  /** Moving a stored entry to the front leaves both maps as they are. */
  lemma FrontImages<K, V>(s: Entries<K, V>, e: Entry<K, V>)
    requires Find(s, e.key) == Some(e) && e.key in KeySet(s)
    ensures DataOf(Front(s, e)) == DataOf(s) && TimesOf(Front(s, e)) == TimesOf(s)
  {
    MapsAt(s);
    MapsWithout(s, e.key);
    ImagesOfFront(Without(s, {e.key}), e);
  }
}
