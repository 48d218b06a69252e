/**
  ApiCacheManager: one expiring LRU cache per cacheable API (descriptor, code),
  filled from sent requests and consulted before sending.  The module first says
  what each locked call does to the cache of any one API and proves what a hit may
  return over every interleaving of calls; the class then refines those calls on
  heap-allocated cache objects.
 */
module ApiCacheManager {
  import opened Options
  import opened RecencyList
  import LruTheorems
  import Lru = ExpireLruCache
  import Clock

  newtype Byte = x: int | 0 <= x < 256
  type Bytes = seq<Byte>
  type Code = x: int | 0 <= x < 0x1_0000_0000
  datatype Api = Api(descriptor: string, code: Code)

  const DEFAULT_CACHE_SIZE := 8

  /** The conversion of a signed 32-bit code to the unsigned code stored in the map key. */
  function ToCode(code: int): (r: Code)
    ensures (code - r) % 0x1_0000_0000 == 0
  {
    code % 0x1_0000_0000
  }

  datatype CacheState = CacheState(conf: Config, entries: Entries<Bytes, Bytes>)

  /** The cache of one API, if the API is registered. */
  type Slot = Option<CacheState>

  function ConfigFor(expireTimeSec: int): Config {
    RawConfig(DEFAULT_CACHE_SIZE, if expireTimeSec < 0 then Lru.DEFAULT_EXPIRE_TIME else expireTimeSec)
  }

  /** The locked calls, with the clock values they observed and what the parcels held. */
  datatype Call =
    | AddApi(api: Api, expireTimeSec: int)
    | DelApi(api: Api)
    | ClearAll
    | ClearDescriptor(descriptor: string)
    | ClearApi(descriptor: string, code: int)
    | PreSend(api: Api, request: Bytes, now: int)
    | PostSend(api: Api, request: Bytes, reply: Bytes, objects: bool, now: int, seen: map<Bytes, int>)

  predicate Clears(call: Call, api: Api) {
    match call
    case ClearAll => true
    case ClearDescriptor(d) => d == api.descriptor
    case ClearApi(d, code) => Api(d, ToCode(code)) == api
    case _ => false
  }

  /** What a call does to the cache of API `api`. */
  ghost function Apply(slot: Slot, api: Api, call: Call): Slot {
    match call
    case AddApi(a, expire) => if a == api && slot.None? then Some(CacheState(ConfigFor(expire), [])) else slot
    case DelApi(a) => if a == api then None else slot
    case PreSend(a, request, now) => if a == api then Stepped(slot, Get(request, now)) else slot
    case PostSend(a, request, reply, objects, now, seen) =>
      if a == api && !objects then Stepped(slot, Add(request, reply, now, seen)) else slot
    case _ => if slot.Some? && Clears(call, api) then Some(CacheState(slot.value.conf, [])) else slot
  }

  ghost function Stepped(slot: Slot, op: Op<Bytes, Bytes>): Slot {
    if slot.None? then None
    else Some(CacheState(slot.value.conf, Step(slot.value.conf, slot.value.entries, op)))
  }

  ghost function RunCalls(calls: seq<Call>, api: Api): Slot {
    if calls == [] then None else Apply(RunCalls(calls[..|calls| - 1], api), api, calls[|calls| - 1])
  }

  /** The cached reply a PreSend finds. */
  ghost function Lookup(slot: Slot, request: Bytes, now: int): Option<Bytes> {
    if slot.None? then None else Answer(slot.value.conf, slot.value.entries, request, now)
  }

  // ---------- What a hit may return ----------

  ghost predicate SlotBounded(slot: Slot) {
    slot.Some? ==> Bounded(slot.value.conf, slot.value.entries)
  }

  lemma ApplyBounded(slot: Slot, api: Api, call: Call)
    requires SlotBounded(slot)
    ensures SlotBounded(Apply(slot, api, call))
  {
    if slot.Some? && call.PreSend? {
      StepBounded(slot.value.conf, slot.value.entries, Get(call.request, call.now));
    } else if slot.Some? && call.PostSend? {
      StepBounded(slot.value.conf, slot.value.entries, Add(call.request, call.reply, call.now, call.seen));
    }
  }

  lemma {:induction false} RunCallsBounded(calls: seq<Call>, api: Api)
    ensures SlotBounded(RunCalls(calls, api))
  {
    if calls != [] {
      RunCallsBounded(calls[..|calls| - 1], api);
      ApplyBounded(RunCalls(calls[..|calls| - 1], api), api, calls[|calls| - 1]);
    }
  }

  ghost predicate Stores(call: Call, api: Api, e: Entry<Bytes, Bytes>) {
    call.PostSend? && call.api == api && !call.objects && e == Entry(call.request, call.reply, call.now)
  }

  /** The call deletes the API, clears its cache by descriptor or by code, or stores another reply to the request. */
  ghost predicate Discards(call: Call, api: Api, request: Bytes) {
    match call
    case AddApi(_, _) => false
    case DelApi(a) => a == api
    case ClearAll => true
    case ClearDescriptor(d) => api.descriptor == d
    case ClearApi(d, code) => api.descriptor == d && (api.code - code) % 0x1_0000_0000 == 0
    case PreSend(_, _, _) => false
    case PostSend(a, q, _, objects, _, _) => a == api && q == request && !objects
  }

  /** One call: every entry afterwards was stored by this call or was there before and not discarded. */
  lemma ApplyOrigin(slot: Slot, api: Api, call: Call, e: Entry<Bytes, Bytes>)
    requires SlotBounded(slot)
    requires Apply(slot, api, call).Some? && e in Apply(slot, api, call).value.entries
    ensures Stores(call, api, e)
         || (slot.Some? && e in slot.value.entries && !Discards(call, api, e.key))
  {
    if slot.Some? && call.PreSend? && call.api == api {
      LruTheorems.StepOrigin(slot.value.conf, slot.value.entries, Get(call.request, call.now), e);
    } else if slot.Some? && call.PostSend? && call.api == api && !call.objects {
      LruTheorems.StepOrigin(slot.value.conf, slot.value.entries, Add(call.request, call.reply, call.now, call.seen), e);
    }
  }

  /** The call that stored an entry, with nothing discarding it since. */
  lemma {:induction false} StoredBy(calls: seq<Call>, api: Api, e: Entry<Bytes, Bytes>) returns (i: nat)
    requires RunCalls(calls, api).Some? && e in RunCalls(calls, api).value.entries
    ensures i < |calls| && Stores(calls[i], api, e)
    ensures forall j :: i < j < |calls| ==> !Discards(calls[j], api, e.key)
  {
    var pre, call := calls[..|calls| - 1], calls[|calls| - 1];
    RunCallsBounded(pre, api);
    ApplyOrigin(RunCalls(pre, api), api, call, e);
    if Stores(call, api, e) {
      i := |calls| - 1;
    } else {
      i := StoredBy(pre, api, e);
      forall j | i < j < |calls| ensures !Discards(calls[j], api, e.key) {
        if j < |pre| { assert calls[j] == pre[j]; }
      }
    }
  }

  /**
    Freshness of a hit over every interleaving of locked calls: its bytes are the
    reply that the latest PostSend of the same request to the same API stored, not
    deleted, cleared or replaced since, and at most the interval ago.
   */
  lemma HitReply(calls: seq<Call>, api: Api, request: Bytes, now: int) returns (i: nat)
    requires Lookup(RunCalls(calls, api), request, now).Some?
    ensures i < |calls| && calls[i].PostSend? && calls[i].api == api && calls[i].request == request && !calls[i].objects
    ensures Lookup(RunCalls(calls, api), request, now) == Some(calls[i].reply)
    ensures forall j :: i < j < |calls| ==> !Discards(calls[j], api, request)
    ensures var interval := RunCalls(calls, api).value.conf.interval;
            interval > 0 ==> now - calls[i].now <= interval
  {
    var c := RunCalls(calls, api).value;
    FindMember(c.entries, request);
    i := StoredBy(calls, api, Find(c.entries, request).value);
  }

  // ---------- When a hit must happen ----------

  /** The AddApi that registered an API: nothing has deleted it since, and it set the size and the interval. */
  lemma {:induction false} RegisteredBy(calls: seq<Call>, api: Api) returns (i: nat)
    requires RunCalls(calls, api).Some?
    ensures i < |calls| && calls[i].AddApi? && calls[i].api == api && RunCalls(calls[..i], api).None?
    ensures forall j :: i < j < |calls| ==> calls[j] != DelApi(api)
    ensures var conf, sec := RunCalls(calls, api).value.conf, calls[i].expireTimeSec;
            conf.capacity == 8 && conf.interval == if sec < 0 then 1000 else sec
  {
    var n := |calls| - 1;
    var pre := calls[..n];
    if RunCalls(pre, api).None? {
      i := n;
    } else {
      i := RegisteredBy(pre, api);
      assert pre[..i] == calls[..i];
      assert forall j :: 0 <= j < n ==> calls[j] == pre[j];
    }
  }

  /** An added API stays registered until it is deleted. */
  lemma {:induction false} StaysRegistered(calls: seq<Call>, api: Api, i: nat)
    requires i < |calls| && calls[i].AddApi? && calls[i].api == api
    requires forall j :: i < j < |calls| ==> calls[j] != DelApi(api)
    ensures RunCalls(calls, api).Some?
  {
    if i < |calls| - 1 {
      StaysRegistered(calls[..|calls| - 1], api, i);
    }
  }

  /** The request a call stores for the API or finds in its cache. */
  ghost function Touches(slot: Slot, api: Api, call: Call): set<Bytes> {
    if call.PostSend? && call.api == api && !call.objects then {call.request}
    else if call.PreSend? && call.api == api && Lookup(slot, call.request, call.now).Some? then {call.request}
    else {}
  }

  /** The requests other than `request` that calls after `t` stored for the API or found in its cache. */
  ghost function OtherRequests(calls: seq<Call>, api: Api, t: nat, request: Bytes): set<Bytes> {
    if |calls| <= t + 1 then {}
    else
      var pre := calls[..|calls| - 1];
      OtherRequests(pre, api, t, request) + (Touches(RunCalls(pre, api), api, calls[|calls| - 1]) - {request})
  }

  /** The call read the clock no later than `now`. */
  ghost predicate ReadBy(call: Call, now: int) {
    && (call.PreSend? ==> call.now <= now)
    && (call.PostSend? ==> forall k :: k in call.seen ==> call.seen[k] <= now)
  }

  /** One call that does not discard the entry keeps it, behind only what has been touched since. */
  lemma EntryKept(slot: Slot, a: Entries<Bytes, Bytes>, e: Entry<Bytes, Bytes>, b: Entries<Bytes, Bytes>,
                  others: set<Bytes>, api: Api, call: Call, now: int)
    returns (a': Entries<Bytes, Bytes>, b': Entries<Bytes, Bytes>)
    requires slot.Some? && slot.value.entries == a + [e] + b && SlotBounded(slot)
    requires KeySet(a) <= others && !IsExpired(slot.value.conf, e.time, now)
    requires !Discards(call, api, e.key) && ReadBy(call, now)
    requires |others + Touches(slot, api, call) - {e.key}| < slot.value.conf.capacity
    ensures Apply(slot, api, call) == Some(CacheState(slot.value.conf, a' + [e] + b'))
    ensures KeySet(a') <= others + Touches(slot, api, call)
  {
    var conf := slot.value.conf;
    if call.PreSend? && call.api == api {
      a', b' := LruTheorems.RetentionStep(conf, a, e, b, others, Get(call.request, call.now));
    } else if call.PostSend? && call.api == api && !call.objects {
      a', b' := LruTheorems.RetentionStep(conf, a, e, b, others, Add(call.request, call.reply, call.now, call.seen));
    } else {
      a', b' := a, b;
    }
  }

  ghost predicate Undisturbed(calls: seq<Call>, api: Api, t: nat, request: Bytes, now: int) {
    if |calls| <= t + 1 then true
    else
      var n := |calls| - 1;
      Undisturbed(calls[..n], api, t, request, now) && !Discards(calls[n], api, request) && ReadBy(calls[n], now)
  }

  lemma {:induction false} EveryCallUndisturbed(calls: seq<Call>, api: Api, t: nat, request: Bytes, now: int)
    requires forall j :: t < j < |calls| ==> !Discards(calls[j], api, request) && ReadBy(calls[j], now)
    ensures Undisturbed(calls, api, t, request, now)
  {
    if |calls| > t + 1 {
      EveryCallUndisturbed(calls[..|calls| - 1], api, t, request, now);
    }
  }

  /** The cache holds the entry, behind only entries with keys in `others`. */
  ghost predicate Holds(slot: Slot, conf: Config, e: Entry<Bytes, Bytes>, others: set<Bytes>) {
    exists a, b :: slot == Some(CacheState(conf, a + [e] + b)) && KeySet(a) <= others
  }

  lemma OneMoreCall(slot: Slot, conf: Config, e: Entry<Bytes, Bytes>, keys: set<Bytes>, api: Api, call: Call, now: int)
    requires Holds(slot, conf, e, keys) && SlotBounded(slot) && !IsExpired(conf, e.time, now)
    requires !Discards(call, api, e.key) && ReadBy(call, now)
    requires Touches(slot, api, call) <= keys && |keys - {e.key}| < conf.capacity
    ensures Holds(Apply(slot, api, call), conf, e, keys)
  {
    var a, b :| slot == Some(CacheState(conf, a + [e] + b)) && KeySet(a) <= keys;
    assert keys + Touches(slot, api, call) == keys;
    var a', b' := EntryKept(slot, a, e, b, keys, api, call, now);
  }

  lemma {:induction false} EntryKeptOverRun(calls: seq<Call>, api: Api, t: nat, conf: Config, e: Entry<Bytes, Bytes>, keys: set<Bytes>, now: int)
    requires t < |calls| && Holds(RunCalls(calls[..t + 1], api), conf, e, keys)
    requires !IsExpired(conf, e.time, now) && Undisturbed(calls, api, t, e.key, now)
    requires e.key in keys && |keys - {e.key}| < conf.capacity
    requires OtherRequests(calls, api, t, e.key) <= keys
    ensures Holds(RunCalls(calls, api), conf, e, keys)
  {
    var n := |calls| - 1;
    if t == n {
      assert calls[..t + 1] == calls;
    } else {
      var pre := calls[..n];
      assert pre[..t + 1] == calls[..t + 1];
      EntryKeptOverRun(pre, api, t, conf, e, keys, now);
      RunCallsBounded(pre, api);
      OneMoreCall(RunCalls(pre, api), conf, e, keys, api, calls[n], now);
    }
  }

  /**
    A stored reply is found: let call `i` store the reply to a request at a
    registered API, and let `t` be `i` or a later PreSend that found it.  While
    nothing discards it and fewer than eight other requests of that API are stored
    or found after `t`, a PreSend at most the interval after `i` finds that reply.
   */
  lemma StoredReplyIsFound(calls: seq<Call>, api: Api, i: nat, t: nat, now: int)
    requires i <= t < |calls| && RunCalls(calls[..i], api).Some?
    requires calls[i].PostSend? && calls[i].api == api && !calls[i].objects
    requires forall j :: i < j < |calls| ==> !Discards(calls[j], api, calls[i].request) && ReadBy(calls[j], now)
    requires t == i || (calls[t].PreSend? && calls[t].api == api && calls[t].request == calls[i].request
                        && Lookup(RunCalls(calls[..t], api), calls[i].request, calls[t].now).Some?)
    requires var interval := RunCalls(calls[..i], api).value.conf.interval;
             interval == 0 || now - calls[i].now <= interval
    requires |OtherRequests(calls, api, t, calls[i].request)| < 8
    ensures Lookup(RunCalls(calls, api), calls[i].request, now) == Some(calls[i].reply)
  {
    var conf := RunCalls(calls[..i], api).value.conf;
    var reg := RegisteredBy(calls[..i], api);
    var e := Entry(calls[i].request, calls[i].reply, calls[i].now);
    var s := FrontAfter(calls, api, i, t);
    EveryCallUndisturbed(calls, api, t, e.key, now);
    var keys := OtherRequests(calls, api, t, e.key) + {e.key};
    LruTheorems.SubsetSize(keys - {e.key}, OtherRequests(calls, api, t, e.key));
    FrontHolds(conf, e, s, keys);
    EntryKeptOverRun(calls, api, t, conf, e, keys, now);
    RunCallsBounded(calls, api);
    var a, b :| RunCalls(calls, api) == Some(CacheState(conf, a + [e] + b));
    assert (a + [e] + b)[|a|] == e;
    FindUnique(a + [e] + b, e);
  }

  lemma FrontHolds(conf: Config, e: Entry<Bytes, Bytes>, s: Entries<Bytes, Bytes>, keys: set<Bytes>)
    ensures Holds(Some(CacheState(conf, [e] + s)), conf, e, keys)
  {
    var a: Entries<Bytes, Bytes> := [];
    assert [e] + s == a + [e] + s && KeySet(a) <= keys;
  }

  /** After the store, and after a PreSend that found it, the entry is in front. */
  lemma FrontAfter(calls: seq<Call>, api: Api, i: nat, t: nat) returns (s: Entries<Bytes, Bytes>)
    requires i <= t < |calls| && RunCalls(calls[..i], api).Some?
    requires calls[i].PostSend? && calls[i].api == api && !calls[i].objects
    requires forall j :: i < j < |calls| ==> !Discards(calls[j], api, calls[i].request)
    requires t == i || (calls[t].PreSend? && calls[t].api == api && calls[t].request == calls[i].request
                        && Lookup(RunCalls(calls[..t], api), calls[i].request, calls[t].now).Some?)
    ensures RunCalls(calls[..t + 1], api)
         == Some(CacheState(RunCalls(calls[..i], api).value.conf, [Entry(calls[i].request, calls[i].reply, calls[i].now)] + s))
  {
    assert calls[..t + 1][..t] == calls[..t];
    if t == i {
      var r := RunCalls(calls[..t + 1], api).value.entries;
      s := r[1..];
      assert r == [r[0]] + s;
    } else {
      assert calls[..t][..i] == calls[..i];
      SameConf(calls[..t], api, i);
      var entries := RunCalls(calls[..t], api).value.entries;
      FindMember(entries, calls[i].request);
      var f := Find(entries, calls[i].request).value;
      var k := StoredBy(calls[..t], api, f);
      assert k == i by {
        assert Discards(calls[k], api, calls[i].request) && Discards(calls[i], api, f.key);
        assert calls[..t][i] == calls[i];
      }
      s := Without(entries, {f.key});
    }
  }

  /** The size and the interval do not change while the API is not deleted. */
  lemma {:induction false} SameConf(calls: seq<Call>, api: Api, i: nat)
    requires i <= |calls| && RunCalls(calls[..i], api).Some?
    requires forall j :: i <= j < |calls| ==> calls[j] != DelApi(api)
    ensures RunCalls(calls, api).Some? && RunCalls(calls, api).value.conf == RunCalls(calls[..i], api).value.conf
  {
    if i == |calls| {
      assert calls[..i] == calls;
    } else {
      var pre := calls[..|calls| - 1];
      assert pre[..i] == calls[..i];
      SameConf(pre, api, i);
    }
  }

  /** Every stored reply came from the server. */
  ghost predicate Honest(server: (Api, Bytes) -> Bytes, calls: seq<Call>) {
    forall call :: call in calls && call.PostSend? ==> call.reply == server(call.api, call.request)
  }

  /**
    Transparent caching: when the server is a function of the API and the request,
    a hit is the server's reply, over every run of calls in any order.
   */
  lemma TransparentCaching(server: (Api, Bytes) -> Bytes, calls: seq<Call>, api: Api, request: Bytes, now: int)
    requires Honest(server, calls)
    ensures Lookup(RunCalls(calls, api), request, now).Some? ==>
              Lookup(RunCalls(calls, api), request, now) == Some(server(api, request))
  {
    if Lookup(RunCalls(calls, api), request, now).Some? {
      var i := HitReply(calls, api, request, now);
      assert calls[i] in calls;
    }
  }

  /** Every reply cached for the API is the server's reply to its request. */
  ghost predicate Faithful(server: (Api, Bytes) -> Bytes, slot: Slot, api: Api) {
    slot.Some? ==> forall e :: e in slot.value.entries ==> e.value == server(api, e.key)
  }

  lemma FaithfulStep(server: (Api, Bytes) -> Bytes, slot: Slot, api: Api, call: Call)
    requires SlotBounded(slot) && Faithful(server, slot, api)
    requires call.PostSend? ==> call.reply == server(call.api, call.request)
    ensures SlotBounded(Apply(slot, api, call)) && Faithful(server, Apply(slot, api, call), api)
  {
    ApplyBounded(slot, api, call);
    if Apply(slot, api, call).Some? {
      forall e | e in Apply(slot, api, call).value.entries ensures e.value == server(api, e.key) {
        ApplyOrigin(slot, api, call, e);
      }
    }
  }

  lemma FaithfulHit(server: (Api, Bytes) -> Bytes, slot: Slot, api: Api, request: Bytes, now: int)
    requires Faithful(server, slot, api) && Lookup(slot, request, now).Some?
    ensures Lookup(slot, request, now).value == server(api, request)
  {
    FindMember(slot.value.entries, request);
  }

  /** The request and its reply are the most recent entry of the cache. */
  ghost predicate InFront(slot: Slot, request: Bytes, reply: Bytes) {
    slot.Some? && slot.value.entries != [] && slot.value.entries[0].key == request && slot.value.entries[0].value == reply
  }

  // ---------- The manager object ----------

  class MessageParcel {
    var data: Bytes
    var maxCapacity: nat
    const offsets: nat

    constructor (data: Bytes, offsets: nat, maxCapacity: nat)
      ensures this.data == data && this.offsets == offsets && this.maxCapacity == maxCapacity
    {
      this.data, this.offsets, this.maxCapacity := data, offsets, maxCapacity;
    }

    /** Appends the bytes, or refuses when `accepted` is false; the caller has already made the capacity large enough. */
    method WriteBuffer(bytes: Bytes, accepted: bool) returns (ok: bool)
      requires |data| + |bytes| <= maxCapacity
      modifies this
      ensures ok == accepted
      ensures data == (if ok then old(data) + bytes else old(data)) && maxCapacity == old(maxCapacity)
    {
      if accepted {
        data := data + bytes;
      }
      ok := accepted;
    }

    /** Raise the capacity if needed and append. */
    method Append(value: Bytes, accepted: bool) returns (ok: bool)
      modifies this
      ensures ok == accepted
      ensures data == if ok then old(data) + value else old(data)
    {
      var size := |data| + |value|;
      if size > maxCapacity {
        maxCapacity := size;
      }
      ok := WriteBuffer(value, accepted);
    }
  }

  class ApiCacheManager {
    var caches: map<Api, Lru.ExpireLruCache<Bytes, Bytes>>

    /** Every registered cache is valid, and no two APIs share a cache object. */
    ghost predicate Valid()
      reads this, caches.Values
    {
      && (forall api :: api in caches ==> caches[api].Valid())
      && (forall a, b :: a in caches && b in caches && caches[a] == caches[b] ==> a == b)
    }

    ghost function At(api: Api): (slot: Slot)
      requires Valid()
      reads this, caches.Values
      ensures SlotBounded(slot)
    {
      if api in caches then Some(CacheState(caches[api].Conf(), caches[api].contents)) else None
    }

    constructor ()
      ensures Valid() && forall a :: At(a) == None
    {
      caches := map[];
    }

    method AddCacheApi(api: Api, expireTimeSec: int)
      requires Valid()
      modifies this
      ensures Valid()
      ensures forall a :: At(a) == Apply(old(At(a)), a, AddApi(api, expireTimeSec))
      ensures fresh(caches.Values - old(caches.Values))
    {
      if api !in caches {
        var obj := new Lru.ExpireLruCache<Bytes, Bytes>(DEFAULT_CACHE_SIZE, expireTimeSec);
        caches := caches[api := obj];
      }
    }

    /** Deletes the cache object; no other API refers to it. */
    method DelCacheApi(api: Api)
      requires Valid()
      modifies this
      ensures Valid()
      ensures forall a :: At(a) == Apply(old(At(a)), a, DelApi(api))
      ensures api in old(caches) ==> old(caches[api]) !in caches.Values
    {
      caches := caches - {api};
    }

    method ClearCache()
      requires Valid()
      modifies caches.Values
      ensures Valid()
      ensures forall a :: At(a) == Apply(old(At(a)), a, ClearAll)
    {
      ClearWhere(ClearAll);
    }

    method ClearCacheOf(descriptor: string)
      requires Valid()
      modifies caches.Values
      ensures Valid()
      ensures forall a :: At(a) == Apply(old(At(a)), a, ClearDescriptor(descriptor))
    {
      ClearWhere(ClearDescriptor(descriptor));
    }

    method ClearWhere(call: Call)
      requires Valid() && (call.ClearAll? || call.ClearDescriptor?)
      modifies caches.Values
      ensures Valid()
      ensures forall a :: At(a) == Apply(old(At(a)), a, call)
    {
      ClearEach(call);
    }

    /** The loop of the clearing calls: visits every cache, in some order, and clears the ones the call names. */
    method ClearEach(call: Call)
      requires Valid() && (call.ClearAll? || call.ClearDescriptor?)
      modifies caches.Values
      ensures Valid()
      ensures forall a :: a in caches ==> caches[a].contents == if Clears(call, a) then [] else old(caches[a].contents)
    {
      var pending := caches.Keys;
      while pending != {}
        invariant Valid()
        invariant pending <= caches.Keys
        invariant forall a :: a in pending ==> caches[a].contents == old(caches[a].contents)
        invariant forall a :: a in caches && a !in pending ==>
                    caches[a].contents == if Clears(call, a) then [] else old(caches[a].contents)
      {
        var api :| api in pending;
        pending := pending - {api};
        ClearOne(call, api);
      }
    }

    /** One visit: the slot of this API changes as the call says, every other slot is unchanged. */
    method ClearOne(call: Call, api: Api)
      requires Valid() && api in caches && (call.ClearAll? || call.ClearDescriptor?)
      modifies caches.Values
      ensures Valid()
      ensures caches[api].contents == if Clears(call, api) then [] else old(caches[api].contents)
      ensures forall a :: a in caches && a != api ==> caches[a].contents == old(caches[a].contents)
    {
      if Clears(call, api) {
        caches[api].Clear();
      }
    }

    method ClearCacheApi(descriptor: string, apiCode: int)
      requires Valid()
      requires -0x8000_0000 <= apiCode < 0x8000_0000
      modifies caches.Values
      ensures Valid()
      ensures forall a :: At(a) == Apply(old(At(a)), a, ClearApi(descriptor, apiCode))
    {
      var api := Api(descriptor, ToCode(apiCode));
      if api in caches {
        caches[api].Clear();
      }
    }

    /** `accepted` is whether the reply parcel takes the bytes. */
    method PreSendRequest(api: Api, data: MessageParcel, reply: MessageParcel, clock: Clock.Clock, accepted: bool)
      returns (hit: bool, ghost now: int)
      requires Valid()
      modifies caches.Values, reply, clock
      ensures Valid()
      ensures forall a :: At(a) == Apply(old(At(a)), a, PreSend(api, old(data.data), now))
      ensures old(clock.now) <= now <= clock.now
      ensures hit <==> Lookup(old(At(api)), old(data.data), now).Some? && accepted
      ensures reply.data == old(reply.data)
                + (if hit then Lookup(old(At(api)), old(data.data), now).value else [])
    {
      var request := data.data;
      var value;
      value, now := LookUp(api, request, clock);
      if value.None? {
        return false, now;
      }
      hit := reply.Append(value.value, accepted);
    }

    /** The cache of the API, if it is registered, answers the request; every other slot is unchanged. */
    method LookUp(api: Api, request: Bytes, clock: Clock.Clock) returns (value: Option<Bytes>, ghost now: int)
      requires Valid()
      modifies caches.Values, clock
      ensures Valid()
      ensures forall a :: At(a) == Apply(old(At(a)), a, PreSend(api, request, now))
      ensures value == Lookup(old(At(api)), request, now)
      ensures old(clock.now) <= now <= clock.now
    {
      now := clock.now;
      if api !in caches {
        return None, now;
      }
      value, now := caches[api].Get(request, clock);
    }

    method PostSendRequest(api: Api, data: MessageParcel, reply: MessageParcel, clock: Clock.Clock)
      returns (stored: bool, ghost now: int, ghost seen: map<Bytes, int>)
      requires Valid()
      modifies caches.Values, clock
      ensures Valid()
      ensures forall a :: At(a) == Apply(old(At(a)), a,
                PostSend(api, data.data, reply.data, data.offsets != 0 || reply.offsets != 0, now, seen))
      ensures stored <==> data.offsets == 0 && reply.offsets == 0 && api in caches
      ensures old(clock.now) <= now <= clock.now
    {
      if data.offsets != 0 || reply.offsets != 0 {
        return false, clock.now, map[];
      }
      stored, now, seen := Store(api, data.data, reply.data, clock);
    }

    /** The cache of the API, if it is registered, takes the reply; every other slot is unchanged. */
    method Store(api: Api, request: Bytes, reply: Bytes, clock: Clock.Clock)
      returns (stored: bool, ghost now: int, ghost seen: map<Bytes, int>)
      requires Valid()
      modifies caches.Values, clock
      ensures Valid()
      ensures forall a :: At(a) == Apply(old(At(a)), a, PostSend(api, request, reply, false, now, seen))
      ensures stored <==> api in caches
      ensures old(clock.now) <= now <= clock.now
    {
      if api !in caches {
        return false, clock.now, map[];
      }
      now, seen := caches[api].Add(request, reply, clock);
      stored := true;
    }

    /**
      A proxy call through the cache: consult it with an empty reply parcel; on a
      miss send the request and offer the reply.  The caller cannot tell a hit from
      a send, and the cache stays faithful.
     */
    method CachedCall(api: Api, data: MessageParcel, server: (Api, Bytes) -> Bytes, replyOffsets: nat, clock: Clock.Clock, accepted: bool)
      returns (answer: Bytes, sent: bool, ghost now: int)
      requires Valid() && forall a :: Faithful(server, At(a), a)
      modifies caches.Values, clock
      ensures Valid() && forall a :: Faithful(server, At(a), a)
      ensures answer == server(api, data.data)
      ensures sent <==> !(Lookup(old(At(api)), data.data, now).Some? && accepted)
      ensures sent && api in caches && data.offsets == 0 && replyOffsets == 0 ==> InFront(At(api), data.data, answer)
    {
      var hit;
      hit, answer, now := Consult(api, data, server, replyOffsets, clock, accepted);
      sent := !hit;
      if sent {
        answer := Send(api, data, server, replyOffsets, clock);
      }
    }

    /** The hit path: what the cache appends to an empty reply parcel is the server's reply. */
    method Consult(api: Api, data: MessageParcel, server: (Api, Bytes) -> Bytes, replyOffsets: nat, clock: Clock.Clock, accepted: bool)
      returns (hit: bool, answer: Bytes, ghost now: int)
      requires Valid() && forall a :: Faithful(server, At(a), a)
      modifies caches.Values, clock
      ensures Valid() && forall a :: Faithful(server, At(a), a)
      ensures hit ==> answer == server(api, data.data)
      ensures hit <==> Lookup(old(At(api)), data.data, now).Some? && accepted
    {
      var reply := new MessageParcel([], replyOffsets, 0);
      hit, now := PreSendRequest(api, data, reply, clock, accepted);
      answer := reply.data;
      forall a ensures Faithful(server, At(a), a) {
        FaithfulStep(server, old(At(a)), a, PreSend(api, data.data, now));
      }
      if hit {
        FaithfulHit(server, old(At(api)), api, data.data, now);
      }
    }

    /** The miss path: the server's reply is offered to the cache. */
    method Send(api: Api, data: MessageParcel, server: (Api, Bytes) -> Bytes, replyOffsets: nat, clock: Clock.Clock)
      returns (answer: Bytes)
      requires Valid() && forall a :: Faithful(server, At(a), a)
      modifies caches.Values, clock
      ensures Valid() && forall a :: Faithful(server, At(a), a)
      ensures answer == server(api, data.data)
      ensures api in caches && data.offsets == 0 && replyOffsets == 0 ==> InFront(At(api), data.data, answer)
    {
      answer := server(api, data.data);
      var reply := new MessageParcel(answer, replyOffsets, |answer|);
      var stored;
      ghost var now, seen;
      stored, now, seen := PostSendRequest(api, data, reply, clock);
      forall a ensures Faithful(server, At(a), a) {
        FaithfulStep(server, old(At(a)), a, PostSend(api, data.data, answer, data.offsets != 0 || replyOffsets != 0, now, seen));
      }
    }
  }
}
