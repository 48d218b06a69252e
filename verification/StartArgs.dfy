/**
  The command line of a system ability process: an event string of five fields,
  each followed by '#', whose position depends on how many "-m" options there are.
 */
module StartArgs {
  import opened Options
  import opened Selection

  const PARAM_PREFIX_M := "-m"
  const DEFAULT_SAID := -1
  const ONDEMAND_LOAD := 2
  const EVENT_INDEX := 2
  const PROFILE_INDEX := 1
  const ARGC_LIMIT := 2
  const ARGC_MAX_COUNT := 64
  const PARTEVENT_NUM := 5
  const MAX_LENGTH := 2000
  const MALLOPT_CONFIG_LEN := 2

  datatype Json = Number(int) | Text(string)
  type EventMap = map<string, Json>

  // ---------- Fields separated by '#' ----------

  /** Each field followed by '#'. */
  ghost function Joined(fields: seq<string>): string {
    if fields == [] then "" else Joined(fields[..|fields| - 1]) + fields[|fields| - 1] + ['#']
  }

  ghost predicate HashFree(fields: seq<string>, tail: string) {
    (forall f :: f in fields ==> '#' !in f) && '#' !in tail
  }

  /** `s` is the given fields, each followed by '#', and a tail. */
  ghost predicate Splits(s: string, fields: seq<string>, tail: string) {
    HashFree(fields, tail) && s == Joined(fields) + tail
  }

  lemma JoinedAppend(fields: seq<string>, f: string)
    ensures Joined(fields + [f]) == Joined(fields) + f + ['#']
  {
    assert (fields + [f])[..|fields|] == fields;
  }

  /** The '#' before a tail without '#' is the last one. */
  lemma LastHash(s: string, front: string, tail: string)
    requires s == front + ['#'] + tail && '#' !in tail
    ensures |front| < |s| && s[|front|] == '#'
    ensures forall k :: |front| < k < |s| ==> s[k] != '#'
    ensures front == s[..|front|] && tail == s[|front| + 1..]
  {
    forall k | |front| < k < |s| ensures s[k] != '#' {
      assert s[k] == tail[k - |front| - 1];
    }
  }

  /** A string is split in only one way, so splitting and joining are inverse to each other. */
  lemma {:induction false} SplitUnique(s: string, fields: seq<string>, tail: string, fields': seq<string>, tail': string)
    requires Splits(s, fields, tail) && Splits(s, fields', tail')
    ensures fields == fields' && tail == tail'
    decreases |fields|
  {
    assert (fields == [] ==> s == tail) && (fields' == [] ==> s == tail');
    if fields != [] { LastField(s, fields, tail); }
    if fields' != [] { LastField(s, fields', tail'); }
    if fields != [] && fields' != [] {
      var n, n' := |fields| - 1, |fields'| - 1;
      var front := Joined(fields[..n]) + fields[n];
      SplitUnique(front, fields[..n], fields[n], fields'[..n'], fields'[n']);
      assert fields == fields[..n] + [fields[n]] && fields' == fields'[..n'] + [fields'[n']];
    }
  }

  lemma LastField(s: string, fields: seq<string>, tail: string)
    requires Splits(s, fields, tail) && fields != []
    ensures var n := |fields| - 1; var front := Joined(fields[..n]) + fields[n];
            && |front| < |s| && s[|front|] == '#' && (forall k :: |front| < k < |s| ==> s[k] != '#')
            && front == s[..|front|] && tail == s[|front| + 1..]
            && Splits(front, fields[..n], fields[n])
  {
    var n := |fields| - 1;
    LastHash(s, Joined(fields[..n]) + fields[n], tail);
  }

  ghost function IsHash(s: string): nat -> bool {
    (i: nat) => i < |s| && s[i] == '#'
  }

  /** Where field `k` begins: behind the '#' before it. */
  ghost function FieldStart(hashes: seq<nat>, k: nat): nat
    requires k <= |hashes|
  {
    if k == 0 then 0 else hashes[k - 1] + 1
  }

  /** Each field ends at its '#' and begins behind the one before. */
  ghost predicate FieldsAt(s: string, fields: seq<string>, hashes: seq<nat>) {
    forall k :: 0 <= k < |hashes| && k < |fields| ==> FieldAt(s, fields, hashes, k)
  }

  ghost predicate FieldAt(s: string, fields: seq<string>, hashes: seq<nat>, k: nat) {
    && k < |hashes| && k < |fields|
    && FieldStart(hashes, k) <= hashes[k] < |s| && fields[k] == s[FieldStart(hashes, k)..hashes[k]]
  }

  /** The fields by position: `hashes` are the positions of every '#' in the string, and the tail follows the last one. */
  lemma {:induction false} FieldsByPosition(s: string, fields: seq<string>, tail: string) returns (hashes: seq<nat>)
    requires Splits(s, fields, tail)
    ensures Picks(hashes, |s|, IsHash(s)) && |hashes| == |fields| && FieldsAt(s, fields, hashes)
    ensures FieldStart(hashes, |hashes|) <= |s| && tail == s[FieldStart(hashes, |hashes|)..]
    decreases |fields|
  {
    if fields == [] {
      hashes := [];
      assert s == tail;
    } else {
      LastField(s, fields, tail);
      var n := |fields| - 1;
      var front := Joined(fields[..n]) + fields[n];
      hashes := FieldsByPosition(front, fields[..n], fields[n]);
      OneMoreHash(s, front, hashes);
      OneMoreField(s, front, fields, hashes);
      hashes := hashes + [|front|];
    }
  }

  lemma OneMoreHash(s: string, front: string, hashes: seq<nat>)
    requires |front| < |s| && s[|front|] == '#' && (forall k :: |front| < k < |s| ==> s[k] != '#')
    requires front == s[..|front|] && Picks(hashes, |front|, IsHash(front))
    ensures Picks(hashes + [|front|], |s|, IsHash(s))
  {
    var more := hashes + [|front|];
    forall i: nat | i < |s| && IsHash(s)(i) ensures i in more {
      if i < |front| { assert IsHash(front)(i); }
    }
    forall k | 0 <= k < |more| ensures more[k] < |s| && IsHash(s)(more[k]) {
      if k < |hashes| { assert IsHash(front)(hashes[k]); }
    }
  }

  lemma SamePart(s: string, front: string, a: nat, b: nat)
    requires |front| <= |s| && front == s[..|front|] && a <= b <= |front|
    ensures front[a..b] == s[a..b]
  {
  }

  lemma OneMoreField(s: string, front: string, fields: seq<string>, hashes: seq<nat>)
    requires fields != [] && |front| < |s| && front == s[..|front|] && |hashes| == |fields| - 1
    requires FieldsAt(front, fields[..|hashes|], hashes)
    requires FieldStart(hashes, |hashes|) <= |front| && fields[|hashes|] == front[FieldStart(hashes, |hashes|)..]
    ensures FieldsAt(s, fields, hashes + [|front|])
  {
    var more := hashes + [|front|];
    forall k | 0 <= k < |more| ensures FieldAt(s, fields, more, k) {
      MoreFieldAt(s, front, fields, hashes, k);
    }
    assert forall k :: 0 <= k < |more| && k < |fields| ==> FieldAt(s, fields, more, k);
  }

  lemma MoreFieldAt(s: string, front: string, fields: seq<string>, hashes: seq<nat>, k: nat)
    requires fields != [] && |front| < |s| && front == s[..|front|] && |hashes| == |fields| - 1 && k < |fields|
    requires FieldsAt(front, fields[..|hashes|], hashes)
    requires FieldStart(hashes, |hashes|) <= |front| && fields[|hashes|] == front[FieldStart(hashes, |hashes|)..]
    ensures FieldAt(s, fields, hashes + [|front|], k)
  {
    var more := hashes + [|front|];
    var start := FieldStart(hashes, k);
    assert FieldStart(more, k) == start;
    if k < |hashes| {
      assert FieldAt(front, fields[..|hashes|], hashes, k);
      assert fields[k] == fields[..|hashes|][k] && more[k] == hashes[k];
      SamePart(s, front, start, hashes[k]);
    } else {
      SamePart(s, front, start, |front|);
      assert front[start..|front|] == front[start..];
    }
  }

  /** The first '#', or none. */
  function Find(s: string): (pos: Option<nat>)
    ensures pos.None? ==> '#' !in s
    ensures pos.Some? ==> pos.value < |s| && s[pos.value] == '#' && '#' !in s[..pos.value]
  {
    if s == [] then None
    else if s[0] == '#' then Some(0)
    else
      var rest := Find(s[1..]);
      if rest.None? then None
      else
        assert s[..rest.value + 1] == [s[0]] + s[1..][..rest.value];
        Some(rest.value + 1)
  }

  lemma CutAt(s: string, front: string, tail: string, pos: nat)
    requires s == front + tail && pos < |tail| && tail[pos] == '#'
    ensures s == front + tail[..pos] + ['#'] + tail[pos + 1..]
  {
  }

  /** One turn of the loop: the part before the first '#' becomes a field. */
  method Cut(ghost event: string, fields: seq<string>, tail: string, pos: nat) returns (more: seq<string>, rest: string)
    requires event == Joined(fields) + tail && pos < |tail| && tail[pos] == '#' && '#' !in tail[..pos]
    requires forall f :: f in fields ==> '#' !in f
    ensures more == fields + [tail[..pos]] && rest == tail[pos + 1..]
    ensures event == Joined(more) + rest
    ensures forall f :: f in more ==> '#' !in f
  {
    CutAt(event, Joined(fields), tail, pos);
    JoinedAppend(fields, tail[..pos]);
    more, rest := fields + [tail[..pos]], tail[pos + 1..];
  }

  /** The splitting loop: cut at the first '#' until there is none. */
  method SplitEvent(event: string) returns (fields: seq<string>, tail: string)
    ensures Splits(event, fields, tail)
  {
    fields, tail := [], event;
    var pos := Find(tail);
    while pos.Some?
      invariant pos == Find(tail)
      invariant event == Joined(fields) + tail
      invariant forall f :: f in fields ==> '#' !in f
      decreases |tail|
    {
      fields, tail := Cut(event, fields, tail, pos.value);
      pos := Find(tail);
    }
  }

  // ---------- The event ----------

  /** `s` is an event of five fields whose first is the number `saId`. */
  ghost predicate IsEvent(s: string, fields: seq<string>, tail: string, strToInt: string -> Option<int>, saId: int) {
    && |s| <= 2000 && |fields| == 5
    && Splits(s, fields, tail) && strToInt(fields[0]) == Some(saId)
  }

  ghost function Recorded(eventMap: EventMap, fields: seq<string>, atoi: string -> int): EventMap
    requires |fields| == 5
  {
    eventMap["eventId" := Number(atoi(fields[1]))]["name" := Text(fields[2])]
            ["value" := Text(fields[3])]["extraDataId" := Number(atoi(fields[4]))]
  }

  /** Which field goes where: the second is the event id, then name, value and the id of the extra data; nothing else changes. */
  lemma RecordedFields(eventMap: EventMap, fields: seq<string>, atoi: string -> int)
    requires |fields| == 5
    ensures var r := Recorded(eventMap, fields, atoi);
            && r.Keys == eventMap.Keys + {"eventId", "name", "value", "extraDataId"}
            && r["eventId"] == Number(atoi(fields[1])) && r["name"] == Text(fields[2])
            && r["value"] == Text(fields[3]) && r["extraDataId"] == Number(atoi(fields[4]))
            && forall k :: k in eventMap && k !in {"eventId", "name", "value", "extraDataId"} ==> r[k] == eventMap[k]
  {
    assert "eventId"[0] == 'e' && "name"[0] == 'n' && "value"[0] == 'v' && "extraDataId"[1] == 'x' && "eventId"[1] == 'v';
  }

  /** The string conversions `strToInt` and `atoi` are parameters. */
  method ParseArgv(argv: seq<string>, eventMap: EventMap, eventIndex: nat, strToInt: string -> Option<int>, atoi: string -> int)
    returns (saId: int, newMap: EventMap, ghost accepted: bool)
    requires eventIndex < |argv|
    ensures accepted <==> exists fields, tail, id :: IsEvent(argv[eventIndex], fields, tail, strToInt, id)
    ensures forall fields, tail, id :: IsEvent(argv[eventIndex], fields, tail, strToInt, id) ==>
      saId == id && newMap == Recorded(eventMap, fields, atoi)
    ensures !accepted ==> saId == DEFAULT_SAID && newMap == eventMap
  {
    var event := argv[eventIndex];
    newMap := eventMap;
    if |event| > MAX_LENGTH {
      return DEFAULT_SAID, eventMap, false;
    }
    var fields, tail := SplitEvent(event);
    forall fields', tail', id | IsEvent(event, fields', tail', strToInt, id) ensures fields' == fields {
      SplitUnique(event, fields, tail, fields', tail');
    }
    if |fields| != PARTEVENT_NUM {
      return DEFAULT_SAID, eventMap, false;
    }
    var number := strToInt(fields[0]);
    if number == None {
      return DEFAULT_SAID, eventMap, false;
    }
    newMap := newMap["eventId" := Number(atoi(fields[1]))];
    newMap := newMap["name" := Text(fields[2])];
    newMap := newMap["value" := Text(fields[3])];
    newMap := newMap["extraDataId" := Number(atoi(fields[4]))];
    assert IsEvent(event, fields, tail, strToInt, number.value);
    return number.value, newMap, true;
  }

  // ---------- The "-m" options ----------

  /** How many of the arguments are "-m". */
  ghost function CountM(args: seq<string>): nat {
    if args == [] then 0 else CountM(args[..|args| - 1]) + if args[|args| - 1] == PARAM_PREFIX_M then 1 else 0
  }

  ghost function IsM(args: seq<string>): nat -> bool {
    (i: nat) => i < |args| && args[i] == "-m"
  }

  /** The count by position. */
  lemma CountByPosition(args: seq<string>) returns (idx: seq<nat>)
    ensures Picks(idx, |args|, IsM(args)) && CountM(args) == |idx|
  {
    CountIsPositions(args, |args|);
    assert args[..|args|] == args;
    idx := Positions(|args|, IsM(args));
    PositionsPick(|args|, IsM(args));
  }

  lemma {:induction false} CountIsPositions(args: seq<string>, n: nat)
    requires n <= |args|
    ensures CountM(args[..n]) == |Positions(n, IsM(args))|
  {
    if n > 0 {
      CountIsPositions(args, n - 1);
      assert args[..n][..n - 1] == args[..n - 1];
    }
  }

  /** Every "-m" except a last argument moves both indices on by two. */
  method InitMallopt(argv: seq<string>, ondemandLoad: int, eventIndex: int) returns (load: int, event: int)
    ensures var n := CountM(if argv == [] then [] else argv[..|argv| - 1]);
            load == ondemandLoad + MALLOPT_CONFIG_LEN * n && event == eventIndex + MALLOPT_CONFIG_LEN * n
  {
    load, event := ondemandLoad, eventIndex;
    var i := 0;
    while i < |argv| - 1
      invariant 0 <= i <= if argv == [] then 0 else |argv| - 1
      invariant load == ondemandLoad + MALLOPT_CONFIG_LEN * CountM(argv[..i])
      invariant event == eventIndex + MALLOPT_CONFIG_LEN * CountM(argv[..i])
    {
      assert argv[..i + 1][..i] == argv[..i];
      if argv[i] == PARAM_PREFIX_M {
        load := load + MALLOPT_CONFIG_LEN;
        event := event + MALLOPT_CONFIG_LEN;
      }
      i := i + 1;
    }
  }

  /** The position of the event argument: behind the program, the profile and the options. */
  ghost function EventIndex(argv: seq<string>): nat {
    EVENT_INDEX + MALLOPT_CONFIG_LEN * CountM(if argv == [] then [] else argv[..|argv| - 1])
  }

  /** Options written as "-m" and a value each. */
  ghost function OptionArgs(values: seq<string>): seq<string> {
    if values == [] then [] else OptionArgs(values[..|values| - 1]) + [PARAM_PREFIX_M, values[|values| - 1]]
  }

  lemma {:induction false} CountConcat(a: seq<string>, b: seq<string>)
    ensures CountM(a + b) == CountM(a) + CountM(b)
  {
    if b == [] {
      assert a + b == a;
    } else {
      assert (a + b)[..|a + b| - 1] == a + b[..|b| - 1];
      CountConcat(a, b[..|b| - 1]);
    }
  }

  lemma {:induction false} CountOptions(values: seq<string>)
    ensures |OptionArgs(values)| == 2 * |values| && CountM(OptionArgs(values)) == |values| + CountM(values)
  {
    if values != [] {
      var n := |values| - 1;
      CountOptions(values[..n]);
      CountConcat(OptionArgs(values[..n]), [PARAM_PREFIX_M, values[n]]);
      CountTwo(PARAM_PREFIX_M, values[n]);
    }
  }

  lemma CountTwo(a: string, b: string)
    ensures CountM([a]) == (if a == PARAM_PREFIX_M then 1 else 0)
    ensures CountM([a, b]) == CountM([a]) + CountM([b])
  {
    assert [a][..0] == [] && [a, b][..1] == [a] && [b][..0] == [];
  }

  /**
    On a command line of program, profile, options and an event, the event
    position is that of the event if no other argument is itself "-m", and
    otherwise behind the last argument.
   */
  lemma EventFoundExactly(program: string, profile: string, values: seq<string>, event: string)
    ensures var argv := CommandLine(program, profile, values, event);
            EventIndex(argv) == |argv| - 1 + 2 * CountM([program, profile] + values)
  {
    var head := [program, profile] + OptionArgs(values);
    assert (head + [event])[..|head|] == head;
    CountConcat([program, profile], OptionArgs(values));
    CountConcat([program, profile], values);
    CountOptions(values);
  }

  ghost function CommandLine(program: string, profile: string, values: seq<string>, event: string): seq<string> {
    [program, profile] + OptionArgs(values) + [event]
  }

  // ---------- Starting the process ----------

  predicate Contains(s: string, part: string)
    decreases |s|
  {
    part <= s || (s != [] && Contains(s[1..], part))
  }

  ghost predicate OccursAt(s: string, part: string, i: nat) {
    i + |part| <= |s| && s[i..i + |part|] == part
  }

  /** The part occurs at some position. */
  lemma {:induction false} ContainsExactly(s: string, part: string)
    ensures Contains(s, part) <==> exists i: nat :: OccursAt(s, part, i)
  {
    if part <= s {
      assert OccursAt(s, part, 0);
    } else {
      if s != [] { ContainsExactly(s[1..], part); }
      if s != [] && Contains(s[1..], part) {
        var i: nat :| OccursAt(s[1..], part, i);
        assert s[i + 1..i + 1 + |part|] == s[1..][i..i + |part|];
        assert OccursAt(s, part, i + 1);
      }
      forall i: nat | OccursAt(s, part, i) ensures Contains(s, part) {
        if i > 0 {
          assert s[1..][i - 1..i - 1 + |part|] == s[i..i + |part|];
          assert OccursAt(s[1..], part, i - 1);
        }
      }
    }
  }

  /** What starting did: the exit code, the reason stored for an ability, and the profile and ability started. */
  datatype Outcome = Outcome(code: int, reason: Option<(int, EventMap)>, started: Option<(string, int)>)

  method DoStartSAProcess(argv: seq<string>, saId: int) returns (started: Option<(string, int)>)
    requires |argv| >= ARGC_LIMIT
    ensures started == if Contains(argv[PROFILE_INDEX], ".json") then Some((argv[PROFILE_INDEX], saId)) else None
  {
    var filePath := argv[PROFILE_INDEX];
    if filePath == "" || !Contains(filePath, ".json") {
      return None;
    }
    return Some((filePath, saId));
  }

  /** The argument at the event position is a valid event for the ability `id`, in the range of abilities. */
  ghost predicate Requests(argv: seq<string>, fields: seq<string>, tail: string, strToInt: string -> Option<int>, id: int, first: int, last: int) {
    && EventIndex(argv) < |argv| && first <= id <= last
    && IsEvent(argv[EventIndex(argv)], fields, tail, strToInt, id)
  }

  /** What a valid profile is started with. */
  ghost function StartedWith(profile: string, id: int): Option<(string, int)> {
    if Contains(profile, ".json") then Some((profile, id)) else None
  }

  /**
    What starting with `argv` does: on demand exactly for a valid event, by default
    exactly when there is no argument at the event position, and otherwise nothing.
   */
  ghost predicate Starts(r: Outcome, argv: seq<string>, strToInt: string -> Option<int>, atoi: string -> int, first: int, last: int)
    requires |argv| >= ARGC_LIMIT
  {
    var profile := argv[PROFILE_INDEX];
    && (EventIndex(argv) >= |argv| ==> r.reason == None && r.started == StartedWith(profile, DEFAULT_SAID))
    && (EventIndex(argv) < |argv| ==>
          && (r.reason.Some? <==> exists fields, tail, id :: Requests(argv, fields, tail, strToInt, id, first, last))
          && (r.reason.None? ==> r.started == None))
    && (forall fields, tail, id :: Requests(argv, fields, tail, strToInt, id, first, last) ==>
          r.reason == Some((id, Recorded(map[], fields, atoi))) && r.started == StartedWith(profile, id))
  }

  /** `first` and `last` bound the ids of system abilities. */
  method StartSA(argc: int, argv: Option<seq<string>>, strToInt: string -> Option<int>, atoi: string -> int, first: int, last: int)
    returns (r: Outcome)
    requires argv.Some? ==> argc == |argv.value|
    requires DEFAULT_SAID < first
    ensures r.code == (if argc < 2 || argc > 64 || argv == None then -1 else 0)
    ensures r.code == -1 ==> r.reason == None && r.started == None
    ensures r.code == 0 ==> Starts(r, argv.value, strToInt, atoi, first, last)
  {
    if argc < ARGC_LIMIT || argc > ARGC_MAX_COUNT {
      return Outcome(-1, None, None);
    }
    if argv == None {
      return Outcome(-1, None, None);
    }
    var args := argv.value;
    var ondemandLoad, eventIndex := InitMallopt(args, ONDEMAND_LOAD, EVENT_INDEX);
    var saId, reason := DEFAULT_SAID, None;
    if argc > ondemandLoad {
      // both indices move together, so the position is inside the argument list
      assert eventIndex == EventIndex(args) < argc;
      var eventMap: EventMap;
      ghost var accepted;
      saId, eventMap, accepted := ParseArgv(args, map[], eventIndex, strToInt, atoi);
      if !(first <= saId <= last) {
        return Outcome(0, None, None);
      }
      ghost var fields, tail, id :| IsEvent(args[eventIndex], fields, tail, strToInt, id);
      assert Requests(args, fields, tail, strToInt, id, first, last);
      reason := Some((saId, eventMap));
    }
    var started := DoStartSAProcess(args, saId);
    r := Outcome(0, reason, started);
  }

  /**
    A valid event is silently replaced by a default load if and only if another
    argument is itself "-m"; otherwise the ability it names is started.
   */
  lemma EventReplacedExactly(r: Outcome, program: string, profile: string, values: seq<string>, event: string,
                             fields: seq<string>, tail: string, strToInt: string -> Option<int>, atoi: string -> int,
                             id: int, first: int, last: int)
    requires Starts(r, CommandLine(program, profile, values, event), strToInt, atoi, first, last)
    requires Contains(profile, ".json") && DEFAULT_SAID < first
    requires IsEvent(event, fields, tail, strToInt, id) && first <= id <= last
    ensures r.started == Some((profile, DEFAULT_SAID)) && r.reason == None <==> CountM([program, profile] + values) > 0
    ensures r.started == Some((profile, id)) && r.reason == Some((id, Recorded(map[], fields, atoi)))
       <==> CountM([program, profile] + values) == 0
  {
    var argv := CommandLine(program, profile, values, event);
    EventFoundExactly(program, profile, values, event);
    assert argv[PROFILE_INDEX] == profile;
    if CountM([program, profile] + values) == 0 {
      assert argv[EventIndex(argv)] == event;
      assert Requests(argv, fields, tail, strToInt, id, first, last);
    }
  }

  /** An option whose value is "-m": the event is not read, and the default load is taken. */
  lemma OptionValueHidesEvent(r: Outcome, event: string, strToInt: string -> Option<int>, atoi: string -> int, first: int, last: int)
    requires Starts(r, ["sa_main", "a.json", "-m", "-m", event], strToInt, atoi, first, last)
    ensures r.reason == None && r.started == Some(("a.json", DEFAULT_SAID))
  {
    var argv := CommandLine("sa_main", "a.json", ["-m"], event);
    assert ["-m"][..0] == [] && OptionArgs([]) == [];
    assert argv == ["sa_main", "a.json", "-m", "-m", event];
    EventFoundExactly("sa_main", "a.json", ["-m"], event);
    CountConcat(["sa_main", "a.json"], ["-m"]);
    CountTwo("-m", "-m");
    assert "a.json"[1..] == ".json" && Contains(".json", ".json");
  }
}
