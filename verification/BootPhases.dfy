/**
  Boot phases of LocalAbilityManager: which start tasks the default load submits,
  and the barrier between phases: a task counter that submissions raise and
  finished tasks lower, with a wait that may time out.
 */
module BootPhases {
  import opened Options
  import opened Selection

  const BOOT_START := 1
  const OTHER_START := 3

  type Ability = int

  datatype Profile = Profile(saId: int, bootPhase: nat)

  /** What localAbilityMap_ answers for a profile when its phase is initialised. */
  datatype Lookup = NotRegistered | NullAbility | Registered(ability: Ability)

  /** A start task: the phase it was submitted for and the ability it starts. */
  datatype Start = Start(phase: nat, ability: Ability)

  // ---------- Which tasks are submitted ----------

  /** The abilities of phase `p`: one per registered profile of that phase, in profile order. */
  ghost function PhaseList(profiles: seq<Profile>, answers: seq<Lookup>, p: nat): seq<Ability>
    requires |answers| == |profiles|
  {
    if profiles == [] then []
    else
      var n := |profiles| - 1;
      PhaseList(profiles[..n], answers[..n], p)
        + (if profiles[n].bootPhase == p && answers[n].Registered? then [answers[n].ability] else [])
  }

  ghost function Starts(phase: nat, abilities: seq<Ability>): seq<Start> {
    seq(|abilities|, i requires 0 <= i < |abilities| => Start(phase, abilities[i]))
  }

  /** The start tasks of phases 1 to `upTo`, phase by phase. */
  ghost function AllStarts(plan: seq<seq<Ability>>, upTo: nat): seq<Start>
    requires upTo <= |plan|
  {
    if upTo == 0 then [] else AllStarts(plan, upTo - 1) + Starts(upTo, plan[upTo - 1])
  }

  ghost function Plan(profiles: seq<Profile>, answers: seq<Lookup>): seq<seq<Ability>>
    requires |answers| == |profiles|
  {
    seq(OTHER_START, i requires 0 <= i < OTHER_START => PhaseList(profiles, answers, i + 1))
  }

  lemma Append(a: seq<Start>, b: seq<Start>, c: seq<Start>)
    ensures (a + b) + c == a + (b + c)
  {
  }

  // ---------- The same tasks by position ----------

  /** The positions of the registered profiles of phase `p`. */
  ghost function OfPhase(profiles: seq<Profile>, answers: seq<Lookup>, p: nat): nat -> bool
    requires |answers| == |profiles|
  {
    (i: nat) => i < |profiles| && profiles[i].bootPhase == p && answers[i].Registered?
  }

  /** The k-th ability of the list is that of the profile at position `idx[k]`. */
  ghost predicate ListAt(answers: seq<Lookup>, list: seq<Ability>, idx: seq<nat>) {
    && |list| == |idx|
    && forall k :: 0 <= k < |idx| ==> idx[k] < |answers| && answers[idx[k]].Registered? && list[k] == answers[idx[k]].ability
  }

  /** The list of a phase holds the abilities of exactly these positions, in increasing order. */
  lemma PhaseListInOrder(profiles: seq<Profile>, answers: seq<Lookup>, p: nat) returns (idx: seq<nat>)
    requires |answers| == |profiles|
    ensures Picks(idx, |profiles|, OfPhase(profiles, answers, p)) && ListAt(answers, PhaseList(profiles, answers, p), idx)
  {
    PhaseListIsPick(profiles, answers, p, |profiles|);
    assert profiles[..|profiles|] == profiles && answers[..|profiles|] == answers;
    idx := PickInOrder(Abilities(answers), |profiles|, OfPhase(profiles, answers, p));
  }

  /** The answered abilities by position; zero where there is none, which no list includes. */
  ghost function Abilities(answers: seq<Lookup>): seq<Ability> {
    seq(|answers|, i requires 0 <= i < |answers| => if answers[i].Registered? then answers[i].ability else 0)
  }

  lemma {:induction false} PhaseListIsPick(profiles: seq<Profile>, answers: seq<Lookup>, p: nat, n: nat)
    requires |answers| == |profiles| && n <= |profiles|
    ensures PhaseList(profiles[..n], answers[..n], p) == Pick(Abilities(answers), n, OfPhase(profiles, answers, p))
  {
    if n > 0 {
      PhaseListIsPick(profiles, answers, p, n - 1);
      PhaseListNext(profiles, answers, p, n - 1);
    }
  }

  lemma PhaseListNext(profiles: seq<Profile>, answers: seq<Lookup>, p: nat, n: nat)
    requires |answers| == |profiles| && n < |profiles|
    ensures PhaseList(profiles[..n + 1], answers[..n + 1], p) ==
      if OfPhase(profiles, answers, p)(n) then PhaseList(profiles[..n], answers[..n], p) + [answers[n].ability]
      else PhaseList(profiles[..n], answers[..n], p)
  {
    assert profiles[..n + 1][..n] == profiles[..n] && answers[..n + 1][..n] == answers[..n];
  }

  /** The profile at position `i` is registered and of a phase from 1 to `upTo`. */
  ghost predicate Started(profiles: seq<Profile>, answers: seq<Lookup>, upTo: nat, i: nat)
    requires |answers| == |profiles|
  {
    i < |profiles| && answers[i].Registered? && 1 <= profiles[i].bootPhase <= upTo
  }

  /** The k-th task starts the ability of the profile at position `idx[k]`, in the phase of that profile. */
  ghost predicate TasksAt(profiles: seq<Profile>, answers: seq<Lookup>, upTo: nat, tasks: seq<Start>, idx: seq<nat>)
    requires |answers| == |profiles|
  {
    && |idx| == |tasks|
    && forall k :: 0 <= k < |idx| ==>
         Started(profiles, answers, upTo, idx[k]) && tasks[k] == Start(profiles[idx[k]].bootPhase, answers[idx[k]].ability)
  }

  /** Phase by phase, and within a phase in the order of the profile list. */
  ghost predicate PhaseOrder(profiles: seq<Profile>, idx: seq<nat>) {
    forall j, k :: 0 <= j < k < |idx| && idx[j] < |profiles| && idx[k] < |profiles| ==>
      || profiles[idx[j]].bootPhase < profiles[idx[k]].bootPhase
      || (profiles[idx[j]].bootPhase == profiles[idx[k]].bootPhase && idx[j] < idx[k])
  }

  /**
    The tasks are those of the profiles at positions `idx`: exactly the registered
    profiles of phases 1 to `upTo`, phase by phase, and within a phase in the order
    of the profile list.
   */
  ghost predicate InBootOrder(profiles: seq<Profile>, answers: seq<Lookup>, upTo: nat, tasks: seq<Start>, idx: seq<nat>)
    requires |answers| == |profiles|
  {
    && TasksAt(profiles, answers, upTo, tasks, idx)
    && PhaseOrder(profiles, idx)
    && forall i: nat :: Started(profiles, answers, upTo, i) ==> i in idx
  }

  lemma {:induction false} PlanInBootOrder(profiles: seq<Profile>, answers: seq<Lookup>, upTo: nat) returns (idx: seq<nat>)
    requires |answers| == |profiles| && upTo <= OTHER_START
    ensures InBootOrder(profiles, answers, upTo, AllStarts(Plan(profiles, answers), upTo), idx)
  {
    if upTo == 0 {
      idx := [];
    } else {
      var first := PlanInBootOrder(profiles, answers, upTo - 1);
      var more := PhaseListInOrder(profiles, answers, upTo);
      NextPhaseInOrder(profiles, answers, upTo, AllStarts(Plan(profiles, answers), upTo - 1), PhaseList(profiles, answers, upTo), first, more);
      idx := first + more;
    }
  }

  lemma NextPhaseInOrder(profiles: seq<Profile>, answers: seq<Lookup>, upTo: nat, tasks: seq<Start>, list: seq<Ability>, first: seq<nat>, more: seq<nat>)
    requires |answers| == |profiles| && upTo >= 1 && InBootOrder(profiles, answers, upTo - 1, tasks, first)
    requires Picks(more, |profiles|, OfPhase(profiles, answers, upTo)) && ListAt(answers, list, more)
    ensures InBootOrder(profiles, answers, upTo, tasks + Starts(upTo, list), first + more)
  {
    NextTasksAt(profiles, answers, upTo, tasks, list, first, more);
    NextPhaseOrder(profiles, answers, upTo, tasks, first, more);
    forall i: nat | Started(profiles, answers, upTo, i) ensures i in first + more {
      if profiles[i].bootPhase == upTo {
        assert OfPhase(profiles, answers, upTo)(i);
        assert i in more;
      } else {
        assert Started(profiles, answers, upTo - 1, i);
      }
    }
  }

  lemma NextTasksAt(profiles: seq<Profile>, answers: seq<Lookup>, upTo: nat, tasks: seq<Start>, list: seq<Ability>, first: seq<nat>, more: seq<nat>)
    requires |answers| == |profiles| && upTo >= 1 && TasksAt(profiles, answers, upTo - 1, tasks, first)
    requires Picks(more, |profiles|, OfPhase(profiles, answers, upTo)) && ListAt(answers, list, more)
    ensures TasksAt(profiles, answers, upTo, tasks + Starts(upTo, list), first + more)
  {
    var idx, all := first + more, tasks + Starts(upTo, list);
    forall k | 0 <= k < |idx|
      ensures Started(profiles, answers, upTo, idx[k]) && all[k] == Start(profiles[idx[k]].bootPhase, answers[idx[k]].ability)
    {
      if k < |first| {
        assert Started(profiles, answers, upTo - 1, first[k]);
      } else {
        assert idx[k] == more[k - |first|] && OfPhase(profiles, answers, upTo)(more[k - |first|]);
        assert all[k] == Start(upTo, list[k - |first|]);
      }
    }
  }

  lemma NextPhaseOrder(profiles: seq<Profile>, answers: seq<Lookup>, upTo: nat, tasks: seq<Start>, first: seq<nat>, more: seq<nat>)
    requires |answers| == |profiles| && upTo >= 1 && TasksAt(profiles, answers, upTo - 1, tasks, first) && PhaseOrder(profiles, first)
    requires Picks(more, |profiles|, OfPhase(profiles, answers, upTo))
    ensures PhaseOrder(profiles, first + more)
  {
    assert forall k :: 0 <= k < |first| ==> Started(profiles, answers, upTo - 1, first[k]);
    assert forall k :: 0 <= k < |more| ==> OfPhase(profiles, answers, upTo)(more[k]);
  }

  ghost function Before(plan: seq<seq<Ability>>, p: nat): nat
    requires p <= |plan|
  {
    if p == 0 then 0 else Before(plan, p - 1) + |plan[p - 1]|
  }

  /** Where the task of each planned ability stands. */
  lemma {:induction false} PlanAt(plan: seq<seq<Ability>>, upTo: nat, p: nat, i: nat)
    requires p < upTo <= |plan| && i < |plan[p]|
    ensures |AllStarts(plan, upTo)| == Before(plan, upTo)
    ensures Before(plan, p) + i < |AllStarts(plan, upTo)| && AllStarts(plan, upTo)[Before(plan, p) + i] == Start(p + 1, plan[p][i])
  {
    PlanLength(plan, upTo - 1);
    if p < upTo - 1 {
      PlanAt(plan, upTo - 1, p, i);
    }
  }

  lemma {:induction false} PlanLength(plan: seq<seq<Ability>>, upTo: nat)
    requires upTo <= |plan|
    ensures |AllStarts(plan, upTo)| == Before(plan, upTo)
  {
    if upTo > 0 { PlanLength(plan, upTo - 1); }
  }

  type PhaseMap = map<nat, seq<Ability>>

  /** The phase map once phases 1 to `upTo` are initialised: an entry per phase that has abilities. */
  ghost predicate Loaded(m: PhaseMap, profiles: seq<Profile>, answers: seq<Lookup>, upTo: nat)
    requires |answers| == |profiles|
  {
    forall p: nat ::
      if 1 <= p <= upTo && PhaseList(profiles, answers, p) != []
      then p in m && m[p] == PhaseList(profiles, answers, p)
      else p !in m
  }

  class PhaseLoader {
    var abilityPhaseMap: PhaseMap
    var submitted: seq<Start>  // the tasks handed to the pool, in order

    constructor ()
      ensures abilityPhaseMap == map[] && submitted == []
    {
      abilityPhaseMap, submitted := map[], [];
    }

    /** InitializeSaProfilesInnerLocked: append the ability of one profile to the list of its phase. */
    method InitializeProfile(profile: Profile, answer: Lookup) returns (ok: bool)
      modifies this`abilityPhaseMap
      ensures ok <==> answer.Registered? && profile.bootPhase <= OTHER_START
      ensures abilityPhaseMap ==
        if !ok then old(abilityPhaseMap)
        else var l := if profile.bootPhase in old(abilityPhaseMap) then old(abilityPhaseMap)[profile.bootPhase] else [];
             old(abilityPhaseMap)[profile.bootPhase := l + [answer.ability]]
    {
      if answer.NotRegistered? {
        return false;
      }
      if answer.NullAbility? {
        return false;
      }
      if profile.bootPhase > OTHER_START {
        return false;
      }
      var saList := if profile.bootPhase in abilityPhaseMap then abilityPhaseMap[profile.bootPhase] else [];
      abilityPhaseMap := abilityPhaseMap[profile.bootPhase := saList + [answer.ability]];
      ok := true;
    }

    /** Initialise one phase; a phase beyond the last, or an empty profile list, does nothing. */
    method InitializeRunOnCreateSaProfiles(bootPhase: nat, profiles: seq<Profile>, answers: seq<Lookup>) returns (ok: bool)
      requires |answers| == |profiles| && bootPhase >= BOOT_START
      requires Loaded(abilityPhaseMap, profiles, answers, bootPhase - 1)
      modifies this`abilityPhaseMap
      ensures ok <==> bootPhase <= OTHER_START && profiles != []
      ensures bootPhase <= OTHER_START ==> Loaded(abilityPhaseMap, profiles, answers, bootPhase)
      ensures bootPhase > OTHER_START ==> abilityPhaseMap == old(abilityPhaseMap)
    {
      if bootPhase > OTHER_START {
        return false;
      }
      if profiles == [] {
        return false;
      }
      ghost var before := abilityPhaseMap;
      for i := 0 to |profiles|
        invariant forall p: nat :: p != bootPhase ==>
                    (p in abilityPhaseMap <==> p in before) && (p in before ==> abilityPhaseMap[p] == before[p])
        invariant var done := PhaseList(profiles[..i], answers[..i], bootPhase);
                  if done == [] then bootPhase !in abilityPhaseMap
                  else bootPhase in abilityPhaseMap && abilityPhaseMap[bootPhase] == done
      {
        assert profiles[..i + 1][..i] == profiles[..i] && answers[..i + 1][..i] == answers[..i];
        if profiles[i].bootPhase == bootPhase {
          var added := InitializeProfile(profiles[i], answers[i]);
        }
      }
      assert profiles[..|profiles|] == profiles && answers[..|profiles|] == answers;
      ok := true;
    }

    /** Submit one task per ability of the list. */
    method StartPhaseTasks(phase: nat, abilities: seq<Ability>)
      modifies this`submitted
      ensures submitted == old(submitted) + Starts(phase, abilities)
    {
      for i := 0 to |abilities|
        invariant submitted == old(submitted) + Starts(phase, abilities[..i])
      {
        submitted := submitted + [Start(phase, abilities[i])];
        assert Starts(phase, abilities[..i + 1]) == Starts(phase, abilities[..i]) + [Start(phase, abilities[i])];
      }
      assert abilities[..|abilities|] == abilities;
    }

    /**
      The default load: the submitted tasks are exactly the registered abilities of
      phases 1, 2 and 3, phase by phase and in profile order, although each phase is
      initialised only while the one before it runs.
     */
    method FindAndStartPhaseTasks(profiles: seq<Profile>, answers: seq<Lookup>)
      requires |answers| == |profiles|
      requires Loaded(abilityPhaseMap, profiles, answers, BOOT_START)
      modifies this
      ensures submitted == old(submitted) + AllStarts(Plan(profiles, answers), OTHER_START)
    {
      ghost var plan := Plan(profiles, answers);
      ghost var sent := [];
      for bootPhase := BOOT_START to OTHER_START + 1
        invariant sent == AllStarts(plan, bootPhase - 1)
        invariant submitted == old(submitted) + sent
        invariant bootPhase <= OTHER_START ==> Loaded(abilityPhaseMap, profiles, answers, bootPhase)
      {
        StartAndLoadNext(bootPhase, profiles, answers, plan);
        Append(old(submitted), sent, Starts(bootPhase, plan[bootPhase - 1]));
        sent := sent + Starts(bootPhase, plan[bootPhase - 1]);
      }
    }

    /** The on-demand load: the tasks of the phases already initialised, in turn. */
    method FindAndStartLoaded()
      modifies this`submitted
      ensures submitted == old(submitted) + AllStarts(ByPhase(abilityPhaseMap), OTHER_START)
    {
      ghost var plan := ByPhase(abilityPhaseMap);
      ghost var sent := [];
      for bootPhase := BOOT_START to OTHER_START + 1
        invariant sent == AllStarts(plan, bootPhase - 1)
        invariant submitted == old(submitted) + sent
      {
        if bootPhase in abilityPhaseMap {
          StartPhaseTasks(bootPhase, abilityPhaseMap[bootPhase]);
        } else {
          assert Starts(bootPhase, []) == [];
        }
        Append(old(submitted), sent, Starts(bootPhase, plan[bootPhase - 1]));
        sent := sent + Starts(bootPhase, plan[bootPhase - 1]);
      }
    }

    /** One round of the loop: submit the tasks of the phase, then initialise the next phase. */
    method StartAndLoadNext(bootPhase: nat, profiles: seq<Profile>, answers: seq<Lookup>, ghost plan: seq<seq<Ability>>)
      requires |answers| == |profiles| && plan == Plan(profiles, answers)
      requires BOOT_START <= bootPhase <= OTHER_START
      requires Loaded(abilityPhaseMap, profiles, answers, bootPhase)
      modifies this
      ensures submitted == old(submitted) + Starts(bootPhase, plan[bootPhase - 1])
      ensures bootPhase < OTHER_START ==> Loaded(abilityPhaseMap, profiles, answers, bootPhase + 1)
    {
      assert plan[bootPhase - 1] == PhaseList(profiles, answers, bootPhase);
      if bootPhase in abilityPhaseMap {
        StartPhaseTasks(bootPhase, abilityPhaseMap[bootPhase]);
      } else {
        assert Starts(bootPhase, []) == [];
      }
      var more := InitializeRunOnCreateSaProfiles(bootPhase + 1, profiles, answers);
    }
  }

  /**
    A default load from nothing.  The process ends without a task when its profile
    path is invalid, the profiles cannot be parsed or are empty, the ability manager
    does not come up, or the process cannot be added there.
   */
  method DefaultLoad(path: bool, parsed: bool, profiles: seq<Profile>, answers: seq<Lookup>, ready: bool, added: bool)
    returns (run: bool, submitted: seq<Start>, ghost idx: seq<nat>)
    requires |answers| == |profiles|
    ensures run <==> path && parsed && profiles != [] && ready && added
    ensures submitted == if run then AllStarts(Plan(profiles, answers), OTHER_START) else []
    ensures run ==> InBootOrder(profiles, answers, 3, submitted, idx)
  {
    idx := PlanInBootOrder(profiles, answers, 3);
    if !path || !parsed {
      return false, [], idx;
    }
    var loader := new PhaseLoader();
    run := loader.InitializeRunOnCreateSaProfiles(BOOT_START, profiles, answers);
    if !run || !ready || !added {
      return false, [], idx;
    }
    loader.FindAndStartPhaseTasks(profiles, answers);
    submitted := loader.submitted;
    assert [] + AllStarts(Plan(profiles, answers), OTHER_START) == AllStarts(Plan(profiles, answers), OTHER_START);
  }

  /**
    An on-demand load of one ability from nothing: its library must load and its
    profile be found.  A profile of phase 0 is accepted, but no phase starts it.
   */
  method OnDemandLoad(path: bool, parsed: bool, loaded: bool, profile: Option<Profile>, answer: Lookup, ready: bool, added: bool)
    returns (run: bool, submitted: seq<Start>)
    ensures run <==> && path && parsed && loaded && profile.Some? && answer.Registered?
                     && profile.value.bootPhase <= 3 && ready && added
    ensures submitted == if run && profile.value.bootPhase >= 1
                         then [Start(profile.value.bootPhase, answer.ability)] else []
  {
    if !path || !parsed || !loaded || profile == None {
      return false, [];
    }
    var loader := new PhaseLoader();
    run := loader.InitializeProfile(profile.value, answer);
    if !run || !ready || !added {
      return false, [];
    }
    OnePhase(profile.value.bootPhase, answer.ability);
    assert [] + [answer.ability] == [answer.ability];
    assert loader.abilityPhaseMap == map[profile.value.bootPhase := [answer.ability]];
    loader.FindAndStartLoaded();
    submitted := loader.submitted;
  }

  /** The lists of phases 1 to 3; a phase without an entry has none. */
  ghost function ByPhase(m: PhaseMap): seq<seq<Ability>> {
    seq(OTHER_START, i requires 0 <= i < OTHER_START => if i + 1 in m then m[i + 1] else [])
  }

  lemma OnePhase(phase: nat, a: Ability)
    requires phase <= OTHER_START
    ensures AllStarts(ByPhase(map[phase := [a]]), OTHER_START) == if phase >= BOOT_START then [Start(phase, a)] else []
  {
    var plan := ByPhase(map[phase := [a]]);
    assert forall p: nat :: Starts(p, []) == [];
    assert Starts(phase, [a]) == [Start(phase, a)];
    assert AllStarts(plan, 1) == AllStarts(plan, 0) + Starts(1, plan[0]);
    assert AllStarts(plan, 2) == AllStarts(plan, 1) + Starts(2, plan[1]);
  }

  // ---------- The barrier, with main-thread and worker steps interleaved ----------

  datatype Status = Queued | Running | Attempted | Done

  datatype Task = Task(start: Start, status: Status)

  /**
    `startTaskNum` is the counter; the main thread is in phase `phase + 1` of the
    plan and has submitted `cursor` of its tasks.  Three fields record the history:
    whether a wait timed out, the sum of the counter values that timed-out waits
    reset to zero, and how many tasks left when the counter was already zero.
   */
  datatype Barrier = Barrier(
    plan: seq<seq<Ability>>,
    phase: nat,
    cursor: nat,
    startTaskNum: int,
    tasks: seq<Task>,
    timedOut: bool,
    abandoned: int,
    uncounted: nat)

  datatype Step =
    | Submit               // main: lock, ++startTaskNum, AddTask
    | SkipPhase            // main: the phase has no list
    | WaitReturns          // main: the wait ends with the counter at zero
    | WaitTimesOut         // main: the wait ends with the counter above zero
    | Begin(task: nat)     // a worker takes the task
    | FinishStart(task: nat)  // its start attempt is over
    | Leave(task: nat)     // worker: lock, lower the counter if it is above zero

  function Initial(plan: seq<seq<Ability>>): Barrier {
    Barrier(plan, 0, 0, 0, [], false, 0, 0)
  }

  predicate Enabled(s: Barrier, step: Step) {
    match step
    case Submit => s.phase < |s.plan| && s.cursor < |s.plan[s.phase]|
    case SkipPhase => s.phase < |s.plan| && s.plan[s.phase] == []
    case WaitReturns => s.phase < |s.plan| && 0 < |s.plan[s.phase]| == s.cursor && s.startTaskNum == 0
    case WaitTimesOut => s.phase < |s.plan| && 0 < |s.plan[s.phase]| == s.cursor && s.startTaskNum != 0
    case Begin(i) => i < |s.tasks| && s.tasks[i].status.Queued?
    case FinishStart(i) => i < |s.tasks| && s.tasks[i].status.Running?
    case Leave(i) => i < |s.tasks| && s.tasks[i].status.Attempted?
  }

  function Apply(s: Barrier, step: Step): Barrier
    requires Enabled(s, step)
  {
    match step
    case Submit =>
      s.(startTaskNum := s.startTaskNum + 1, cursor := s.cursor + 1,
         tasks := s.tasks + [Task(Start(s.phase + 1, s.plan[s.phase][s.cursor]), Queued)])
    case SkipPhase => s.(phase := s.phase + 1, cursor := 0)
    case WaitReturns => s.(phase := s.phase + 1, cursor := 0, startTaskNum := 0)
    case WaitTimesOut =>
      s.(phase := s.phase + 1, cursor := 0, startTaskNum := 0,
         timedOut := true, abandoned := s.abandoned + s.startTaskNum)
    case Begin(i) => s.(tasks := s.tasks[i := s.tasks[i].(status := Running)])
    case FinishStart(i) => s.(tasks := s.tasks[i := s.tasks[i].(status := Attempted)])
    case Leave(i) =>
      var left := s.(tasks := s.tasks[i := s.tasks[i].(status := Done)]);
      if s.startTaskNum > 0 then left.(startTaskNum := s.startTaskNum - 1)
      else left.(uncounted := s.uncounted + 1)
  }

  /** The state after a run of steps, if each was possible. */
  function Run(plan: seq<seq<Ability>>, steps: seq<Step>): Option<Barrier> {
    if steps == [] then Some(Initial(plan))
    else
      var s := Run(plan, steps[..|steps| - 1]);
      if s.Some? && Enabled(s.value, steps[|steps| - 1]) then Some(Apply(s.value, steps[|steps| - 1])) else None
  }

  /** Submitted tasks that have not left yet. */
  ghost function Outstanding(tasks: seq<Task>): nat {
    if tasks == [] then 0
    else Outstanding(tasks[..|tasks| - 1]) + (if tasks[|tasks| - 1].status.Done? then 0 else 1)
  }

  lemma {:induction false} OutstandingUpdate(tasks: seq<Task>, i: nat, t: Task)
    requires i < |tasks|
    ensures Outstanding(tasks[i := t])
         == Outstanding(tasks) - (if tasks[i].status.Done? then 0 else 1) + (if t.status.Done? then 0 else 1)
  {
    var n := |tasks| - 1;
    if i < n {
      OutstandingUpdate(tasks[..n], i, t);
      assert tasks[i := t][..n] == tasks[..n][i := t];
    } else {
      assert tasks[i := t][..n] == tasks[..n];
    }
  }

  lemma {:induction false} NoneOutstanding(tasks: seq<Task>)
    ensures Outstanding(tasks) == 0 <==> forall t :: t in tasks ==> t.status.Done?
  {
    if tasks != [] {
      var n := |tasks| - 1;
      NoneOutstanding(tasks[..n]);
      assert tasks == tasks[..n] + [tasks[n]];
    }
  }

  ghost function StartsOf(tasks: seq<Task>): seq<Start> {
    seq(|tasks|, i requires 0 <= i < |tasks| => tasks[i].start)
  }

  /** The tasks of the plan up to `cursor` in phase `phase + 1`. */
  ghost function Planned(plan: seq<seq<Ability>>, phase: nat, cursor: nat): seq<Start>
    requires phase <= |plan| && (phase < |plan| ==> cursor <= |plan[phase]|)
  {
    AllStarts(plan, phase) + if phase < |plan| then Starts(phase + 1, plan[phase][..cursor]) else []
  }

  /** The tasks so far are the planned ones, in order. */
  ghost predicate InOrder(s: Barrier) {
    && s.phase <= |s.plan|
    && (s.phase < |s.plan| ==> s.cursor <= |s.plan[s.phase]|)
    && (s.phase == |s.plan| ==> s.cursor == 0)
    && StartsOf(s.tasks) == Planned(s.plan, s.phase, s.cursor)
  }

  /**
    A phase begins with the counter at zero.  Conservation: a timed-out wait takes
    its counter value out of the count, and a task that leaves at zero makes up for one.
   */
  ghost predicate Counted(s: Barrier) {
    && 0 <= s.startTaskNum && (s.cursor == 0 ==> s.startTaskNum == 0)
    && Outstanding(s.tasks) + s.uncounted == s.startTaskNum + s.abandoned
    && s.uncounted <= s.abandoned
    && (!s.timedOut ==> s.abandoned == 0)
  }

  /** Without a timeout, only tasks of the current phase are outstanding. */
  ghost predicate EarlierDone(s: Barrier) {
    !s.timedOut ==> forall t :: t in s.tasks && t.start.phase <= s.phase ==> t.status.Done?
  }

  /** What every step keeps, whatever the interleaving and whether or not waits time out. */
  ghost predicate Inv(s: Barrier) {
    InOrder(s) && Counted(s) && EarlierDone(s)
  }

  lemma SubmitStarts(tasks: seq<Task>, t: Task, plan: seq<seq<Ability>>, phase: nat, cursor: nat)
    requires phase < |plan| && cursor < |plan[phase]| && t.start == Start(phase + 1, plan[phase][cursor])
    requires StartsOf(tasks) == Planned(plan, phase, cursor)
    ensures StartsOf(tasks + [t]) == Planned(plan, phase, cursor + 1)
  {
    var l := plan[phase];
    assert StartsOf(tasks + [t]) == StartsOf(tasks) + [t.start];
    assert Starts(phase + 1, l[..cursor + 1]) == Starts(phase + 1, l[..cursor]) + [t.start];
    Append(AllStarts(plan, phase), Starts(phase + 1, l[..cursor]), [t.start]);
  }

  lemma SubmitOutstanding(tasks: seq<Task>, t: Task)
    requires !t.status.Done?
    ensures Outstanding(tasks + [t]) == Outstanding(tasks) + 1
  {
    assert (tasks + [t])[..|tasks|] == tasks;
  }

  lemma SubmitCounted(s: Barrier)
    requires Counted(s) && EarlierDone(s) && Enabled(s, Submit)
    ensures Counted(Apply(s, Submit)) && EarlierDone(Apply(s, Submit))
  {
    SubmitOutstanding(s.tasks, Task(Start(s.phase + 1, s.plan[s.phase][s.cursor]), Queued));
  }

  lemma SubmitKeeps(s: Barrier)
    requires Inv(s) && Enabled(s, Submit)
    ensures Inv(Apply(s, Submit))
  {
    SubmitCounted(s);
    SubmitInOrder(s);
  }

  lemma SubmitInOrder(s: Barrier)
    requires InOrder(s) && Enabled(s, Submit)
    ensures InOrder(Apply(s, Submit))
  {
    SubmitStarts(s.tasks, Task(Start(s.phase + 1, s.plan[s.phase][s.cursor]), Queued), s.plan, s.phase, s.cursor);
  }

  /** Moving to the next phase: everything of the old phase has been submitted. */
  lemma NextPhaseStarts(s: Barrier, r: Barrier)
    requires Inv(s) && s.phase < |s.plan| && s.cursor == |s.plan[s.phase]|
    requires r.plan == s.plan && r.phase == s.phase + 1 && r.cursor == 0 && r.tasks == s.tasks
    ensures StartsOf(r.tasks) == Planned(r.plan, r.phase, r.cursor)
  {
    assert s.plan[s.phase][..s.cursor] == s.plan[s.phase];
    if r.phase < |r.plan| {
      assert Starts(r.phase + 1, r.plan[r.phase][..0]) == [];
    }
  }

  lemma NextPhaseKeeps(s: Barrier, step: Step)
    requires Inv(s) && Enabled(s, step) && (step.SkipPhase? || step.WaitReturns? || step.WaitTimesOut?)
    ensures Inv(Apply(s, step))
  {
    var r := Apply(s, step);
    NextPhaseStarts(s, r);
    NoneOutstanding(s.tasks);
    if step.SkipPhase? {
      forall t | t in s.tasks ensures t.start.phase != s.phase + 1 {
        var i :| 0 <= i < |s.tasks| && s.tasks[i] == t;
        assert StartsOf(s.tasks)[i] == t.start;
        assert Starts(s.phase + 1, s.plan[s.phase][..0]) == [];
        PhasesBelow(s.plan, s.phase, i);
      }
    }
  }

  lemma {:induction false} PhasesBelow(plan: seq<seq<Ability>>, upTo: nat, i: nat)
    requires upTo <= |plan| && i < |AllStarts(plan, upTo)|
    ensures 1 <= AllStarts(plan, upTo)[i].phase <= upTo
  {
    var n := |AllStarts(plan, upTo - 1)|;
    if i < n { PhasesBelow(plan, upTo - 1, i); }
  }

  lemma WorkerKeeps(s: Barrier, step: Step)
    requires Inv(s) && Enabled(s, step) && (step.Begin? || step.FinishStart? || step.Leave?)
    ensures Inv(Apply(s, step))
  {
    var r, i := Apply(s, step), step.task;
    OutstandingUpdate(s.tasks, i, r.tasks[i]);
    SomeOutstanding(s.tasks, i);
    if !s.timedOut {
      EarlierStayDone(s.tasks, i, r.tasks[i], s.phase);
    }
    SameStarts(s.tasks, i, r.tasks[i]);
    OnlyStatusChanged(s, r);
  }

  lemma SameStarts(tasks: seq<Task>, i: nat, t: Task)
    requires i < |tasks| && tasks[i].start == t.start
    ensures StartsOf(tasks[i := t]) == StartsOf(tasks)
  {
  }

  lemma OnlyStatusChanged(s: Barrier, r: Barrier)
    requires Inv(s) && r.plan == s.plan && r.phase == s.phase && r.cursor == s.cursor
    requires r.timedOut == s.timedOut && r.abandoned == s.abandoned && r.uncounted <= r.abandoned
    requires 0 <= r.startTaskNum <= s.startTaskNum
    requires StartsOf(r.tasks) == StartsOf(s.tasks)
    requires Outstanding(r.tasks) + r.uncounted == r.startTaskNum + r.abandoned
    requires !s.timedOut ==> forall t :: t in r.tasks && t.start.phase <= s.phase ==> t.status.Done?
    ensures Inv(r)
  {
  }

  lemma SomeOutstanding(tasks: seq<Task>, i: nat)
    requires i < |tasks| && !tasks[i].status.Done?
    ensures Outstanding(tasks) > 0
  {
    NoneOutstanding(tasks);
    assert tasks[i] in tasks;
  }

  lemma EarlierStayDone(tasks: seq<Task>, i: nat, t: Task, phase: nat)
    requires i < |tasks| && tasks[i].start == t.start && !tasks[i].status.Done?
    requires forall x :: x in tasks && x.start.phase <= phase ==> x.status.Done?
    ensures forall x :: x in tasks[i := t] && x.start.phase <= phase ==> x.status.Done?
  {
    assert tasks[i] in tasks;
    forall x | x in tasks[i := t] && x.start.phase <= phase ensures x.status.Done? {
      var j :| 0 <= j < |tasks| && tasks[i := t][j] == x;
      if j != i { assert tasks[j] in tasks; }
    }
  }

  lemma StepKeeps(s: Barrier, step: Step)
    requires Inv(s) && Enabled(s, step)
    ensures Inv(Apply(s, step))
  {
    match step
    case Submit => SubmitKeeps(s);
    case SkipPhase => NextPhaseKeeps(s, step);
    case WaitReturns => NextPhaseKeeps(s, step);
    case WaitTimesOut => NextPhaseKeeps(s, step);
    case Begin(_) => WorkerKeeps(s, step);
    case FinishStart(_) => WorkerKeeps(s, step);
    case Leave(_) => WorkerKeeps(s, step);
  }

  lemma {:induction false} Reachable(plan: seq<seq<Ability>>, steps: seq<Step>)
    requires Run(plan, steps).Some?
    ensures Inv(Run(plan, steps).value) && Run(plan, steps).value.plan == plan
  {
    if steps == [] {
      if plan != [] { assert Starts(1, plan[0][..0]) == []; }
      assert StartsOf([]) == [];
    } else {
      Reachable(plan, steps[..|steps| - 1]);
      StepKeeps(Run(plan, steps[..|steps| - 1]).value, steps[|steps| - 1]);
    }
  }

  /**
    The counter on every run, timeouts included: it is never negative and never
    exceeds the tasks still outstanding, and the difference is exactly the counter
    values reset by timed-out waits less the tasks that left at zero.  Without a
    timeout the two are equal.
   */
  lemma CounterAndOutstanding(plan: seq<seq<Ability>>, steps: seq<Step>)
    requires Run(plan, steps).Some?
    ensures var s := Run(plan, steps).value;
            && 0 <= s.startTaskNum <= Outstanding(s.tasks)
            && Outstanding(s.tasks) - s.startTaskNum == s.abandoned - s.uncounted
            && (!s.timedOut ==> s.startTaskNum == Outstanding(s.tasks))
  {
    Reachable(plan, steps);
  }

  /**
    The boot-phase barrier: while no wait has timed out, when a task of some phase
    is submitted every start attempt of every earlier phase has finished.
   */
  lemma PhaseBarrier(plan: seq<seq<Ability>>, steps: seq<Step>)
    requires Run(plan, steps + [Submit]).Some? && !Run(plan, steps + [Submit]).value.timedOut
    ensures var s := Run(plan, steps + [Submit]).value;
            var added := s.tasks[|s.tasks| - 1];
            forall t :: t in s.tasks && t.start.phase < added.start.phase ==> t.status.Done?
  {
    assert (steps + [Submit])[..|steps|] == steps;
    Reachable(plan, steps);
    Reachable(plan, steps + [Submit]);
  }

  /**
    The barrier on every run, timeouts included, at the first submission of a
    phase: every task of the earlier phases has finished if and only if as many
    tasks have left at zero as timed-out waits have taken out of the count.
   */
  lemma BarrierExactly(plan: seq<seq<Ability>>, steps: seq<Step>)
    requires Run(plan, steps).Some? && Run(plan, steps).value.cursor == 0
    ensures var s := Run(plan, steps).value;
            && (forall t :: t in s.tasks ==> 1 <= t.start.phase <= s.phase)
            && ((forall t :: t in s.tasks ==> t.status.Done?) <==> s.abandoned == s.uncounted)
  {
    Reachable(plan, steps);
    var s := Run(plan, steps).value;
    NoneOutstanding(s.tasks);
    forall t | t in s.tasks ensures 1 <= t.start.phase <= s.phase {
      var i :| 0 <= i < |s.tasks| && s.tasks[i] == t;
      assert StartsOf(s.tasks)[i] == t.start;
      if s.phase < |s.plan| { assert Starts(s.phase + 1, s.plan[s.phase][..0]) == []; }
      PhasesBelow(s.plan, s.phase, i);
    }
  }

  /**
    What a wait that ends with the counter at zero really shows: all tasks have
    finished if and only if as many tasks have left at zero as timed-out waits have
    taken out of the count.  It is not enough that the given-up tasks themselves
    have left: one that leaves while a later phase is counted lowers that count.
   */
  lemma WaitIsSoundExactly(plan: seq<seq<Ability>>, steps: seq<Step>)
    requires Run(plan, steps).Some? && Enabled(Run(plan, steps).value, WaitReturns)
    ensures var s := Run(plan, steps).value;
            (forall t :: t in s.tasks ==> t.status.Done?) <==> s.abandoned == s.uncounted
  {
    Reachable(plan, steps);
    NoneOutstanding(Run(plan, steps).value.tasks);
  }

  /**
    After one timeout a later wait can end normally too early: the late task of
    phase 1 lowers the counter of phase 2, so phase 3 starts while the task of
    phase 2 has not even begun.
   */
  lemma LateTaskBreaksTheNextBarrier(a: Ability, b: Ability, c: Ability)
    ensures var s := Run([[a], [b], [c]], [Submit, WaitTimesOut, Submit, Begin(0), FinishStart(0), Leave(0), WaitReturns, Submit]);
            && s.Some?
            && s.value.tasks == [Task(Start(1, a), Done), Task(Start(2, b), Queued), Task(Start(3, c), Queued)]
  {
    var plan := [[a], [b], [c]];
    var ta, tb, tc := Start(1, a), Start(2, b), Start(3, c);
    var steps := [Submit, WaitTimesOut, Submit, Begin(0), FinishStart(0), Leave(0), WaitReturns, Submit];
    var s4 := Barrier(plan, 1, 1, 1, [Task(ta, Running), Task(tb, Queued)], true, 1, 0);
    WaitGivesUp(plan, steps, ta, tb);
    LateTaskLeaves(plan, steps, ta, tb, s4);
    var s7 := s4.(tasks := [Task(ta, Done), Task(tb, Queued)], startTaskNum := 0, phase := 2, cursor := 0);
    var s8 := s7.(cursor := 1, startTaskNum := 1, tasks := [Task(ta, Done), Task(tb, Queued), Task(tc, Queued)]);
    assert s7.tasks + [Task(tc, Queued)] == s8.tasks;
    Extend(plan, steps, 7, s7, s8);
    assert steps[..8] == steps;
  }

  /** The wait for phase 1 times out before its task has begun, and phase 2 is submitted. */
  lemma WaitGivesUp(plan: seq<seq<Ability>>, steps: seq<Step>, ta: Start, tb: Start)
    requires |plan| == 3 && plan[0] == [ta.ability] && plan[1] == [tb.ability] && ta.phase == 1 && tb.phase == 2
    requires |steps| >= 4 && steps[0] == Submit && steps[1] == WaitTimesOut && steps[2] == Submit && steps[3] == Begin(0)
    ensures Run(plan, steps[..4]) == Some(Barrier(plan, 1, 1, 1, [Task(ta, Running), Task(tb, Queued)], true, 1, 0))
  {
    var s1 := Barrier(plan, 0, 1, 1, [Task(ta, Queued)], false, 0, 0);
    assert Initial(plan).tasks + [Task(ta, Queued)] == s1.tasks;
    Extend(plan, steps, 0, Initial(plan), s1);
    var s2 := Barrier(plan, 1, 0, 0, [Task(ta, Queued)], true, 1, 0);
    Extend(plan, steps, 1, s1, s2);
    var s3 := Barrier(plan, 1, 1, 1, [Task(ta, Queued), Task(tb, Queued)], true, 1, 0);
    assert s2.tasks + [Task(tb, Queued)] == s3.tasks;
    Extend(plan, steps, 2, s2, s3);
    var s4 := s3.(tasks := [Task(ta, Running), Task(tb, Queued)]);
    assert s3.tasks[0 := Task(ta, Running)] == s4.tasks;
    Extend(plan, steps, 3, s3, s4);
  }

  /** The late task leaves and takes the counter of the running phase down to zero. */
  lemma LateTaskLeaves(plan: seq<seq<Ability>>, steps: seq<Step>, ta: Start, tb: Start, s4: Barrier)
    requires |plan| == 3 && |plan[1]| == 1 && |steps| >= 7
    requires steps[4] == FinishStart(0) && steps[5] == Leave(0) && steps[6] == WaitReturns
    requires s4 == Barrier(plan, 1, 1, 1, [Task(ta, Running), Task(tb, Queued)], true, 1, 0)
    requires Run(plan, steps[..4]) == Some(s4)
    ensures Run(plan, steps[..7])
         == Some(Barrier(plan, 2, 0, 0, [Task(ta, Done), Task(tb, Queued)], true, 1, 0))
  {
    var s5 := s4.(tasks := [Task(ta, Attempted), Task(tb, Queued)]);
    assert s4.tasks[0 := Task(ta, Attempted)] == s5.tasks;
    Extend(plan, steps, 4, s4, s5);
    var s6 := s4.(tasks := [Task(ta, Done), Task(tb, Queued)], startTaskNum := 0);
    assert s5.tasks[0 := Task(ta, Done)] == s6.tasks;
    Extend(plan, steps, 5, s5, s6);
    Extend(plan, steps, 6, s6, s6.(phase := 2, cursor := 0));
  }

  lemma Extend(plan: seq<seq<Ability>>, steps: seq<Step>, n: nat, s: Barrier, s': Barrier)
    requires n < |steps| && Run(plan, steps[..n]) == Some(s)
    requires Enabled(s, steps[n]) && Apply(s, steps[n]) == s'
    ensures Run(plan, steps[..n + 1]) == Some(s')
  {
    assert steps[..n + 1][..n] == steps[..n];
  }

  /**
    Completeness and order over every interleaving: the submitted tasks are always
    a prefix of the plan, and all of it once the main thread is past the last phase.
   */
  lemma SubmittedInPlanOrder(plan: seq<seq<Ability>>, steps: seq<Step>)
    requires Run(plan, steps).Some?
    ensures var s := Run(plan, steps).value;
            && StartsOf(s.tasks) <= AllStarts(plan, |plan|)
            && (s.phase == |plan| ==> StartsOf(s.tasks) == AllStarts(plan, |plan|))
  {
    Reachable(plan, steps);
    var s := Run(plan, steps).value;
    if s.phase < |plan| {
      StartsPrefix(s.phase + 1, plan[s.phase], s.cursor);
      AllStartsGrow(plan, s.phase + 1, |plan|);
    }
  }

  lemma StartsPrefix(phase: nat, l: seq<Ability>, n: nat)
    requires n <= |l|
    ensures Starts(phase, l[..n]) <= Starts(phase, l)
  {
  }

  lemma {:induction false} AllStartsGrow(plan: seq<seq<Ability>>, m: nat, n: nat)
    requires m <= n <= |plan|
    ensures AllStarts(plan, m) <= AllStarts(plan, n)
  {
    if m < n { AllStartsGrow(plan, m, n - 1); }
  }
}
