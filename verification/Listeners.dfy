/**
  The system ability listeners of LocalAbilityManager.  Each call takes the
  listener lock once and may then call the system ability manager (samgr) or the
  listeners without the lock, so a run interleaves lock sections and samgr calls.
 */
module Listeners {
  import opened Options
  import opened Selection

  datatype ListenerState = INIT | NOTIFIED
  datatype Listener = Listener(id: int, state: ListenerState)
  type ListenerMap = map<int, seq<Listener>>

  datatype Kind = OnAdd | OnRemove

  // ---------- The lock sections ----------

  function ListOf(m: ListenerMap, sa: int): seq<Listener> {
    if sa in m then m[sa] else []
  }

  /** std::find_if on the listener id; the length of the list when it is not there. */
  function IndexOf(list: seq<Listener>, id: int): (i: nat)
    ensures i <= |list|
    ensures i < |list| ==> list[i].id == id
    ensures forall j :: 0 <= j < i ==> list[j].id != id
  {
    if list == [] then 0 else if list[0].id == id then 0 else 1 + IndexOf(list[1..], id)
  }

  /** The state of the listener with this id, if it is in the list. */
  function StateOf(list: seq<Listener>, id: int): Option<ListenerState> {
    if list == [] then None else if list[0].id == id then Some(list[0].state) else StateOf(list[1..], id)
  }

  /** An ability with other listeners that samgr already knows: the new listener is told at once. */
  predicate NeedNotify(list: seq<Listener>, present: bool) {
    |list| > 0 && present
  }

  function Added(list: seq<Listener>, id: int, present: bool): seq<Listener> {
    if StateOf(list, id).Some? then list
    else list + [Listener(id, if NeedNotify(list, present) then NOTIFIED else INIT)]
  }

  function Erased(list: seq<Listener>, id: int): seq<Listener> {
    var i := IndexOf(list, id);
    if i < |list| then list[..i] + list[i + 1..] else list
  }

  function WithList(m: ListenerMap, sa: int, list: seq<Listener>): ListenerMap {
    if list == [] then m - {sa} else m[sa := list]
  }

  /** The state every listener is in after a status change of its ability. */
  function StateAfter(kind: Kind): ListenerState {
    if kind == OnAdd then NOTIFIED else INIT
  }

  ghost function Changed(list: seq<Listener>, kind: Kind): seq<Listener> {
    seq(|list|, i requires 0 <= i < |list| => list[i].(state := StateAfter(kind)))
  }

  /** Whom a status change notifies: on add the ones not notified yet, on remove everyone. */
  predicate IsTold(state: ListenerState, kind: Kind) {
    kind == OnRemove || state == INIT
  }

  ghost function Told(list: seq<Listener>, kind: Kind): seq<int> {
    if list == [] then []
    else
      var n := |list| - 1;
      Told(list[..n], kind) + (if IsTold(list[n].state, kind) then [list[n].id] else [])
  }

  // ---------- The steps ----------

  datatype SamgrCall = Subscribe(sa: int) | Unsubscribe(sa: int)

  /** The listener map, the abilities subscribed at samgr, and the samgr calls still to be made. */
  datatype Manager = Manager(listeners: ListenerMap, subscribed: set<int>, pending: multiset<SamgrCall>)

  datatype Step =
    | AddListener(sa: int, id: int, present: bool)
    | RemoveListener(sa: int, id: int)
    | StatusChange(sa: int, kind: Kind)
    | Samgr(call: SamgrCall, ok: bool)

  const INITIAL := Manager(map[], {}, multiset{})

  predicate Enabled(s: Manager, step: Step) {
    step.Samgr? ==> step.call in s.pending
  }

  ghost function Apply(s: Manager, step: Step): Manager {
    match step
    case AddListener(sa, id, present) =>
      var list := Added(ListOf(s.listeners, sa), id, present);
      Manager(s.listeners[sa := list], s.subscribed,
              if |list| > 1 then s.pending else s.pending + multiset{Subscribe(sa)})
    case RemoveListener(sa, id) =>
      if sa !in s.listeners then s
      else
        var list := Erased(s.listeners[sa], id);
        Manager(WithList(s.listeners, sa, list), s.subscribed,
                if list != [] then s.pending else s.pending + multiset{Unsubscribe(sa)})
    case StatusChange(sa, kind) =>
      if sa in s.listeners then s.(listeners := s.listeners[sa := Changed(s.listeners[sa], kind)]) else s
    case Samgr(call, ok) =>
      s.(pending := s.pending - multiset{call},
         subscribed := if !ok then s.subscribed
                       else if call.Subscribe? then s.subscribed + {call.sa}
                       else s.subscribed - {call.sa})
  }

  ghost function Run(steps: seq<Step>): Option<Manager> {
    if steps == [] then Some(INITIAL)
    else
      var s := Run(steps[..|steps| - 1]);
      if s.Some? && Enabled(s.value, steps[|steps| - 1]) then Some(Apply(s.value, steps[|steps| - 1])) else None
  }

  // ---------- The map is well formed under every interleaving ----------

  ghost predicate DistinctIds(list: seq<Listener>) {
    forall i, j :: 0 <= i < j < |list| ==> list[i].id != list[j].id
  }

  ghost predicate WellFormed(m: ListenerMap) {
    forall sa :: sa in m ==> m[sa] != [] && DistinctIds(m[sa])
  }

  lemma StepWellFormed(s: Manager, step: Step)
    requires WellFormed(s.listeners)
    ensures WellFormed(Apply(s, step).listeners)
  {
    match step
    case AddListener(sa, id, present) =>
      var list := ListOf(s.listeners, sa);
      AddedState(list, id, present, id);
    case RemoveListener(sa, id) =>
      if sa in s.listeners { assert DistinctIds(Erased(s.listeners[sa], id)); }
    case StatusChange(sa, kind) =>
    case Samgr(_, _) =>
  }

  /** Under every interleaving each ability in the map has listeners, with distinct ids. */
  lemma {:induction false} AlwaysWellFormed(steps: seq<Step>)
    requires Run(steps).Some?
    ensures WellFormed(Run(steps).value.listeners)
  {
    if steps != [] {
      AlwaysWellFormed(steps[..|steps| - 1]);
      StepWellFormed(Run(steps[..|steps| - 1]).value, steps[|steps| - 1]);
    }
  }

  // ---------- Alternation of add and remove notifications ----------

  /** What a step decides about one listener of one ability. */
  datatype PairEvent = Pushed | ErasedPair | Decided(kind: Kind)

  ghost function Events(m: ListenerMap, step: Step, sa: int, id: int): seq<PairEvent> {
    var list := ListOf(m, sa);
    var state := StateOf(list, id);
    match step
    case AddListener(a, l, present) =>
      if a != sa || l != id then []
      else if state.None? then (if NeedNotify(list, present) then [Pushed, Decided(OnAdd)] else [Pushed])
      else if NeedNotify(list, present) && |list| > 1 then [Decided(OnAdd)] else []
    case RemoveListener(a, l) => if a == sa && l == id && state.Some? then [ErasedPair] else []
    case StatusChange(a, kind) =>
      if a == sa && state.Some? && IsTold(state.value, kind) then [Decided(kind)] else []
    case Samgr(_, _) => []
  }

  /** The first listener of an ability is not told by its own Add, whether or not the ability is present; the next add of the ability tells it. */
  lemma FirstListenerWaits(s: Manager, sa: int, id: int, present: bool)
    requires sa !in s.listeners
    ensures var t := Apply(s, AddListener(sa, id, present));
            && t.listeners == s.listeners[sa := [Listener(id, INIT)]]
            && Events(s.listeners, AddListener(sa, id, present), sa, id) == [Pushed]
            && Events(t.listeners, StatusChange(sa, OnAdd), sa, id) == [Decided(OnAdd)]
            && Told(t.listeners[sa], OnAdd) == [id]
  {
    assert [] + [Listener(id, INIT)] == [Listener(id, INIT)];
    assert [Listener(id, INIT)][..0] == [];
    assert Told([Listener(id, INIT)][..0], OnAdd) == [];
  }

  /** Over every interleaving, an Add tells its listener exactly when the ability is present and another listener of it is registered. */
  lemma AddTellsExactly(steps: seq<Step>, sa: int, id: int, present: bool)
    requires Run(steps).Some?
    ensures var m := Run(steps).value.listeners;
            Decided(OnAdd) in Events(m, AddListener(sa, id, present), sa, id) <==>
            present && exists other :: other != id && Registered(ListOf(m, sa), other)
  {
    AlwaysWellFormed(steps);
    OthersRegistered(ListOf(Run(steps).value.listeners, sa), id);
  }

  ghost predicate Registered(list: seq<Listener>, id: int) {
    exists i :: 0 <= i < |list| && list[i].id == id
  }

  /** Another listener is in the list exactly when the list is longer than the registration of `id` makes it. */
  lemma OthersRegistered(list: seq<Listener>, id: int)
    requires DistinctIds(list)
    ensures (exists other :: other != id && Registered(list, other)) <==>
            |list| > if StateOf(list, id).Some? then 1 else 0
  {
    AbsentState(list, id);
    forall other | other != id && Registered(list, other)
      ensures |list| > if StateOf(list, id).Some? then 1 else 0
    {
      var i :| 0 <= i < |list| && list[i].id == other;
    }
    if |list| > (if StateOf(list, id).Some? then 1 else 0) {
      var i := if list[0].id != id then 0 else 1;
      assert list[i].id != id && Registered(list, list[i].id);
    }
  }

  /** The last notification decided in the current registration. */
  ghost function Last(trace: seq<PairEvent>): Option<Kind> {
    if trace == [] then None
    else
      match trace[|trace| - 1]
      case Pushed => None
      case ErasedPair => None
      case Decided(kind) => Some(kind)
  }

  ghost function Trace(steps: seq<Step>, sa: int, id: int): seq<PairEvent> {
    if steps == [] then []
    else
      var pre := steps[..|steps| - 1];
      Trace(pre, sa, id)
        + (if Run(pre).Some? then Events(Run(pre).value.listeners, steps[|steps| - 1], sa, id) else [])
  }

  /** A repeated Add of a registered pair that notifies the listener again. */
  ghost predicate RepeatedNotify(m: ListenerMap, step: Step, sa: int, id: int) {
    step.AddListener? && step.sa == sa && step.id == id
    && StateOf(ListOf(m, sa), id).Some? && |ListOf(m, sa)| > 1 && step.present
  }

  /** A registered listener is NOTIFIED exactly when the last decision for it was an add. */
  ghost predicate Tied(m: ListenerMap, last: Option<Kind>, sa: int, id: int) {
    var state := StateOf(ListOf(m, sa), id);
    state.Some? ==> (state.value == NOTIFIED <==> last == Some(OnAdd))
  }

  /** The step keeps the tie and does not decide an add right after an add. */
  ghost predicate KeepsAlternation(s: Manager, last: Option<Kind>, step: Step, sa: int, id: int) {
    var events := Events(s.listeners, step, sa, id);
    && Tied(Apply(s, step).listeners, if events == [] then last else Last(events), sa, id)
    && (Decided(OnAdd) in events && Pushed !in events ==> last != Some(OnAdd))
  }

  // How each lock section changes the state of one listener.

  lemma {:induction false} AppendState(list: seq<Listener>, x: Listener, other: int)
    ensures StateOf(list + [x], other) ==
      if StateOf(list, other).Some? then StateOf(list, other) else if x.id == other then Some(x.state) else None
  {
    if list == [] {
      assert list + [x] == [x];
    } else {
      assert (list + [x])[1..] == list[1..] + [x];
      AppendState(list[1..], x, other);
    }
  }

  lemma {:induction false} AbsentState(list: seq<Listener>, id: int)
    ensures StateOf(list, id).None? <==> forall i :: 0 <= i < |list| ==> list[i].id != id
    ensures StateOf(list, id).None? <==> IndexOf(list, id) == |list|
  {
    if list != [] {
      AbsentState(list[1..], id);
      if StateOf(list, id).None? {
        forall i | 0 <= i < |list| ensures list[i].id != id {
          if i > 0 { assert list[i] == list[1..][i - 1]; }
        }
      }
    }
  }

  lemma AddedState(list: seq<Listener>, id: int, present: bool, other: int)
    requires DistinctIds(list)
    ensures DistinctIds(Added(list, id, present))
    ensures StateOf(Added(list, id, present), other) ==
      if other == id && StateOf(list, id).None? then Some(if NeedNotify(list, present) then NOTIFIED else INIT)
      else StateOf(list, other)
  {
    AppendState(list, Listener(id, if NeedNotify(list, present) then NOTIFIED else INIT), other);
    AbsentState(list, id);
  }

  lemma {:induction false} ErasedState(list: seq<Listener>, id: int, other: int)
    requires DistinctIds(list)
    ensures StateOf(Erased(list, id), other) == if other == id then None else StateOf(list, other)
  {
    if list != [] {
      ErasedFirst(list, id);
      if list[0].id == id {
        AbsentState(list[1..], id);
      } else {
        ErasedState(list[1..], id, other);
        assert Erased(list, id)[1..] == Erased(list[1..], id);
      }
    }
  }

  lemma ErasedFirst(list: seq<Listener>, id: int)
    requires list != []
    ensures Erased(list, id) == if list[0].id == id then list[1..] else [list[0]] + Erased(list[1..], id)
  {
    if list[0].id != id {
      var i := IndexOf(list[1..], id);
      assert IndexOf(list, id) == i + 1;
      if i + 1 < |list| {
        CutShift(list, i);
      } else {
        assert list == [list[0]] + list[1..];
      }
    }
  }

  lemma CutShift(list: seq<Listener>, i: nat)
    requires i + 1 < |list|
    ensures list[..i + 1] + list[i + 2..] == [list[0]] + (list[1..][..i] + list[1..][i + 1..])
  {
  }

  lemma {:induction false} ChangedState(list: seq<Listener>, kind: Kind, id: int)
    ensures StateOf(Changed(list, kind), id) == if StateOf(list, id).Some? then Some(StateAfter(kind)) else None
  {
    if list != [] {
      ChangedState(list[1..], kind, id);
      assert Changed(list, kind)[1..] == Changed(list[1..], kind);
    }
  }

  /**
    One step, from any well-formed state: alternation is kept for a pair if and
    only if the step is not a repeated Add of that pair that notifies it again.
   */
  lemma AlternationExactly(s: Manager, last: Option<Kind>, step: Step, sa: int, id: int)
    requires WellFormed(s.listeners) && Tied(s.listeners, last, sa, id)
    ensures KeepsAlternation(s, last, step, sa, id) <==> !RepeatedNotify(s.listeners, step, sa, id)
  {
    match step
    case AddListener(_, _, _) => AddAlternation(s, last, step, sa, id);
    case RemoveListener(_, _) => RemoveAlternation(s, last, step, sa, id);
    case StatusChange(_, _) => StatusAlternation(s, last, step, sa, id);
    case Samgr(_, _) =>
  }

  lemma AddAlternation(s: Manager, last: Option<Kind>, step: Step, sa: int, id: int)
    requires WellFormed(s.listeners) && Tied(s.listeners, last, sa, id) && step.AddListener?
    ensures KeepsAlternation(s, last, step, sa, id) <==> !RepeatedNotify(s.listeners, step, sa, id)
  {
    var list := ListOf(s.listeners, sa);
    assert DistinctIds(list);
    if step.sa == sa { AddedState(list, step.id, step.present, id); }
  }

  lemma RemoveAlternation(s: Manager, last: Option<Kind>, step: Step, sa: int, id: int)
    requires WellFormed(s.listeners) && Tied(s.listeners, last, sa, id) && step.RemoveListener?
    ensures KeepsAlternation(s, last, step, sa, id)
  {
    if step.sa == sa && sa in s.listeners { ErasedState(s.listeners[sa], step.id, id); }
  }

  lemma StatusAlternation(s: Manager, last: Option<Kind>, step: Step, sa: int, id: int)
    requires WellFormed(s.listeners) && Tied(s.listeners, last, sa, id) && step.StatusChange?
    ensures KeepsAlternation(s, last, step, sa, id)
  {
    if step.sa == sa && sa in s.listeners { ChangedState(s.listeners[sa], step.kind, id); }
  }

  /** No step of the run repeats an Add of the pair in a way that notifies it again. */
  ghost predicate NeverRepeats(steps: seq<Step>, sa: int, id: int) {
    if steps == [] then true
    else
      var pre := steps[..|steps| - 1];
      && NeverRepeats(pre, sa, id)
      && (Run(pre).Some? ==> !RepeatedNotify(Run(pre).value.listeners, steps[|steps| - 1], sa, id))
  }

  /** Whenever the trace decides an add, the decision before it in the same registration was not an add. */
  ghost predicate Alternates(trace: seq<PairEvent>) {
    forall j :: 0 <= j < |trace| && trace[j] == Decided(OnAdd) ==> Last(trace[..j]) != Some(OnAdd)
  }

  lemma {:induction false} RunAlternates(steps: seq<Step>, sa: int, id: int)
    requires Run(steps).Some? && NeverRepeats(steps, sa, id)
    ensures Tied(Run(steps).value.listeners, Last(Trace(steps, sa, id)), sa, id)
    ensures Alternates(Trace(steps, sa, id))
  {
    if steps != [] {
      var pre, step := steps[..|steps| - 1], steps[|steps| - 1];
      RunAlternates(pre, sa, id);
      AlwaysWellFormed(pre);
      var s, t := Run(pre).value, Trace(pre, sa, id);
      AlternationExactly(s, Last(t), step, sa, id);
      AppendAlternates(t, Events(s.listeners, step, sa, id));
    }
  }

  ghost predicate AlternatesThroughout(steps: seq<Step>, sa: int, id: int) {
    if steps == [] then true
    else
      var pre := steps[..|steps| - 1];
      && AlternatesThroughout(pre, sa, id)
      && (Run(pre).Some? ==> KeepsAlternation(Run(pre).value, Last(Trace(pre, sa, id)), steps[|steps| - 1], sa, id))
  }

  /** Over every interleaving: every step of a run keeps alternation for a pair if and only if none is a repeated notifying Add of it. */
  lemma {:induction false} AlternationOverRuns(steps: seq<Step>, sa: int, id: int)
    requires Run(steps).Some?
    ensures AlternatesThroughout(steps, sa, id) <==> NeverRepeats(steps, sa, id)
  {
    if steps != [] {
      var pre := steps[..|steps| - 1];
      AlternationOverRuns(pre, sa, id);
      AlwaysWellFormed(pre);
      if NeverRepeats(pre, sa, id) {
        RunAlternates(pre, sa, id);
        AlternationExactly(Run(pre).value, Last(Trace(pre, sa, id)), steps[|steps| - 1], sa, id);
      }
    }
  }

  lemma AppendAlternates(t: seq<PairEvent>, events: seq<PairEvent>)
    requires Alternates(t)
    requires events in [[], [Pushed], [ErasedPair], [Decided(OnAdd)], [Decided(OnRemove)], [Pushed, Decided(OnAdd)]]
    requires Decided(OnAdd) in events && Pushed !in events ==> Last(t) != Some(OnAdd)
    ensures Alternates(t + events)
    ensures Last(t + events) == if events == [] then Last(t) else Last(events)
  {
    var r := t + events;
    forall j | 0 <= j < |r| && r[j] == Decided(OnAdd) ensures Last(r[..j]) != Some(OnAdd) {
      if j < |t| {
        assert r[..j] == t[..j];
      } else if j == |t| {
        assert r[..j] == t;
        assert r[j] == events[0];
      } else {
        assert r[..j][|r[..j]| - 1] == events[0];
      }
    }
  }

  /**
    Add/remove alternation over every interleaving of lock sections: within one
    registration, between two add decisions there is a remove decision.
   */
  lemma AddsAlternateWithRemoves(steps: seq<Step>, sa: int, id: int, i: nat, j: nat) returns (k: nat)
    requires Run(steps).Some? && NeverRepeats(steps, sa, id)
    requires var t := Trace(steps, sa, id);
             && i < j < |t| && t[i] == Decided(OnAdd) && t[j] == Decided(OnAdd)
             && forall n :: i < n < j ==> t[n] != Pushed && t[n] != ErasedPair
    ensures i < k < j && Trace(steps, sa, id)[k] == Decided(OnRemove)
  {
    RunAlternates(steps, sa, id);
    k := RemoveBetween(Trace(steps, sa, id), i, j);
  }

  lemma RemoveBetween(t: seq<PairEvent>, i: nat, j: nat) returns (k: nat)
    requires Alternates(t)
    requires i < j < |t| && t[i] == Decided(OnAdd) && t[j] == Decided(OnAdd)
    requires forall n :: i < n < j ==> t[n] != Pushed && t[n] != ErasedPair
    ensures i < k < j && t[k] == Decided(OnRemove)
  {
    k := j - 1;
    assert t[j] == Decided(OnAdd) && Last(t[..j]) != Some(OnAdd);
    assert |t[..j]| == j && t[..j][j - 1] == t[k];
    assert t[k] != Decided(OnAdd);
    assert i < k;
    assert t[k].Decided?;
    assert t[k].kind != OnAdd;
  }

  /** A registered pair in INIT that a repeated Add has told of the add since its last push or status change. */
  ghost predicate Ahead(steps: seq<Step>, sa: int, id: int) {
    if steps == [] then false
    else
      var pre := steps[..|steps| - 1];
      Run(pre).Some? && AheadAfter(Run(pre).value.listeners, Ahead(pre, sa, id), steps[|steps| - 1], sa, id)
  }

  ghost predicate AheadAfter(m: ListenerMap, ahead: bool, step: Step, sa: int, id: int) {
    if RepeatedNotify(m, step, sa, id) then StateOf(ListOf(m, sa), id) == Some(INIT)
    else if step.StatusChange? && step.sa == sa then false
    else if step.RemoveListener? && step.sa == sa && step.id == id then false
    else ahead
  }

  /** A repeated Add that tells a pair already told, or a status change that tells a pair a repeated Add told before. */
  ghost predicate TellsTwice(m: ListenerMap, ahead: bool, step: Step, sa: int, id: int) {
    || (RepeatedNotify(m, step, sa, id) && (ahead || StateOf(ListOf(m, sa), id) == Some(NOTIFIED)))
    || (step == StatusChange(sa, OnAdd) && ahead)
  }

  ghost predicate NeverTellsTwice(steps: seq<Step>, sa: int, id: int) {
    if steps == [] then true
    else
      var pre := steps[..|steps| - 1];
      && NeverTellsTwice(pre, sa, id)
      && (Run(pre).Some? ==> !TellsTwice(Run(pre).value.listeners, Ahead(pre, sa, id), steps[|steps| - 1], sa, id))
  }

  /** The last decision was an add exactly for a pair that is NOTIFIED or ahead. */
  ghost predicate LastFits(m: ListenerMap, ahead: bool, last: Option<Kind>, sa: int, id: int) {
    var state := StateOf(ListOf(m, sa), id);
    && (ahead ==> state == Some(INIT))
    && (last == Some(OnAdd) <==> state == Some(NOTIFIED) || ahead)
  }

  /** The step keeps the fit, and decides an add right after an add exactly when it tells the pair twice. */
  ghost predicate KeepsFit(s: Manager, ahead: bool, last: Option<Kind>, step: Step, sa: int, id: int) {
    var events := Events(s.listeners, step, sa, id);
    var again := Decided(OnAdd) in events && Pushed !in events && last == Some(OnAdd);
    && LastFits(Apply(s, step).listeners, AheadAfter(s.listeners, ahead, step, sa, id),
                if events == [] then last else Last(events), sa, id)
    && (again <==> TellsTwice(s.listeners, ahead, step, sa, id))
  }

  lemma AddFits(s: Manager, ahead: bool, last: Option<Kind>, step: Step, sa: int, id: int)
    requires WellFormed(s.listeners) && LastFits(s.listeners, ahead, last, sa, id) && step.AddListener?
    ensures KeepsFit(s, ahead, last, step, sa, id)
  {
    var list := ListOf(s.listeners, sa);
    assert DistinctIds(list);
    if step.sa == sa {
      AddedState(list, step.id, step.present, id);
      assert ListOf(Apply(s, step).listeners, sa) == Added(list, step.id, step.present);
      assert Last([Pushed]) == None && Last([Decided(OnAdd)]) == Some(OnAdd) && Last([Pushed, Decided(OnAdd)]) == Some(OnAdd);
      var state := StateOf(list, id);
      assert state.Some? ==> state.value == INIT || state.value == NOTIFIED;
    }
  }

  lemma RemoveFits(s: Manager, ahead: bool, last: Option<Kind>, step: Step, sa: int, id: int)
    requires WellFormed(s.listeners) && LastFits(s.listeners, ahead, last, sa, id) && step.RemoveListener?
    ensures KeepsFit(s, ahead, last, step, sa, id)
  {
    if step.sa == sa && sa in s.listeners { ErasedState(s.listeners[sa], step.id, id); }
  }

  lemma StatusFits(s: Manager, ahead: bool, last: Option<Kind>, step: Step, sa: int, id: int)
    requires WellFormed(s.listeners) && LastFits(s.listeners, ahead, last, sa, id) && step.StatusChange?
    ensures KeepsFit(s, ahead, last, step, sa, id)
  {
    if step.sa == sa && sa in s.listeners { ChangedState(s.listeners[sa], step.kind, id); }
  }

  /**
    The trace itself, over every interleaving: an add decision never directly
    follows an add decision of the same registration if and only if no step tells
    the pair twice.  A repeated Add of a pair in INIT does not by itself break the
    trace; the next add decision does, unless a remove or an erase comes first.
   */
  lemma {:induction false} TraceAlternatesExactly(steps: seq<Step>, sa: int, id: int)
    requires Run(steps).Some?
    ensures LastFits(Run(steps).value.listeners, Ahead(steps, sa, id), Last(Trace(steps, sa, id)), sa, id)
    ensures Alternates(Trace(steps, sa, id)) <==> NeverTellsTwice(steps, sa, id)
  {
    if steps != [] {
      var pre, step := steps[..|steps| - 1], steps[|steps| - 1];
      TraceAlternatesExactly(pre, sa, id);
      AlwaysWellFormed(pre);
      var s, t := Run(pre).value, Trace(pre, sa, id);
      EveryStepFits(s, Ahead(pre, sa, id), Last(t), step, sa, id);
      AppendAlternatesExactly(t, Events(s.listeners, step, sa, id));
    }
  }

  lemma EveryStepFits(s: Manager, ahead: bool, last: Option<Kind>, step: Step, sa: int, id: int)
    requires WellFormed(s.listeners) && LastFits(s.listeners, ahead, last, sa, id)
    ensures KeepsFit(s, ahead, last, step, sa, id)
  {
    match step
    case AddListener(_, _, _) => AddFits(s, ahead, last, step, sa, id);
    case RemoveListener(_, _) => RemoveFits(s, ahead, last, step, sa, id);
    case StatusChange(_, _) => StatusFits(s, ahead, last, step, sa, id);
    case Samgr(_, _) =>
  }

  lemma AppendAlternatesExactly(t: seq<PairEvent>, events: seq<PairEvent>)
    requires events in [[], [Pushed], [ErasedPair], [Decided(OnAdd)], [Decided(OnRemove)], [Pushed, Decided(OnAdd)]]
    ensures Alternates(t + events) <==>
      Alternates(t) && !(Decided(OnAdd) in events && Pushed !in events && Last(t) == Some(OnAdd))
    ensures Last(t + events) == if events == [] then Last(t) else Last(events)
  {
    if Alternates(t + events) {
      PrefixAlternates(t, events);
    } else if Alternates(t) && !(Decided(OnAdd) in events && Pushed !in events && Last(t) == Some(OnAdd)) {
      AppendAlternates(t, events);
    }
    if events != [] {
      assert (t + events)[|t + events| - 1] == events[|events| - 1];
    } else {
      assert t + events == t;
    }
  }

  lemma PrefixAlternates(t: seq<PairEvent>, events: seq<PairEvent>)
    requires Alternates(t + events)
    ensures Alternates(t)
    ensures events != [] && events[0] == Decided(OnAdd) ==> Last(t) != Some(OnAdd)
  {
    var r := t + events;
    forall j | 0 <= j < |t| && t[j] == Decided(OnAdd) ensures Last(t[..j]) != Some(OnAdd) {
      assert r[j] == t[j] && r[..j] == t[..j];
    }
    if events != [] {
      assert r[|t|] == events[0] && r[..|t|] == t;
    }
  }

  /** A repeated notifying Add after which the trace still alternates. */
  lemma RepeatedAddOfUntoldPair(sa: int, a: int, b: int)
    requires a != b
    ensures var steps := [AddListener(sa, a, false), AddListener(sa, b, false), AddListener(sa, b, true)];
            Trace(steps, sa, b) == [Pushed, Decided(OnAdd)]
  {
    var steps := [AddListener(sa, a, false), AddListener(sa, b, false), AddListener(sa, b, true)];
    var l1, l2 := [Listener(a, INIT)], [Listener(a, INIT), Listener(b, INIT)];
    assert StateOf(l1, b) == None && StateOf(l2, b) == Some(INIT);
    assert [] + [Listener(a, INIT)] == l1 && l1 + [Listener(b, INIT)] == l2;
    var s1 := Manager(map[sa := l1], {}, multiset{Subscribe(sa)});
    Extend(steps, 0, INITIAL, s1);
    Extend(steps, 1, s1, s1.(listeners := map[sa := l2]));
    assert steps[..1][..0] == [] && steps[..2][..1] == steps[..1] && steps[..3][..2] == steps[..2] && steps[..3] == steps;
    assert Trace(steps[..1], sa, b) == [];
    assert Trace(steps[..2], sa, b) == [Pushed];
  }

  /** Repeating an Add breaks alternation: two add decisions with nothing in between. */
  lemma RepeatedAddNotifiesTwice(sa: int, a: int, b: int)
    requires a != b
    ensures var steps := [AddListener(sa, a, false), AddListener(sa, b, true), AddListener(sa, b, true)];
            Trace(steps, sa, b) == [Pushed, Decided(OnAdd), Decided(OnAdd)]
  {
    var steps := [AddListener(sa, a, false), AddListener(sa, b, true), AddListener(sa, b, true)];
    var l1, l2 := [Listener(a, INIT)], [Listener(a, INIT), Listener(b, NOTIFIED)];
    assert StateOf(l1, b) == None && StateOf(l2, b) == Some(NOTIFIED);
    assert [] + [Listener(a, INIT)] == l1 && l1 + [Listener(b, NOTIFIED)] == l2;
    var s1 := Manager(map[sa := l1], {}, multiset{Subscribe(sa)});
    Extend(steps, 0, INITIAL, s1);
    Extend(steps, 1, s1, s1.(listeners := map[sa := l2]));
    assert steps[..1][..0] == [] && steps[..2][..1] == steps[..1] && steps[..3][..2] == steps[..2] && steps[..3] == steps;
    assert Trace(steps[..1], sa, b) == [];
    assert Trace(steps[..2], sa, b) == [Pushed, Decided(OnAdd)];
  }

  // ---------- Subscription at samgr ----------

  ghost predicate Quiet(s: Manager, sa: int) {
    Subscribe(sa) !in s.pending && Unsubscribe(sa) !in s.pending
  }

  /** Listener calls on `sa` do not overlap: none takes the lock while a samgr call for `sa` is still to be made. */
  ghost predicate Serialized(steps: seq<Step>, sa: int) {
    if steps == [] then true
    else
      var pre, step := steps[..|steps| - 1], steps[|steps| - 1];
      && Serialized(pre, sa)
      && (Run(pre).Some? && (step.AddListener? || step.RemoveListener?) && step.sa == sa ==> Quiet(Run(pre).value, sa))
  }

  ghost predicate SamgrSucceeds(steps: seq<Step>, sa: int) {
    forall step :: step in steps && step.Samgr? && step.call.sa == sa ==> step.ok
  }

  /** Whether the last samgr call a lock section decided on for `sa` is a subscription. */
  ghost function Decides(decided: bool, m: ListenerMap, step: Step, sa: int): bool {
    match step
    case AddListener(a, id, present) => if a == sa && |Added(ListOf(m, sa), id, present)| <= 1 then true else decided
    case RemoveListener(a, id) => if a == sa && sa in m && Erased(m[sa], id) == [] then false else decided
    case _ => decided
  }

  ghost predicate LastDecided(steps: seq<Step>, sa: int) {
    if steps == [] then false
    else
      var pre := steps[..|steps| - 1];
      Decides(LastDecided(pre, sa), if Run(pre).Some? then Run(pre).value.listeners else map[], steps[|steps| - 1], sa)
  }

  /** Whether the last samgr call that succeeded for `sa` is a subscription. */
  ghost function Makes(made: bool, step: Step, sa: int): bool {
    if step.Samgr? && step.call.sa == sa && step.ok then step.call.Subscribe? else made
  }

  ghost predicate LastMade(steps: seq<Step>, sa: int) {
    steps != [] && Makes(LastMade(steps[..|steps| - 1], sa), steps[|steps| - 1], sa)
  }

  /** One step: which abilities have listeners and are subscribed follows the calls decided and made. */
  lemma StepDecides(s: Manager, step: Step, sa: int)
    requires WellFormed(s.listeners) && Enabled(s, step)
    ensures sa in Apply(s, step).listeners <==> Decides(sa in s.listeners, s.listeners, step, sa)
    ensures sa in Apply(s, step).subscribed <==> Makes(sa in s.subscribed, step, sa)
  {
  }

  /**
    Map and subscription on every run, with calls overlapping freely and samgr
    failing at will: an ability has listeners exactly when the last call decided
    for it is a subscription, and is subscribed exactly when the last one that
    succeeded is.  So the two agree if and only if the last call decided and the
    last call that succeeded are of the same kind.
   */
  lemma {:induction false} AgreementExactly(steps: seq<Step>, sa: int)
    requires Run(steps).Some?
    ensures var s := Run(steps).value;
            && (sa in s.listeners <==> LastDecided(steps, sa))
            && (sa in s.subscribed <==> LastMade(steps, sa))
            && ((sa in s.listeners <==> sa in s.subscribed) <==> LastDecided(steps, sa) == LastMade(steps, sa))
  {
    if steps != [] {
      var pre := steps[..|steps| - 1];
      AgreementExactly(pre, sa);
      AlwaysWellFormed(pre);
      StepDecides(Run(pre).value, steps[|steps| - 1], sa);
    }
  }

  /**
    When samgr is called: an Add subscribes exactly when no other listener of the
    ability is registered, also when it repeats, and a Remove unsubscribes exactly
    when the ability had listeners and none but this one.
   */
  lemma SamgrCallsExactly(s: Manager, sa: int, id: int, present: bool)
    requires WellFormed(s.listeners)
    ensures Apply(s, AddListener(sa, id, present)).pending == s.pending +
      if forall other :: Registered(ListOf(s.listeners, sa), other) ==> other == id then multiset{Subscribe(sa)} else multiset{}
    ensures Apply(s, RemoveListener(sa, id)).pending == s.pending +
      if sa in s.listeners && forall other :: Registered(ListOf(s.listeners, sa), other) ==> other == id
      then multiset{Unsubscribe(sa)} else multiset{}
  {
    var list := ListOf(s.listeners, sa);
    assert DistinctIds(list);
    OthersRegistered(list, id);
    AbsentState(list, id);
    if sa in s.listeners {
      assert |Erased(list, id)| == |list| - if StateOf(list, id).Some? then 1 else 0;
    }
  }

  /** What serialized calls with successful samgr calls keep: at most one samgr call is open, and it is the last decided. */
  ghost predicate InTurn(s: Manager, decided: bool, made: bool, sa: int) {
    && (Quiet(s, sa) ==> decided == made)
    && (Subscribe(sa) in s.pending ==> s.pending[Subscribe(sa)] == 1 && decided && Unsubscribe(sa) !in s.pending)
    && (Unsubscribe(sa) in s.pending ==> s.pending[Unsubscribe(sa)] == 1 && !decided)
  }

  lemma StepInTurn(s: Manager, decided: bool, made: bool, step: Step, sa: int)
    requires Enabled(s, step) && InTurn(s, decided, made, sa)
    requires (step.AddListener? || step.RemoveListener?) && step.sa == sa ==> Quiet(s, sa)
    requires step.Samgr? && step.call.sa == sa ==> step.ok
    ensures InTurn(Apply(s, step), Decides(decided, s.listeners, step, sa), Makes(made, step, sa), sa)
  {
  }

  lemma {:induction false} SerializedInTurn(steps: seq<Step>, sa: int)
    requires Run(steps).Some? && Serialized(steps, sa) && SamgrSucceeds(steps, sa)
    ensures InTurn(Run(steps).value, LastDecided(steps, sa), LastMade(steps, sa), sa)
  {
    if steps != [] {
      var pre, step := steps[..|steps| - 1], steps[|steps| - 1];
      SerializedInTurn(pre, sa);
      assert step in steps;
      StepInTurn(Run(pre).value, LastDecided(pre, sa), LastMade(pre, sa), step, sa);
    }
  }

  /**
    Map and subscription agreement: when listener calls on an ability do not
    overlap and samgr succeeds, then between calls the ability has listeners
    exactly when it is subscribed, whatever happens to other abilities meanwhile.
   */
  lemma ListenersMatchSubscription(steps: seq<Step>, sa: int)
    requires Run(steps).Some? && Serialized(steps, sa) && SamgrSucceeds(steps, sa)
    requires Quiet(Run(steps).value, sa)
    ensures sa in Run(steps).value.listeners <==> sa in Run(steps).value.subscribed
  {
    SerializedInTurn(steps, sa);
    AgreementExactly(steps, sa);
  }

  /** Overlapping calls can lose the subscription: a removal's unsubscribe overtakes a new subscription. */
  lemma OverlapLosesSubscription(sa: int, id: int)
    ensures var steps := [AddListener(sa, id, false), Samgr(Subscribe(sa), true), RemoveListener(sa, id),
                          AddListener(sa, id, false), Samgr(Subscribe(sa), true), Samgr(Unsubscribe(sa), true)];
            && Run(steps).Some?
            && Quiet(Run(steps).value, sa)
            && sa in Run(steps).value.listeners && sa !in Run(steps).value.subscribed
  {
    var steps := [AddListener(sa, id, false), Samgr(Subscribe(sa), true), RemoveListener(sa, id),
                  AddListener(sa, id, false), Samgr(Subscribe(sa), true), Samgr(Unsubscribe(sa), true)];
    RemovalInterrupted(steps, sa, id);
    SubscriptionOvertaken(steps, sa, id, Manager(map[], {sa}, multiset{Unsubscribe(sa)}));
    assert steps[..6] == steps;
  }

  lemma RemovalInterrupted(steps: seq<Step>, sa: int, id: int)
    requires |steps| == 6 && steps[0] == AddListener(sa, id, false)
    requires steps[1] == Samgr(Subscribe(sa), true) && steps[2] == RemoveListener(sa, id)
    ensures Run(steps[..3]) == Some(Manager(map[], {sa}, multiset{Unsubscribe(sa)}))
  {
    var l := [Listener(id, INIT)];
    assert [] + [Listener(id, INIT)] == l;
    var s1 := Manager(map[sa := l], {}, multiset{Subscribe(sa)});
    Extend(steps, 0, INITIAL, s1);
    var s2 := Manager(map[sa := l], {sa}, multiset{});
    Extend(steps, 1, s1, s2);
    assert Erased(l, id) == [];
    Extend(steps, 2, s2, Manager(map[], {sa}, multiset{Unsubscribe(sa)}));
  }

  lemma SubscriptionOvertaken(steps: seq<Step>, sa: int, id: int, s3: Manager)
    requires |steps| == 6 && Run(steps[..3]) == Some(s3) && s3 == Manager(map[], {sa}, multiset{Unsubscribe(sa)})
    requires steps[3] == AddListener(sa, id, false)
    requires steps[4] == Samgr(Subscribe(sa), true) && steps[5] == Samgr(Unsubscribe(sa), true)
    ensures Run(steps[..6]) == Some(Manager(map[sa := [Listener(id, INIT)]], {}, multiset{}))
  {
    var l := [Listener(id, INIT)];
    assert [] + [Listener(id, INIT)] == l;
    var s4 := Manager(map[sa := l], {sa}, multiset{Unsubscribe(sa), Subscribe(sa)});
    Extend(steps, 3, s3, s4);
    var s5 := Manager(map[sa := l], {sa}, multiset{Unsubscribe(sa)});
    Extend(steps, 4, s4, s5);
    Extend(steps, 5, s5, Manager(map[sa := l], {}, multiset{}));
  }

  lemma Extend(steps: seq<Step>, n: nat, s: Manager, s': Manager)
    requires n < |steps| && Run(steps[..n]) == Some(s) && Enabled(s, steps[n])
    requires Apply(s, steps[n]).listeners == s'.listeners
    requires Apply(s, steps[n]).subscribed == s'.subscribed
    requires Apply(s, steps[n]).pending == s'.pending
    ensures Run(steps[..n + 1]) == Some(s')
  {
    assert steps[..n + 1][..n] == steps[..n];
  }

  // ---------- The manager object ----------

  class LocalAbilityManager {
    var localListenerMap: ListenerMap

    constructor ()
      ensures localListenerMap == map[]
    {
      localListenerMap := map[];
    }

    /** The lock section of AddSystemAbilityListener: whether to notify now, and the list size that decides on subscribing. */
    method AddLocked(sa: int, id: int, present: bool) returns (isNeedNotify: bool, size: nat)
      modifies this
      ensures localListenerMap == old(localListenerMap)[sa := Added(ListOf(old(localListenerMap), sa), id, present)]
      ensures size == |localListenerMap[sa]| >= 1
      ensures isNeedNotify == NeedNotify(ListOf(old(localListenerMap), sa), present)
      ensures sa !in old(localListenerMap) ==> !isNeedNotify && localListenerMap[sa] == [Listener(id, INIT)]
      ensures sa in old(localListenerMap) && old(localListenerMap)[sa] != [] ==> (isNeedNotify <==> present)
    {
      var list := if sa in localListenerMap then localListenerMap[sa] else [];
      isNeedNotify := false;
      if |list| > 0 {
        if present {
          isNeedNotify := true;
        }
      }
      AbsentState(list, id);
      if IndexOf(list, id) == |list| {
        list := list + [Listener(id, if isNeedNotify then NOTIFIED else INIT)];
      }
      localListenerMap := localListenerMap[sa := list];
      size := |list|;
    }

    /** The lock section of RemoveSystemAbilityListener: whether the last listener went, so that samgr must be told. */
    method RemoveLocked(sa: int, id: int) returns (unsubscribe: bool)
      requires WellFormed(localListenerMap)
      modifies this
      ensures localListenerMap ==
        if sa in old(localListenerMap) then WithList(old(localListenerMap), sa, Erased(old(localListenerMap)[sa], id))
        else old(localListenerMap)
      ensures unsubscribe <==> sa in old(localListenerMap) && sa !in localListenerMap
    {
      if sa !in localListenerMap {
        return false;
      }
      var list := localListenerMap[sa];
      var i := IndexOf(list, id);
      if i < |list| {
        list := list[..i] + list[i + 1..];
      }
      localListenerMap := localListenerMap[sa := list];
      if list != [] {
        return false;
      }
      localListenerMap := localListenerMap - {sa};
      unsubscribe := true;
    }

    /** The lock section of FindAndNotifyAbilityListeners: update each listener in turn and collect whom to tell. */
    method CollectToNotify(sa: int, kind: Kind) returns (ids: seq<int>)
      modifies this
      ensures sa !in old(localListenerMap) ==> localListenerMap == old(localListenerMap) && ids == []
      ensures sa in old(localListenerMap) ==>
                && localListenerMap == old(localListenerMap)[sa := Changed(old(localListenerMap)[sa], kind)]
                && ids == Told(old(localListenerMap)[sa], kind)
      ensures sa in old(localListenerMap) ==>
                && |localListenerMap[sa]| == |old(localListenerMap)[sa]|
                && forall i :: 0 <= i < |localListenerMap[sa]| ==>
                     localListenerMap[sa][i] == Listener(old(localListenerMap)[sa][i].id, if kind == OnAdd then NOTIFIED else INIT)
    {
      ids := [];
      if sa !in localListenerMap {
        return;
      }
      var list := localListenerMap[sa];
      ghost var before := list;
      for i := 0 to |list|
        invariant |list| == |before|
        invariant forall j :: 0 <= j < i ==> list[j] == before[j].(state := StateAfter(kind))
        invariant forall j :: i <= j < |list| ==> list[j] == before[j]
        invariant ids == Told(before[..i], kind)
      {
        assert before[..i + 1][..i] == before[..i];
        if kind == OnAdd {
          if list[i].state == INIT {
            ids := ids + [list[i].id];
            list := list[i := list[i].(state := NOTIFIED)];
          }
        } else {
          ids := ids + [list[i].id];
          if list[i].state == NOTIFIED {
            list := list[i := list[i].(state := INIT)];
          }
        }
      }
      assert before[..|before|] == before;
      assert list == Changed(before, kind);
      localListenerMap := localListenerMap[sa := list];
    }
  }

  /** Whom the fan-out collects is exactly whom the step decides to notify, each once. */
  lemma {:induction false} ToldExactly(list: seq<Listener>, kind: Kind, id: int)
    requires DistinctIds(list)
    ensures id in Told(list, kind) <==> if kind == OnAdd then StateOf(list, id) == Some(INIT) else StateOf(list, id).Some?
    ensures multiset(Told(list, kind))[id] <= 1
  {
    if list != [] {
      var n := |list| - 1;
      ToldExactly(list[..n], kind, id);
      AbsentState(list[..n], list[n].id);
      StateOfLast(list, id);
      var before, more := Told(list[..n], kind), if IsTold(list[n].state, kind) then [list[n].id] else [];
      assert multiset(before + more) == multiset(before) + multiset(more);
    }
  }

  ghost function ToTell(list: seq<Listener>, kind: Kind): nat -> bool {
    (i: nat) => i < |list| && (kind == OnRemove || list[i].state == INIT)
  }

  /** The fan-out goes through the list in order: on add to those in INIT, on remove to everyone. */
  lemma ToldInOrder(list: seq<Listener>, kind: Kind) returns (idx: seq<nat>)
    ensures Picks(idx, |list|, ToTell(list, kind)) && |Told(list, kind)| == |idx|
    ensures forall k :: 0 <= k < |idx| ==> idx[k] < |list| && Told(list, kind)[k] == list[idx[k]].id
  {
    ToldIsPick(list, kind, |list|);
    assert list[..|list|] == list;
    idx := PickInOrder(Ids(list), |list|, ToTell(list, kind));
  }

  ghost function Ids(list: seq<Listener>): seq<int> {
    seq(|list|, i requires 0 <= i < |list| => list[i].id)
  }

  lemma {:induction false} ToldIsPick(list: seq<Listener>, kind: Kind, n: nat)
    requires n <= |list|
    ensures Told(list[..n], kind) == Pick(Ids(list), n, ToTell(list, kind))
  {
    if n > 0 {
      ToldIsPick(list, kind, n - 1);
      assert list[..n][..n - 1] == list[..n - 1];
    }
  }

  lemma StateOfLast(list: seq<Listener>, id: int)
    requires list != []
    ensures var n := |list| - 1; var first := StateOf(list[..n], id);
            StateOf(list, id) == if first.Some? then first else if list[n].id == id then Some(list[n].state) else None
  {
    var n := |list| - 1;
    assert list == list[..n] + [list[n]];
    AppendState(list[..n], list[n], id);
  }
}
