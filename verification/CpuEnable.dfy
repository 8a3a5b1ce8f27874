/** Enabling and disabling CPUs: calls of `_user_set_cpu_enabled` run interleaved, each giving up the lock
    only where it yields while it waits for its CPU to become idle. */
module CpuEnable {

  datatype Status = B_OK | B_BAD_VALUE | B_NOT_ALLOWED

  function EnabledCount(disabled: seq<bool>): nat {
    if disabled == [] then 0
    else EnabledCount(disabled[..|disabled| - 1]) + if disabled[|disabled| - 1] then 0 else 1
  }

  predicate SomeEnabled(disabled: seq<bool>) {
    exists i :: 0 <= i < |disabled| && !disabled[i]
  }

  lemma {:induction false} CountIsPositive(disabled: seq<bool>)
    ensures EnabledCount(disabled) > 0 <==> SomeEnabled(disabled)
  {
    if disabled != [] {
      var init := disabled[..|disabled| - 1];
      CountIsPositive(init);
      if i :| 0 <= i < |disabled| && !disabled[i] {
        assert i < |init| ==> init[i] == disabled[i];
      }
      if i :| 0 <= i < |init| && !init[i] {
        assert !disabled[i];
      }
    }
  }

  /** Changing one flag changes the count by at most one. */
  lemma {:induction false} CountAfterUpdate(disabled: seq<bool>, cpu: nat, flag: bool)
    requires cpu < |disabled|
    ensures EnabledCount(disabled[cpu := flag]) + (if disabled[cpu] then 0 else 1)
         == EnabledCount(disabled) + (if flag then 0 else 1)
  {
    var after := disabled[cpu := flag];
    if cpu < |disabled| - 1 {
      CountAfterUpdate(disabled[..|disabled| - 1], cpu, flag);
      assert after[..|after| - 1] == disabled[..|disabled| - 1][cpu := flag];
    } else {
      assert after[..|after| - 1] == disabled[..|disabled| - 1];
    }
  }

  // ----- one critical section -----

  /** How a critical section ends: the call returns, or it yields and waits for the CPU. */
  datatype Outcome = Return(status: Status) | Wait

  /** The first critical section; `onCpu` tells whether the caller runs on the CPU it is about. */
  function Begin(disabled: seq<bool>, idle: seq<bool>, cpu: int, enabled: bool, onCpu: bool): (seq<bool>, Outcome)
    requires |idle| == |disabled|
  {
    if cpu < 0 || cpu >= |disabled| then (disabled, Return(B_BAD_VALUE))
    else if !enabled && EnabledCount(disabled) == 1 then (disabled, Return(B_NOT_ALLOWED))
    else
      var after := disabled[cpu := !enabled];
      if enabled then (after, Return(B_OK))
      else if onCpu || !idle[cpu] then (after, Wait)
      else (after, Return(B_OK))
  }

  /** Every later one: the CPU may have been enabled again, or be idle by now. */
  function Resume(disabled: seq<bool>, idle: seq<bool>, cpu: nat): Outcome
    requires cpu < |disabled| == |idle|
  {
    if !disabled[cpu] || idle[cpu] then Return(B_OK) else Wait
  }

  /** A disable is refused exactly when one CPU alone is enabled, and otherwise leaves at least one enabled. */
  lemma {:induction false} DisableRefused(disabled: seq<bool>, idle: seq<bool>, cpu: nat, onCpu: bool)
    requires cpu < |disabled| == |idle| && SomeEnabled(disabled)
    ensures var (after, outcome) := Begin(disabled, idle, cpu, false, onCpu);
            && (outcome == Return(B_NOT_ALLOWED) <==> EnabledCount(disabled) == 1)
            && (outcome != Return(B_NOT_ALLOWED) ==> after[cpu] && SomeEnabled(after))
            && (outcome == Return(B_NOT_ALLOWED) ==> after == disabled)
  {
    CountIsPositive(disabled);
    CountAfterUpdate(disabled, cpu, true);
    CountIsPositive(disabled[cpu := true]);
  }

  /** One CPU is enabled and no other one. */
  ghost predicate OnlyOneEnabled(disabled: seq<bool>) {
    exists i :: 0 <= i < |disabled| && !disabled[i] && forall j :: 0 <= j < |disabled| && j != i ==> disabled[j]
  }

  lemma {:induction false} CountIsOne(disabled: seq<bool>)
    ensures EnabledCount(disabled) == 1 <==> OnlyOneEnabled(disabled)
  {
    CountIsPositive(disabled);
    forall i | 0 <= i < |disabled| && !disabled[i]
      ensures EnabledCount(disabled) == 1 <==> forall j :: 0 <= j < |disabled| && j != i ==> disabled[j]
    {
      var without := disabled[i := true];
      CountAfterUpdate(disabled, i, true);
      CountIsPositive(without);
      assert forall j :: 0 <= j < |disabled| && j != i ==> without[j] == disabled[j];
    }
  }

  /** What a call leaves: no other CPU's flag changes; a number that is none, and disabling the last CPU, are refused
      and change nothing; otherwise the CPU is as asked for, at once unless it is one to be disabled and still busy. */
  lemma {:induction false} FlagsAfterCall(disabled: seq<bool>, idle: seq<bool>, cpu: int, enabled: bool, onCpu: bool)
    requires |idle| == |disabled|
    ensures var (after, outcome) := Begin(disabled, idle, cpu, enabled, onCpu);
            var valid := 0 <= cpu < |disabled|;
            var refused := valid && !enabled && OnlyOneEnabled(disabled);
            && |after| == |disabled| && (forall i :: 0 <= i < |disabled| && i != cpu ==> after[i] == disabled[i])
            && (valid && !refused ==> after[cpu] == !enabled)
            && (refused ==> after[cpu] == disabled[cpu])
            && outcome == (if !valid then Return(B_BAD_VALUE)
                           else if refused then Return(B_NOT_ALLOWED)
                           else if enabled || (idle[cpu] && !onCpu) then Return(B_OK) else Wait)
  {
    CountIsOne(disabled);
  }

  // ----- interleavings -----

  /** A call that waits, and how many calls had begun when it did. */
  datatype Waiting = Waiting(cpu: nat, since: nat)

  /** What has happened: a call with its arguments, in the order in which the calls have begun. */
  datatype Entry = Entry(thread: nat, cpu: int, enabled: bool)

  /** `log` and the returns in `done` are for the record; the flags and the waiting calls are the state. */
  datatype State = State(disabled: seq<bool>, idle: seq<bool>, waiting: map<nat, Waiting>, log: seq<Entry>,
                         done: seq<Done>)

  /** A finished disable: the state of its CPU when it returned, and the calls that had begun since it had. */
  datatype Done = Done(thread: nat, cpu: nat, idle: bool, since: seq<Entry>)

  datatype Event =
    | Call(thread: nat, cpu: int, enabled: bool, onCpu: bool)
    | Continue(thread: nat)
    | Schedule(idle: seq<bool>)

  predicate Legal(s: State, e: Event) {
    match e
    case Call(t, _, _, _) => t !in s.waiting
    case Continue(t) => t in s.waiting && s.waiting[t].cpu < |s.disabled| && s.waiting[t].since <= |s.log|
    case Schedule(idle) => |idle| == |s.idle|
  }

  function Step(s: State, e: Event): State
    requires |s.idle| == |s.disabled| && Legal(s, e)
  {
    match e
    case Call(t, cpu, enabled, onCpu) =>
      var (disabled, outcome) := Begin(s.disabled, s.idle, cpu, enabled, onCpu);
      var log := s.log + [Entry(t, cpu, enabled)];
      if outcome == Wait && cpu >= 0 then
        s.(disabled := disabled, log := log, waiting := s.waiting[t := Waiting(cpu, |log|)])
      else if outcome == Return(B_OK) && !enabled && 0 <= cpu < |s.idle| then
        s.(disabled := disabled, log := log, done := s.done + [Done(t, cpu, s.idle[cpu], [])])
      else s.(disabled := disabled, log := log)
    case Continue(t) =>
      var w := s.waiting[t];
      if Resume(s.disabled, s.idle, w.cpu) == Wait then s
      else s.(waiting := s.waiting - {t}, done := s.done + [Done(t, w.cpu, s.idle[w.cpu], s.log[w.since..])])
    case Schedule(idle) => s.(idle := idle)
  }

  /** Some other thread has enabled the CPU. */
  predicate EnabledByOther(entries: seq<Entry>, thread: nat, cpu: nat) {
    exists i :: 0 <= i < |entries| && entries[i].thread != thread && entries[i].cpu == cpu && entries[i].enabled
  }

  /** A waiting call's CPU is disabled unless another thread has enabled it since. */
  predicate WaitJustified(s: State, t: nat) {
    t in s.waiting ==>
      var w := s.waiting[t];
      && w.cpu < |s.disabled| && w.since <= |s.log|
      && (s.disabled[w.cpu] || EnabledByOther(s.log[w.since..], t, w.cpu))
  }

  predicate DoneJustified(d: Done) {
    d.idle || EnabledByOther(d.since, d.thread, d.cpu)
  }

  ghost predicate Safe(s: State) {
    && |s.idle| == |s.disabled| && SomeEnabled(s.disabled)
    && (forall t: nat :: WaitJustified(s, t))
    && (forall i :: 0 <= i < |s.done| ==> DoneJustified(s.done[i]))
  }

  lemma {:induction false} MoreEntries(entries: seq<Entry>, more: seq<Entry>, thread: nat, cpu: nat)
    requires EnabledByOther(entries, thread, cpu)
    ensures EnabledByOther(entries + more, thread, cpu)
  {
    var i :| 0 <= i < |entries| && entries[i].thread != thread && entries[i].cpu == cpu && entries[i].enabled;
    assert (entries + more)[i] == entries[i];
  }

  /** A call leaves a CPU enabled, and the other calls that wait are still justified. */
  lemma {:induction false} CallSafe(s: State, t: nat, cpu: int, enabled: bool, onCpu: bool)
    requires Safe(s) && Legal(s, Call(t, cpu, enabled, onCpu))
    ensures Safe(Step(s, Call(t, cpu, enabled, onCpu)))
  {
    var s' := Step(s, Call(t, cpu, enabled, onCpu));
    var entry := Entry(t, cpu, enabled);
    if 0 <= cpu < |s.disabled| {
      if enabled {
        assert !s.disabled[cpu := false][cpu];
      } else {
        DisableRefused(s.disabled, s.idle, cpu, onCpu);
      }
    }
    forall u: nat ensures WaitJustified(s', u) {
      assert WaitJustified(s, u);
      if u in s.waiting {
        OtherWaits(s, s', u, entry);
      }
    }
  }

  lemma {:induction false} OtherWaits(s: State, s': State, u: nat, entry: Entry)
    requires WaitJustified(s, u) && u in s.waiting && u in s'.waiting && s'.waiting[u] == s.waiting[u]
    requires entry.thread != u && s'.log == s.log + [entry] && |s'.disabled| == |s.disabled|
    requires forall c :: 0 <= c < |s.disabled| && s.disabled[c] && !s'.disabled[c] ==> c == entry.cpu && entry.enabled
    ensures WaitJustified(s', u)
  {
    var w := s.waiting[u];
    var since := s.log[w.since..];
    assert s'.log[w.since..] == since + [entry];
    if s.disabled[w.cpu] {
      if !s'.disabled[w.cpu] {
        assert (since + [entry])[|since|] == entry;
      }
    } else {
      MoreEntries(since, [entry], u, w.cpu);
    }
  }

  lemma {:induction false} StepSafe(s: State, e: Event)
    requires Safe(s) && Legal(s, e)
    ensures Safe(Step(s, e))
  {
    match e
    case Call(t, cpu, enabled, onCpu) => CallSafe(s, t, cpu, enabled, onCpu);
    case Continue(t) =>
      assert WaitJustified(s, t);
      forall u: nat ensures WaitJustified(Step(s, e), u) {
        assert WaitJustified(s, u);
      }
    case Schedule(idle) =>
      forall u: nat ensures WaitJustified(Step(s, e), u) {
        assert WaitJustified(s, u);
      }
  }

  ghost predicate Runs(a: State, events: seq<Event>, b: State)
    decreases events
  {
    if events == [] then a == b
    else |a.idle| == |a.disabled| && Legal(a, events[0]) && Runs(Step(a, events[0]), events[1..], b)
  }

  lemma {:induction false} RunSafe(a: State, events: seq<Event>, b: State)
    requires Safe(a) && Runs(a, events, b)
    ensures Safe(b)
    decreases events
  {
    if events != [] {
      StepSafe(a, events[0]);
      RunSafe(Step(a, events[0]), events[1..], b);
    }
  }

  /** In every interleaving of calls that starts with a CPU enabled, a CPU stays enabled, and a disable that
      has returned B_OK found its CPU idle, or another thread had enabled it in the meantime. */
  lemma {:induction false} NeverTheLastCpu(disabled: seq<bool>, idle: seq<bool>, events: seq<Event>, s: State)
    requires |idle| == |disabled| && SomeEnabled(disabled)
    requires Runs(State(disabled, idle, map[], [], []), events, s)
    ensures SomeEnabled(s.disabled)
    ensures forall i :: 0 <= i < |s.done| ==>
              s.done[i].idle || EnabledByOther(s.done[i].since, s.done[i].thread, s.done[i].cpu)
  {
    RunSafe(State(disabled, idle, map[], [], []), events, s);
  }

  /** A call that disables a CPU waits, or is done and has found the CPU idle; no other thread's call is touched. */
  lemma {:induction false} DisableIsRecorded(s: State, t: nat, cpu: nat, onCpu: bool)
    requires |s.idle| == |s.disabled| && cpu < |s.disabled| && !OnlyOneEnabled(s.disabled) && t !in s.waiting
    ensures var s' := Step(s, Call(t, cpu, false, onCpu));
            && s'.log == s.log + [Entry(t, cpu, false)] && s'.disabled == s.disabled[cpu := true]
            && if s.idle[cpu] && !onCpu then s'.waiting == s.waiting && s'.done == s.done + [Done(t, cpu, true, [])]
               else s'.waiting == s.waiting[t := Waiting(cpu, |s.log| + 1)] && s'.done == s.done
  {
    CountIsOne(s.disabled);
  }

  /** When it is its turn, a waiting call returns exactly if its CPU is enabled, or idle as CPUs are by then. */
  lemma {:induction false} TurnMeans(s: State, t: nat, idle: seq<bool>)
    requires |idle| == |s.idle| == |s.disabled| && Legal(s, Continue(t))
    ensures var now := Step(s, Schedule(idle));
            var w := s.waiting[t];
            && now == s.(idle := idle)
            && Step(now, Continue(t)) ==
                 if s.disabled[w.cpu] && !idle[w.cpu] then now
                 else now.(waiting := s.waiting - {t},
                           done := s.done + [Done(t, w.cpu, idle[w.cpu], s.log[w.since..])])
  {
  }

  /** It is not the turn of `t`, and `cpu` is not disabled. */
  predicate Leaves(e: Event, t: nat, cpu: nat) {
    e != Continue(t) && (e.Call? && e.cpu == cpu ==> e.enabled)
  }

  /** The call of `t` waits, and `cpu` is enabled. */
  predicate WaitsEnabled(s: State, t: nat, w: Waiting, cpu: nat) {
    |s.idle| == |s.disabled| && cpu < |s.disabled| && !s.disabled[cpu] && t in s.waiting && s.waiting[t] == w
  }

  lemma {:induction false} OthersWait(s: State, u: nat, cpu: int, enabled: bool, onCpu: bool, t: nat)
    requires |s.idle| == |s.disabled| && u !in s.waiting && t in s.waiting
    ensures var s' := Step(s, Call(u, cpu, enabled, onCpu));
            && s'.disabled == Begin(s.disabled, s.idle, cpu, enabled, onCpu).0 && s'.idle == s.idle
            && t in s'.waiting && s'.waiting[t] == s.waiting[t] && |s'.log| > |s.log|
  {
  }

  lemma {:induction false} StepStaysEnabled(s: State, e: Event, t: nat, w: Waiting, cpu: nat)
    requires WaitsEnabled(s, t, w, cpu) && Legal(s, e) && Leaves(e, t, cpu)
    ensures WaitsEnabled(Step(s, e), t, w, cpu) && |Step(s, e).log| >= |s.log|
  {
    match e
    case Call(u, c, enabled, onCpu) =>
      OthersWait(s, u, c, enabled, onCpu, t);
      FlagsAfterCall(s.disabled, s.idle, c, enabled, onCpu);
    case Continue(_) =>
    case Schedule(_) =>
  }

  lemma {:induction false} StaysEnabled(a: State, events: seq<Event>, b: State, t: nat, w: Waiting, cpu: nat)
    requires Runs(a, events, b) && WaitsEnabled(a, t, w, cpu)
    requires forall i :: 0 <= i < |events| ==> Leaves(events[i], t, cpu)
    ensures WaitsEnabled(b, t, w, cpu) && |b.log| >= |a.log|
    decreases events
  {
    if events != [] {
      StepStaysEnabled(a, events[0], t, w, cpu);
      assert forall i :: 0 <= i < |events[1..]| ==> events[1..][i] == events[i + 1];
      StaysEnabled(Step(a, events[0]), events[1..], b, t, w, cpu);
    }
  }

  /** A disable that waits for a CPU that a call enables returns success when it is its turn next, whatever happens in
      between, unless that CPU is disabled once more. */
  lemma {:induction false} ReenabledReturns(s: State, t: nat, u: nat, onCpu: bool, events: seq<Event>, b: State)
    requires |s.idle| == |s.disabled| && Legal(s, Continue(t)) && u !in s.waiting
    requires var cpu := s.waiting[t].cpu;
             && Runs(Step(s, Call(u, cpu, true, onCpu)), events, b)
             && forall i :: 0 <= i < |events| ==> Leaves(events[i], t, cpu)
    ensures |b.idle| == |b.disabled| && Legal(b, Continue(t))
    ensures var after := Step(b, Continue(t));
            t !in after.waiting && |after.done| == |b.done| + 1 && after.done[|b.done|].thread == t
  {
    var cpu := s.waiting[t].cpu;
    FlagsAfterCall(s.disabled, s.idle, cpu, true, onCpu);
    StaysEnabled(Step(s, Call(u, cpu, true, onCpu)), events, b, t, s.waiting[t], cpu);
    TurnMeans(b, t, b.idle);
    assert b.(idle := b.idle) == b;
  }

  // ----- the critical sections as they run -----

  /** The count of enabled CPUs. */
  method CountEnabled(disabled: array<bool>) returns (count: nat)
    ensures count == EnabledCount(disabled[..])
  {
    count := 0;
    for i := 0 to disabled.Length
      invariant count == EnabledCount(disabled[..i])
    {
      assert disabled[..i + 1][..i] == disabled[..i];
      if !disabled[i] {
        count := count + 1;
      }
    }
    assert disabled[..disabled.Length] == disabled[..];
  }

  /** `_user_set_cpu_enabled` up to the first place where it yields or returns. */
  method SetCpuEnabled(disabled: array<bool>, idle: seq<bool>, cpu: int, enabled: bool, currentCpu: int)
    returns (outcome: Outcome)
    requires |idle| == disabled.Length
    modifies disabled
    ensures (disabled[..], outcome) == Begin(old(disabled[..]), idle, cpu, enabled, currentCpu == cpu)
  {
    if cpu < 0 || cpu >= disabled.Length {
      return Return(B_BAD_VALUE);
    }
    if !enabled {
      var count := CountEnabled(disabled);
      if count == 1 {
        return Return(B_NOT_ALLOWED);
      }
    }
    var oldState := disabled[cpu];
    if oldState != !enabled {
      disabled[cpu] := !enabled;
    }
    assert disabled[..] == old(disabled[..])[cpu := !enabled];
    if !enabled {
      if currentCpu == cpu {
        return Wait;
      }
      outcome := AfterYield(disabled, idle, cpu);
      return;
    }
    outcome := Return(B_OK);
  }

  /** What follows whenever the lock has been taken again. */
  method AfterYield(disabled: array<bool>, idle: seq<bool>, cpu: nat) returns (outcome: Outcome)
    requires cpu < disabled.Length == |idle|
    ensures outcome == Resume(disabled[..], idle, cpu)
  {
    if !disabled[cpu] {
      return Return(B_OK);
    }
    if idle[cpu] {
      return Return(B_OK);
    }
    outcome := Wait;
  }
}
