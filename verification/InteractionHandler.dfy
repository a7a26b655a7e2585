/** The interaction boost handler: clients call `Init`, `Acquire` and `Exit`, a worker thread runs
    `Routine`. Every critical section under the handler's mutex, and every poll or read of the worker,
    is one atomic step. */
module InteractionHandler {
  import opened Wrappers

  // ----- state

  datatype Phase = Uninitialized | Idle | Interaction | Waiting

  /** Where the worker thread is. `AtLock` is the top of `Routine`; `Polling`, `Reading` and
      `PollingIdle` are the three system calls of `WaitForIdle`; `Releasing` is the call to `Release`. */
  datatype Worker = NoThread | AtLock | Polling | Reading | PollingIdle | Releasing | Ended

  datatype HintCall = DoHint | EndHint

  datatype Timespec = Timespec(sec: int, nsec: int) {
    predicate Valid() {
      0 <= nsec < 1_000_000_000
    }

    function Ns(): int {
      sec * 1_000_000_000 + nsec
    }
  }

  /** `events` is the eventfd counter, `calls` the calls made on the hint manager, `clock` the last
      reading of the monotonic clock. */
  datatype State = State(phase: Phase, worker: Worker, events: nat, calls: seq<HintCall>,
                         durationMs: int, last: Timespec, clock: Timespec)

  const START := State(Uninitialized, NoThread, 0, [], 0, Timespec(0, 0), Timespec(0, 0))

  predicate Held(calls: seq<HintCall>) {
    calls != [] && calls[|calls| - 1] == DoHint
  }

  predicate Busy(p: Phase) {
    p == Interaction || p == Waiting
  }

  /** The worker is between entering its wait and finishing `Release`. */
  predicate InWait(w: Worker) {
    w == Polling || w == Reading || w == PollingIdle || w == Releasing
  }

  // ----- durations

  const MIN_DURATION_MS := 1400
  const MAX_DURATION_MS := 5650
  const SLACK_MS := 650

  newtype int32 = x: int | -0x8000_0000 <= x < 0x8000_0000

  /** Two's complement wrap-around of a 32-bit sum. */
  function Wrap32(x: int): int {
    (x + 0x8000_0000) % 0x1_0000_0000 - 0x8000_0000
  }

  function ClampDuration(duration: int32): int {
    var input := Wrap32(duration as int + SLACK_MS);
    if input > MAX_DURATION_MS then MAX_DURATION_MS
    else if input > MIN_DURATION_MS then input
    else MIN_DURATION_MS
  }

  /** C++ integer division truncates toward zero. */
  function TruncDiv(a: int, b: int): int
    requires b > 0
  {
    if a >= 0 then a / b else -(-a / b)
  }

  function CalcTimespecDiffMs(start: Timespec, end: Timespec): int {
    (end.sec - start.sec) * 1000 + TruncDiv(end.nsec - start.nsec, 1_000_000)
  }

  // ----- steps

  datatype Action =
    | Init(idleOpens: bool, eventOpens: bool)
    | Acquire(duration: int32, now: Timespec)
    | ExitLocked
    | Join
    | Wake
    | Poll(outcome: PollOutcome)
    | ReadIdle(stop: bool)
    | PollIdle(outcome: PollOutcome)
    | Release

  datatype PollOutcome = Ready | IdleReady | TimedOut | Failed

  /** A poll of the eventfd reports it ready only if it is, and times out only if it is not. */
  predicate Possible(outcome: PollOutcome, events: nat, watchesIdle: bool) {
    match outcome
    case Ready => events > 0
    case IdleReady => watchesIdle
    case TimedOut => events == 0
    case Failed => true
  }

  predicate Enabled(s: State, a: Action) {
    match a
    case Init(_, _) => s.phase != Uninitialized || s.worker == NoThread
    case Acquire(_, now) => now.Valid() && s.clock.Ns() <= now.Ns()
    case ExitLocked => s.phase != Uninitialized
    case Join => s.phase == Uninitialized && s.worker == Ended
    case Wake => s.worker == AtLock && s.phase != Idle
    case Poll(outcome) => s.worker == Polling && Possible(outcome, s.events, false)
    case ReadIdle(_) => s.worker == Reading
    case PollIdle(outcome) => s.worker == PollingIdle && Possible(outcome, s.events, true)
    case Release => s.worker == Releasing
  }

  function InitStep(s: State, idleOpens: bool, eventOpens: bool): State {
    if s.phase != Uninitialized || !idleOpens || !eventOpens then s
    else s.(phase := Idle, worker := AtLock, events := 0)
  }

  /** The previous hint still covers this one. */
  predicate Covered(s: State, final: int, now: Timespec) {
    && s.phase != Idle
    && final <= s.durationMs
    && CalcTimespecDiffMs(s.last, now) <= s.durationMs - final
  }

  function AcquireStep(s: State, duration: int32, now: Timespec): State {
    var final := ClampDuration(duration);
    if s.phase == Uninitialized then s
    else if Covered(s, final, now) then s.(clock := now)
    else
      s.(phase := Interaction, durationMs := final, last := now, clock := now,
         events := if s.phase == Waiting then s.events + 1 else s.events,
         calls := if s.phase == Idle then s.calls + [DoHint] else s.calls)
  }

  function ExitStep(s: State): State {
    if s.phase == Uninitialized then s else s.(phase := Uninitialized, events := s.events + 1)
  }

  function JoinStep(s: State): State {
    s.(worker := NoThread, events := 0)
  }

  function WakeStep(s: State): State {
    if s.phase == Uninitialized then s.(worker := Ended) else s.(phase := Waiting, worker := Polling)
  }

  function ReleaseStep(s: State): State {
    if s.phase == Waiting then s.(phase := Idle, worker := AtLock, calls := s.calls + [EndHint])
    else s.(worker := AtLock, events := 0)
  }

  function Apply(s: State, a: Action): State {
    match a
    case Init(idleOpens, eventOpens) => InitStep(s, idleOpens, eventOpens)
    case Acquire(duration, now) => AcquireStep(s, duration, now)
    case ExitLocked => ExitStep(s)
    case Join => JoinStep(s)
    case Wake => WakeStep(s)
    case Poll(outcome) => s.(worker := if outcome == TimedOut then Reading else Releasing)
    case ReadIdle(stop) => s.(worker := if stop then Releasing else PollingIdle)
    case PollIdle(_) => s.(worker := Releasing)
    case Release => ReleaseStep(s)
  }

  predicate WorkerAction(a: Action) {
    a.Wake? || a.Poll? || a.ReadIdle? || a.PollIdle? || a.Release?
  }

  // ----- runs

  function At(run: seq<Action>, n: nat): State
    requires n <= |run|
  {
    if n == 0 then START else Apply(At(run, n - 1), run[n - 1])
  }

  ghost predicate Allowed(run: seq<Action>, n: nat)
    requires n < |run|
  {
    Enabled(At(run, n), run[n])
  }

  /** An interleaving of client and worker steps, over any number of lifetimes. */
  ghost predicate IsRun(run: seq<Action>) {
    forall n | 0 <= n < |run| :: Allowed(run, n)
  }

  lemma {:induction false} AtPrefix(run: seq<Action>, more: seq<Action>, n: nat)
    requires n <= |run|
    ensures At(run + more, n) == At(run, n)
  {
    if n > 0 {
      AtPrefix(run, more, n - 1);
    }
  }

  /** A run can go on with any step that is enabled at its end. */
  lemma Extends(run: seq<Action>, a: Action)
    requires IsRun(run) && Enabled(At(run, |run|), a)
    ensures IsRun(run + [a]) && At(run + [a], |run| + 1) == Apply(At(run, |run|), a)
  {
    LastStep(run, a, run + [a]);
    PrefixAllowed(run, a, run + [a]);
    OneMoreAllowed(Allowed, run + [a], |run|);
  }

  /** Kept abstract: what is allowed. */
  lemma OneMoreAllowed(allowed: (seq<Action>, nat) --> bool, run: seq<Action>, n: nat)
    requires |run| == n + 1 && forall i: nat | i <= n :: allowed.requires(run, i)
    requires (forall i: nat | i < n :: allowed(run, i)) && allowed(run, n)
    ensures forall i: nat | i < |run| :: allowed(run, i)
  {
  }

  lemma PrefixAllowed(run: seq<Action>, a: Action, longer: seq<Action>)
    requires IsRun(run) && longer == run + [a]
    ensures forall n: nat | n < |run| :: Allowed(longer, n)
  {
    forall n: nat | n < |run|
      ensures Allowed(longer, n)
    {
      assert Allowed(run, n);
      StaysAllowed(run, a, longer, n);
    }
  }

  lemma StaysAllowed(run: seq<Action>, a: Action, longer: seq<Action>, n: nat)
    requires longer == run + [a] && n < |run| && Allowed(run, n)
    ensures Allowed(longer, n)
  {
    AtPrefix(run, [a], n);
  }

  lemma LastStep(run: seq<Action>, a: Action, longer: seq<Action>)
    requires longer == run + [a] && Enabled(At(run, |run|), a)
    ensures Allowed(longer, |run|) && At(longer, |run| + 1) == Apply(At(run, |run|), a)
  {
    AtPrefix(run, [a], |run|);
  }

  /** The steps `more` can be taken from `s`, one after the other. */
  predicate Path(s: State, more: seq<Action>)
    decreases |more|
  {
    more == [] || (Enabled(s, more[0]) && Path(Apply(s, more[0]), more[1..]))
  }

  function End(s: State, more: seq<Action>): State
    decreases |more|
  {
    if more == [] then s else End(Apply(s, more[0]), more[1..])
  }

  lemma PathFrom(s: State, a: Action, rest: seq<Action>, s': State)
    requires Enabled(s, a) && s' == Apply(s, a) && Path(s', rest)
    ensures Path(s, [a] + rest) && End(s, [a] + rest) == End(s', rest)
  {
    assert ([a] + rest)[1..] == rest;
  }

  /** A run can be continued along any path from its end. */
  lemma {:induction false} Continues(run: seq<Action>, s: State, more: seq<Action>)
    requires IsRun(run) && At(run, |run|) == s && Path(s, more)
    ensures IsRun(run + more) && At(run + more, |run + more|) == End(s, more)
    decreases |more|
  {
    if more == [] {
      assert run + more == run;
    } else {
      Extends(run, more[0]);
      assert run + more == run + [more[0]] + more[1..];
      Continues(run + [more[0]], Apply(s, more[0]), more[1..]);
    }
  }

  function WorkerSteps(run: seq<Action>, lo: nat, hi: nat): nat
    requires lo <= hi <= |run|
  {
    if lo == hi then 0
    else WorkerSteps(run, lo, hi - 1) + if WorkerAction(run[hi - 1]) then 1 else 0
  }

  lemma {:induction false} AllWorkerSteps(run: seq<Action>, lo: nat, hi: nat)
    requires lo <= hi <= |run| && forall n | lo <= n < hi :: WorkerAction(run[n])
    ensures WorkerSteps(run, lo, hi) == hi - lo
  {
    if lo < hi {
      AllWorkerSteps(run, lo, hi - 1);
    }
  }

  // ----- the protocol invariant

  /** The event counter as a function of phase and worker. While the handler is alive it is one exactly
      when an interaction arrived during the current wait. */
  predicate EventsMatch(s: State) {
    if s.phase != Uninitialized then s.events == if s.phase == Interaction && InWait(s.worker) then 1 else 0
    else if InWait(s.worker) then 1 <= s.events <= 2
    else true
  }

  predicate WorkerMatches(s: State) {
    match s.phase
    case Uninitialized => true
    case Idle => s.worker == AtLock
    case Interaction => s.worker == AtLock || InWait(s.worker)
    case Waiting => InWait(s.worker)
  }

  predicate ClockMatches(s: State) {
    s.last.Valid() && s.clock.Valid() && s.last.Ns() <= s.clock.Ns()
  }

  predicate Inv(s: State) {
    EventsMatch(s) && WorkerMatches(s) && ClockMatches(s)
  }

  lemma StepKeepsInv(s: State, a: Action)
    requires Inv(s) && Enabled(s, a)
    ensures Inv(Apply(s, a))
  {
  }

  /** In every interleaving the event counter is one exactly while an interaction has arrived during the current
      wait, and the worker is where the phase says. */
  lemma {:induction false} RunsKeepInv(run: seq<Action>, n: nat)
    requires IsRun(run) && n <= |run|
    ensures Inv(At(run, n))
  {
    if n > 0 {
      RunsKeepInv(run, n - 1);
      assert Allowed(run, n - 1);
      StepKeepsInv(At(run, n - 1), run[n - 1]);
    }
  }

  /** No wait starts with an abort left over from an earlier one. */
  lemma WaitStartsClean(run: seq<Action>, n: nat)
    requires IsRun(run) && n < |run| && run[n].Wake? && At(run, n).phase != Uninitialized
    ensures At(run, n + 1).worker == Polling && At(run, n + 1).events == 0
  {
    RunsKeepInv(run, n);
    RunsKeepInv(run, n + 1);
  }

  // ----- hint calls

  predicate Alternating(calls: seq<HintCall>) {
    forall i | 0 <= i < |calls| :: calls[i] == if i % 2 == 0 then DoHint else EndHint
  }

  lemma AlternatingGrows(calls: seq<HintCall>, c: HintCall)
    requires Alternating(calls)
    ensures Alternating(calls + [c]) <==> (c == DoHint <==> !Held(calls))
    ensures Held(calls + [c]) <==> c == DoHint
  {
    var n := |calls|;
    assert (calls + [c])[n] == c;
    assert calls != [] ==> calls[n - 1] == if (n - 1) % 2 == 0 then DoHint else EndHint;
    assert forall i | 0 <= i < n :: (calls + [c])[i] == calls[i];
  }

  lemma AlternatingPrefix(calls: seq<HintCall>, more: seq<HintCall>)
    requires Alternating(calls + more)
    ensures Alternating(calls)
  {
    assert forall i | 0 <= i < |calls| :: calls[i] == (calls + more)[i];
  }

  /** Calls alternate and the hint is held exactly while the handler is busy. */
  predicate Clean(s: State) {
    Alternating(s.calls) && (Held(s.calls) <==> Busy(s.phase))
  }

  /** Calls alternate so far, but the hint is held by a handler that is idle or gone. */
  predicate Stale(s: State) {
    Alternating(s.calls) && Held(s.calls) && !Busy(s.phase)
  }

  lemma CleanStep(s: State, a: Action)
    requires Inv(s) && Clean(s) && Enabled(s, a)
    ensures if a.ExitLocked? && Busy(s.phase) then Stale(Apply(s, a)) else Clean(Apply(s, a))
  {
    AlternatingGrows(s.calls, DoHint);
    AlternatingGrows(s.calls, EndHint);
  }

  lemma StaleStep(s: State, a: Action)
    requires Inv(s) && Stale(s) && Enabled(s, a)
    ensures if a.Acquire? && s.phase == Idle then !Alternating(Apply(s, a).calls) else Stale(Apply(s, a))
  {
    AlternatingGrows(s.calls, DoHint);
  }

  lemma BrokenStep(s: State, a: Action)
    requires !Alternating(s.calls)
    ensures !Alternating(Apply(s, a).calls)
  {
    var more := if Apply(s, a).calls == s.calls then [] else [Apply(s, a).calls[|s.calls|]];
    assert Apply(s, a).calls == s.calls + more;
    if Alternating(Apply(s, a).calls) {
      AlternatingPrefix(s.calls, more);
      assert false;
    }
  }

  /** Step `m` is an `Exit` that interrupts a busy period. */
  ghost predicate InterruptsAt(run: seq<Action>, m: nat)
    requires m < |run|
  {
    run[m].ExitLocked? && Busy(At(run, m).phase)
  }

  /** Step `k` requests the hint. */
  ghost predicate RequestsAt(run: seq<Action>, k: nat)
    requires k < |run|
  {
    run[k].Acquire? && At(run, k).phase == Idle
  }

  ghost predicate Interrupted(run: seq<Action>, n: nat)
    requires n <= |run|
  {
    exists m | 0 <= m < n :: InterruptsAt(run, m)
  }

  /** The hint was requested after an `Exit` had interrupted a busy period. */
  ghost predicate Rerequested(run: seq<Action>, n: nat)
    requires n <= |run|
  {
    exists m, k | 0 <= m < k < n :: InterruptsAt(run, m) && RequestsAt(run, k)
  }

  /** What is known of the hint, given whether a busy period was interrupted and whether
      the hint was requested since. */
  predicate Mode(s: State, interrupted: bool, rerequested: bool) {
    && (!interrupted ==> Clean(s))
    && (interrupted && !rerequested ==> Stale(s))
    && (rerequested ==> !Alternating(s.calls))
  }

  lemma ModeStep(s: State, a: Action, i: bool, r: bool)
    requires Inv(s) && Enabled(s, a) && Mode(s, i, r) && (r ==> i)
    ensures Mode(Apply(s, a), i || (a.ExitLocked? && Busy(s.phase)), r || (i && a.Acquire? && s.phase == Idle))
  {
    if r {
      BrokenStep(s, a);
    } else if i {
      StaleStep(s, a);
    } else {
      CleanStep(s, a);
    }
  }

  lemma {:induction false} HintModes(run: seq<Action>, n: nat)
    requires IsRun(run) && n <= |run|
    ensures Mode(At(run, n), Interrupted(run, n), Rerequested(run, n))
  {
    if n > 0 {
      HintModes(run, n - 1);
      RunsKeepInv(run, n - 1);
      assert Allowed(run, n - 1);
      ModeGrows(run, n - 1);
      ModeStep(At(run, n - 1), run[n - 1], Interrupted(run, n - 1), Rerequested(run, n - 1));
    }
  }

  lemma ModeGrows(run: seq<Action>, n: nat)
    requires n < |run|
    ensures Interrupted(run, n + 1) <==> Interrupted(run, n) || InterruptsAt(run, n)
    ensures Rerequested(run, n + 1) <==> Rerequested(run, n) || (Interrupted(run, n) && RequestsAt(run, n))
    ensures Rerequested(run, n) ==> Interrupted(run, n)
  {
    if Interrupted(run, n + 1) {
      var m :| 0 <= m < n + 1 && InterruptsAt(run, m);
    }
    if Rerequested(run, n + 1) {
      var m, k :| 0 <= m < k < n + 1 && InterruptsAt(run, m) && RequestsAt(run, k);
      assert k == n ==> Interrupted(run, n);
    }
    if Interrupted(run, n) && RequestsAt(run, n) {
      var m :| 0 <= m < n && InterruptsAt(run, m);
      assert InterruptsAt(run, m) && RequestsAt(run, n);
    }
  }

  /** In every interleaving, over any number of lifetimes, the hint calls strictly alternate exactly unless some `Exit`
      interrupts a busy period and the hint is requested again later. */
  lemma HintsAlternateIff(run: seq<Action>)
    requires IsRun(run)
    ensures Alternating(At(run, |run|).calls) <==> !Rerequested(run, |run|)
  {
    HintModes(run, |run|);
  }

  /** While no `Exit` has interrupted a busy period, the hint is held exactly while the phase is INTERACTION or
      WAITING; from the first such `Exit` to the next request it is held although nothing is busy. */
  lemma HintHeldIff(run: seq<Action>)
    requires IsRun(run) && !Rerequested(run, |run|)
    ensures Held(At(run, |run|).calls) <==> Busy(At(run, |run|).phase) || Interrupted(run, |run|)
    ensures Interrupted(run, |run|) ==> !Busy(At(run, |run|).phase)
  {
    HintModes(run, |run|);
  }

  /** The state of a handler that is in its first interaction, with the worker at `w`. */
  function Boosted(t: Timespec, d: int32, phase: Phase, w: Worker, events: nat): State {
    State(phase, w, events, [DoHint], ClampDuration(d), t, t)
  }

  /** Out of IDLE every acquisition requests the hint. */
  lemma IdleAcquire(s: State, d: int32, t: Timespec)
    requires s.phase == Idle
    ensures AcquireStep(s, d, t) ==
            s.(phase := Interaction, durationMs := ClampDuration(d), last := t, clock := t, calls := s.calls + [DoHint])
  {
  }

  lemma FirstBoost(t: Timespec, d: int32, s: State)
    requires t.Valid() && s.clock.Ns() <= t.Ns() && s.phase == Idle
             && s.worker == AtLock && s.events == 0 && s.calls == []
    ensures Enabled(s, Acquire(d, t)) && Apply(s, Acquire(d, t)) == Boosted(t, d, Interaction, AtLock, 0)
  {
    IdleAcquire(s, d, t);
  }

  lemma BoostPath(t: Timespec, d: int32, s: State, rest: seq<Action>, boosted: State)
    requires t.Valid() && s.clock.Ns() <= t.Ns() && s.phase == Idle
             && s.worker == AtLock && s.events == 0 && s.calls == []
    requires boosted == Boosted(t, d, Interaction, AtLock, 0) && Path(boosted, rest)
    ensures Path(s, [Acquire(d, t)] + rest) && End(s, [Acquire(d, t)] + rest) == End(boosted, rest)
  {
    FirstBoost(t, d, s);
    PathFrom(s, Acquire(d, t), rest, boosted);
  }

  lemma InitPath(start: State, s: State, rest: seq<Action>, end: State)
    requires start.phase == Uninitialized && start.worker == NoThread
             && s == start.(phase := Idle, worker := AtLock, events := 0)
    requires Path(s, rest) && End(s, rest) == end
    ensures Path(start, [Init(true, true)] + rest) && End(start, [Init(true, true)] + rest) == end
  {
    PathFrom(start, Init(true, true), rest, s);
  }

  /** A handler that has never run. */
  predicate Fresh(s: State) {
    s.phase == Uninitialized && s.worker == NoThread && s.calls == [] && s.clock.Ns() == 0
  }

  lemma BoostStarts(start: State, t: Timespec, d: int32, rest: seq<Action>, boosted: State)
    requires Fresh(start) && t.Valid() && 0 <= t.Ns()
    requires boosted == Boosted(t, d, Interaction, AtLock, 0) && Path(boosted, rest)
    ensures var run := [Init(true, true)] + ([Acquire(d, t)] + rest);
            Path(start, run) && End(start, run) == End(boosted, rest)
  {
    var s := start.(phase := Idle, worker := AtLock, events := 0);
    BoostPath(t, d, s, rest, boosted);
    InitPath(start, s, [Acquire(d, t)] + rest, End(boosted, rest));
  }

  lemma RestartPath(t: Timespec, d: int32, s: State, a: Action)
    requires t.Valid() && a == Acquire(d, t) && s == Boosted(t, d, Uninitialized, NoThread, 0)
    ensures var end := End(s, [Init(true, true)] + ([a] + []));
            && Path(s, [Init(true, true)] + ([a] + [])) && end.calls == [DoHint, DoHint]
            && end.phase == Interaction && end.worker == AtLock
  {
    var s1 := InitStep(s, true, true);
    PathFrom(s1, a, [], AcquireStep(s1, d, t));
    PathFrom(s, Init(true, true), [a] + [], s1);
  }

  lemma ShutDownPath(t: Timespec, d: int32, rest: seq<Action>)
    requires Path(Boosted(t, d, Uninitialized, NoThread, 0), rest)
    ensures var s, run := Boosted(t, d, Interaction, AtLock, 0), [ExitLocked] + ([Wake] + ([Join] + rest));
            Path(s, run) && End(s, run) == End(Boosted(t, d, Uninitialized, NoThread, 0), rest)
  {
    PathFrom(Boosted(t, d, Uninitialized, Ended, 1), Join, rest, Boosted(t, d, Uninitialized, NoThread, 0));
    PathFrom(Boosted(t, d, Uninitialized, AtLock, 1), Wake, [Join] + rest, Boosted(t, d, Uninitialized, Ended, 1));
    PathFrom(Boosted(t, d, Interaction, AtLock, 0), ExitLocked, [Wake] + ([Join] + rest),
             Boosted(t, d, Uninitialized, AtLock, 1));
  }

  lemma {:induction false} FromStart(run: seq<Action>)
    requires Path(START, run)
    ensures IsRun(run) && At(run, |run|) == End(START, run)
  {
    Continues([], START, run);
    assert [] + run == run;
  }

  lemma RestartRun(start: State, t: Timespec, d: int32, i: Action, a: Action)
    requires Fresh(start) && t.Valid() && 0 <= t.Ns() && i == Init(true, true) && a == Acquire(d, t)
    ensures var run := [i] + ([a] + ([ExitLocked] + ([Wake] + ([Join] + ([i] + ([a] + []))))));
            Path(start, run) && End(start, run).calls == [DoHint, DoHint]
            && End(start, run).phase == Interaction && End(start, run).worker == AtLock
  {
    RestartPath(t, d, Boosted(t, d, Uninitialized, NoThread, 0), a);
    ShutDownPath(t, d, [i] + ([a] + []));
    BoostStarts(start, t, d, [ExitLocked] + ([Wake] + ([Join] + ([i] + ([a] + [])))),
                Boosted(t, d, Interaction, AtLock, 0));
  }

  lemma SevenParts<T>(a: T, b: T, c: T, d: T, e: T, f: T, g: T)
    ensures [a] + ([b] + ([c] + ([d] + ([e] + ([f] + ([g] + [])))))) == [a, b, c, d, e, f, g]
  {
  }

  /** The steps of `run` can be taken by any handler that has never run, and end with these hint calls. */
  ghost predicate Startable(run: seq<Action>, phase: Phase, worker: Worker, calls: seq<HintCall>) {
    forall s | Fresh(s) ::
      Path(s, run) && End(s, run).phase == phase && End(s, run).worker == worker && End(s, run).calls == calls
  }

  lemma StartableIsRun(run: seq<Action>, phase: Phase, worker: Worker, calls: seq<HintCall>)
    requires Startable(run, phase, worker, calls)
    ensures IsRun(run)
    ensures At(run, |run|).phase == phase && At(run, |run|).worker == worker && At(run, |run|).calls == calls
  {
    assert Fresh(START);
    FromStart(run);
  }

  lemma RestartStartable(t: Timespec, d: int32, i: Action, a: Action)
    requires t.Valid() && 0 <= t.Ns() && i == Init(true, true) && a == Acquire(d, t)
    ensures Startable([i, a, ExitLocked, Wake, Join, i, a], Interaction, AtLock, [DoHint, DoHint])
  {
    SevenParts(i, a, ExitLocked, Wake, Join, i, a);
    forall s | Fresh(s)
      ensures var run := [i, a, ExitLocked, Wake, Join, i, a];
              && Path(s, run) && End(s, run).phase == Interaction && End(s, run).worker == AtLock
              && End(s, run).calls == [DoHint, DoHint]
    {
      RestartRun(s, t, d, i, a);
    }
  }

  /** Interrupting a busy period, shutting down completely and starting again requests the hint twice in a row. */
  lemma RestartDoublesHint(t: Timespec, d: int32, run: seq<Action>)
    requires t.Valid() && 0 <= t.Ns()
    requires run == [Init(true, true), Acquire(d, t), ExitLocked, Wake, Join, Init(true, true), Acquire(d, t)]
    ensures IsRun(run) && At(run, |run|).calls == [DoHint, DoHint]
  {
    RestartStartable(t, d, Init(true, true), Acquire(d, t));
    StartableIsRun(run, Interaction, AtLock, [DoHint, DoHint]);
  }

  // ----- the order of the worker's calls

  /** The worker's own previous step in its lifetime, before step `n` of the run. */
  function Previous(run: seq<Action>, n: nat): Option<Action>
    requires n <= |run|
  {
    if n == 0 || run[n - 1].Join? then None
    else if WorkerAction(run[n - 1]) then Some(run[n - 1])
    else Previous(run, n - 1)
  }

  /** Which of the worker's steps may come after which: a wait is a poll, a look at the idle file if the poll timed out,
      and a second poll if the file does not say idle; then the hint is released. */
  predicate MayFollow(before: Option<Action>, a: Action) {
    match a
    case Wake => before.None? || before.value.Release?
    case Poll(_) => before.Some? && before.value.Wake?
    case ReadIdle(_) => before == Some(Poll(TimedOut))
    case PollIdle(_) => before == Some(ReadIdle(false))
    case Release => before.Some? && EndsWait(before.value)
    case _ => false
  }

  /** The steps that end a wait. */
  predicate EndsWait(a: Action) {
    (a.Poll? && a.outcome != TimedOut) || a == ReadIdle(true) || a.PollIdle?
  }

  /** Where the worker is after its previous step. */
  predicate AtPlace(before: Option<Action>, w: Worker) {
    if before.None? then w == NoThread || w == AtLock
    else if EndsWait(before.value) then w == Releasing
    else
      match before.value
      case Wake => w == Polling || w == Ended
      case Poll(_) => w == Reading
      case ReadIdle(_) => w == PollingIdle
      case Release => w == AtLock
      case _ => false
  }

  lemma StepKeepsPlace(s: State, a: Action, before: Option<Action>)
    requires AtPlace(before, s.worker) && Enabled(s, a)
    ensures AtPlace(if a.Join? then None else if WorkerAction(a) then Some(a) else before, Apply(s, a).worker)
    ensures WorkerAction(a) ==> MayFollow(before, a)
  {
  }

  lemma {:induction false} WorkerPlace(run: seq<Action>, n: nat)
    requires IsRun(run) && n <= |run|
    ensures AtPlace(Previous(run, n), At(run, n).worker)
  {
    if n > 0 {
      WorkerPlace(run, n - 1);
      assert Allowed(run, n - 1);
      StepKeepsPlace(At(run, n - 1), run[n - 1], Previous(run, n - 1));
    }
  }

  /** In every interleaving the worker's steps come in that order. */
  lemma WorkerOrder(run: seq<Action>, n: nat)
    requires IsRun(run) && n < |run| && WorkerAction(run[n])
    ensures MayFollow(Previous(run, n), run[n])
  {
    WorkerPlace(run, n);
    assert Allowed(run, n);
    StepKeepsPlace(At(run, n), run[n], Previous(run, n));
  }

  /** In particular the second poll only follows a file that does not say idle, and once a wait has been cut short, has
      failed or has found the display idle, the worker can release, and can do nothing else. */
  lemma WaitEndsInRelease(run: seq<Action>, n: nat)
    requires IsRun(run) && n <= |run| && Previous(run, n).Some? && EndsWait(Previous(run, n).value)
    ensures Enabled(At(run, n), Release)
    ensures forall a | WorkerAction(a) && Enabled(At(run, n), a) :: a.Release?
  {
    WorkerPlace(run, n);
  }

  /** What reading the idle file gives: nothing, or what the buffer then holds. */
  datatype IdleFile = Eof | Content(text: string)

  /** The wait ends without a second poll. */
  predicate Stops(file: IdleFile) {
    file.Eof? || "idle" <= file.text
  }

  /** The steps of one call of `WaitForIdle`, given what the system answers. */
  function WaitSteps(wait: PollOutcome, file: IdleFile, idle: PollOutcome): seq<Action> {
    if wait != TimedOut then [Poll(wait)]
    else if Stops(file) then [Poll(wait), ReadIdle(true)]
    else [Poll(wait), ReadIdle(false), PollIdle(idle)]
  }

  /** Each of them may follow the one before, starting behind a `Wake`, and the last one ends the wait. */
  lemma WaitStepsInOrder(wait: PollOutcome, file: IdleFile, idle: PollOutcome)
    ensures var steps := [Wake] + WaitSteps(wait, file, idle) + [Release];
            forall i | 1 <= i < |steps| :: MayFollow(Some(steps[i - 1]), steps[i])
  {
  }

  // ----- shutting down

  /** How many steps of its own the worker has left once `Exit` has run. */
  function StepsLeft(w: Worker): nat {
    match w
    case Reading => 4
    case Polling => 3
    case PollingIdle => 3
    case Releasing => 2
    case AtLock => 1
    case NoThread => 0
    case Ended => 0
  }

  lemma ExitedStep(s: State, a: Action)
    requires Inv(s) && s.phase == Uninitialized && Enabled(s, a) && !a.Init?
    ensures Apply(s, a).phase == Uninitialized && Apply(s, a).calls == s.calls
    ensures WorkerAction(a) ==> StepsLeft(Apply(s, a).worker) < StepsLeft(s.worker)
    ensures !WorkerAction(a) ==> StepsLeft(Apply(s, a).worker) == StepsLeft(s.worker)
  {
  }

  /** After `Exit` the worker takes at most four more steps and makes no hint call. */
  lemma {:induction false} ExitEndsWorker(run: seq<Action>, lo: nat, hi: nat)
    requires IsRun(run) && lo <= hi <= |run|
    requires At(run, lo).phase == Uninitialized
    requires forall n | lo <= n < hi :: !run[n].Init?
    ensures At(run, hi).phase == Uninitialized && At(run, hi).calls == At(run, lo).calls
    ensures WorkerSteps(run, lo, hi) + StepsLeft(At(run, hi).worker) <= StepsLeft(At(run, lo).worker) <= 4
    decreases hi
  {
    if lo < hi {
      var s, a := At(run, hi - 1), run[hi - 1];
      ExitEndsWorker(run, lo, hi - 1);
      RunsKeepInv(run, hi - 1);
      assert Allowed(run, hi - 1);
      ExitedStep(s, a);
    }
  }

  /** A worker in any phase but IDLE always has a step it can take. */
  lemma NotBlocked(s: State)
    requires Inv(s) && s.worker != NoThread && s.worker != Ended && s.phase != Idle
    ensures exists a :: WorkerAction(a) && Enabled(s, a)
  {
    var a := match s.worker
      case AtLock => Wake
      case Polling => Poll(if s.events > 0 then Ready else TimedOut)
      case Reading => ReadIdle(true)
      case PollingIdle => PollIdle(if s.events > 0 then Ready else TimedOut)
      case _ => Release;
    assert WorkerAction(a) && Enabled(s, a);
  }

  /** After `Exit` the worker is never blocked before it has ended. */
  lemma ExitNeverBlocks(run: seq<Action>, lo: nat, hi: nat)
    requires IsRun(run) && lo <= hi <= |run|
    requires At(run, lo).phase == Uninitialized
    requires forall n | lo <= n < hi :: !run[n].Init?
    ensures StepsLeft(At(run, hi).worker) > 0 ==> exists a :: WorkerAction(a) && Enabled(At(run, hi), a)
  {
    ExitEndsWorker(run, lo, hi);
    RunsKeepInv(run, hi);
    var s := At(run, hi);
    if StepsLeft(s.worker) > 0 {
      NotBlocked(s);
    }
  }

  /** The longest way out: read the idle file, poll it, release, end. */
  const LONG_WAY := [ReadIdle(false), PollIdle(Ready), Release, Wake]

  lemma LongWayPath(s: State)
    requires s.phase == Uninitialized && s.worker == Reading && s.events > 0
    ensures Path(s, LONG_WAY)
  {
    var s1, s2, s3 := s.(worker := PollingIdle), s.(worker := Releasing), s.(worker := AtLock, events := 0);
    PathFrom(s3, Wake, [], WakeStep(s3));
    PathFrom(s2, Release, [Wake] + [], s3);
    PathFrom(s1, PollIdle(Ready), [Release] + ([Wake] + []), s2);
    PathFrom(s, ReadIdle(false), [PollIdle(Ready)] + ([Release] + ([Wake] + [])), s1);
    assert LONG_WAY == [ReadIdle(false)] + ([PollIdle(Ready)] + ([Release] + ([Wake] + [])));
  }

  lemma FourSteps(run: seq<Action>)
    requires IsRun(run) && At(run, |run|).phase == Uninitialized && At(run, |run|).worker == Reading
    ensures LongExit(run, LONG_WAY)
  {
    RunsKeepInv(run, |run|);
    LongWayPath(At(run, |run|));
    Continues(run, At(run, |run|), LONG_WAY);
    LongWaySteps(run, run + LONG_WAY);
  }

  lemma LongWaySteps(run: seq<Action>, all: seq<Action>)
    requires all == run + LONG_WAY
    ensures WorkerSteps(all, |run|, |all|) == 4
  {
    forall n | |run| <= n < |all|
      ensures WorkerAction(all[n])
    {
      assert all[n] == LONG_WAY[n - |run|];
    }
    AllWorkerSteps(all, |run|, |all|);
  }

  /** More than three worker steps follow within the lifetime. */
  ghost predicate LongExit(run: seq<Action>, more: seq<Action>) {
    && IsRun(run + more) && (forall a | a in more :: !a.Init?)
    && WorkerSteps(run + more, |run|, |run + more|) > 3
  }

  lemma LongExitReads(run: seq<Action>, more: seq<Action>)
    requires IsRun(run) && At(run, |run|).phase == Uninitialized && LongExit(run, more)
    ensures At(run, |run|).worker == Reading
  {
    var all := run + more;
    AtPrefix(run, more, |run|);
    forall n | |run| <= n < |all|
      ensures !all[n].Init?
    {
      assert all[n] == more[n - |run|] && more[n - |run|] in more;
    }
    ExitEndsWorker(all, |run|, |all|);
  }

  /** After `Exit` the worker can take more than three steps of its own exactly when `Exit` finds it about to read the
      idle file. */
  lemma FourStepsIff(run: seq<Action>)
    requires IsRun(run) && run != [] && run[|run| - 1].ExitLocked?
    ensures (exists more :: LongExit(run, more)) <==> At(run, |run| - 1).worker == Reading
  {
    assert Allowed(run, |run| - 1);
    if more :| LongExit(run, more) {
      LongExitReads(run, more);
    }
    if At(run, |run| - 1).worker == Reading {
      FourSteps(run);
    }
  }

  lemma ReadingRun(start: State, t: Timespec, d: int32, i: Action, a: Action)
    requires Fresh(start) && t.Valid() && 0 <= t.Ns() && i == Init(true, true) && a == Acquire(d, t)
    ensures var run := [i] + ([a] + ([Wake] + ([Poll(TimedOut)] + [])));
            Path(start, run) && End(start, run) == Boosted(t, d, Waiting, Reading, 0)
  {
    PathFrom(Boosted(t, d, Waiting, Polling, 0), Poll(TimedOut), [], Boosted(t, d, Waiting, Reading, 0));
    PathFrom(Boosted(t, d, Interaction, AtLock, 0), Wake, [Poll(TimedOut)] + [], Boosted(t, d, Waiting, Polling, 0));
    BoostStarts(start, t, d, [Wake] + ([Poll(TimedOut)] + []), Boosted(t, d, Interaction, AtLock, 0));
  }

  lemma FourParts<T>(a: T, b: T, c: T, d: T)
    ensures [a] + ([b] + ([c] + ([d] + []))) == [a, b, c, d]
  {
  }

  lemma ReadingStartable(t: Timespec, d: int32, i: Action, a: Action)
    requires t.Valid() && 0 <= t.Ns() && i == Init(true, true) && a == Acquire(d, t)
    ensures Startable([i, a, Wake, Poll(TimedOut)], Waiting, Reading, [DoHint])
  {
    FourParts(i, a, Wake, Poll(TimedOut));
    forall s | Fresh(s)
      ensures var run := [i, a, Wake, Poll(TimedOut)];
              && Path(s, run) && End(s, run).phase == Waiting && End(s, run).worker == Reading
              && End(s, run).calls == [DoHint]
    {
      ReadingRun(s, t, d, i, a);
    }
  }

  lemma ExitWhileReading(run: seq<Action>)
    requires Startable(run, Waiting, Reading, [DoHint])
    ensures IsRun(run + [ExitLocked]) && LongExit(run + [ExitLocked], LONG_WAY)
  {
    StartableIsRun(run, Waiting, Reading, [DoHint]);
    Extends(run, ExitLocked);
    FourSteps(run + [ExitLocked]);
  }

  /** Such a run exists: an interaction, a wait that times out, and `Exit` before the idle file is read. */
  lemma FourStepsHappen(t: Timespec, d: int32, run: seq<Action>)
    requires t.Valid() && 0 <= t.Ns() && run == [Init(true, true), Acquire(d, t), Wake, Poll(TimedOut)]
    ensures IsRun(run + [ExitLocked]) && LongExit(run + [ExitLocked], LONG_WAY)
  {
    ReadingStartable(t, d, Init(true, true), Acquire(d, t));
    ExitWhileReading(run);
  }

  // ----- deadlines

  /** When the current hint promises to last until. */
  function Deadline(s: State): int {
    s.last.Ns() + s.durationMs * 1_000_000
  }

  /** The millisecond difference is off by less than one millisecond, whichever way the nanosecond
      difference is truncated. */
  lemma DiffWithinOneMs(start: Timespec, end: Timespec)
    requires start.Valid() && end.Valid()
    ensures -1_000_000 < CalcTimespecDiffMs(start, end) * 1_000_000 - (end.Ns() - start.Ns()) < 1_000_000
  {
    var d := end.nsec - start.nsec;
    if d >= 0 {
      assert d == d / 1_000_000 * 1_000_000 + d % 1_000_000;
    } else {
      assert -d == -d / 1_000_000 * 1_000_000 + -d % 1_000_000;
    }
  }

  /** The clamped duration is always within its limits, and it is the requested one plus slack, cut to
      those limits, exactly unless the 32-bit sum overflows. */
  lemma ClampedDuration(duration: int32)
    ensures 1400 <= ClampDuration(duration) <= 5650
    ensures var wanted := duration as int + 650;
            && (ClampDuration(duration) == (if wanted < 1400 then 1400 else if wanted > 5650 then 5650 else wanted)
                <==> wanted < 0x8000_0000)
  {
  }

  /** An accepted or covered `Acquire` never moves the deadline back, and the deadline always exceeds
      the requested time less one millisecond. */
  lemma AcquireDeadline(s: State, duration: int32, now: Timespec)
    requires ClockMatches(s) && s.phase != Uninitialized && now.Valid() && s.clock.Ns() <= now.Ns()
    ensures Busy(s.phase) ==> Deadline(AcquireStep(s, duration, now)) >= Deadline(s)
    ensures Deadline(AcquireStep(s, duration, now)) > now.Ns() + ClampDuration(duration) * 1_000_000 - 1_000_000
  {
    DiffWithinOneMs(s.last, now);
  }

  /** An `Acquire` leaves the deadline alone exactly when the handler is busy and the time elapsed, in whole
      milliseconds, and the new duration together do not exceed the old duration. */
  lemma CoveredIff(s: State, duration: int32, now: Timespec)
    requires ClockMatches(s) && s.phase != Uninitialized && now.Valid() && s.clock.Ns() <= now.Ns()
    ensures var elapsed := CalcTimespecDiffMs(s.last, now);
            AcquireStep(s, duration, now) == s.(clock := now)
            <==> s.phase != Idle && elapsed + ClampDuration(duration) <= s.durationMs
  {
    DiffWithinOneMs(s.last, now);
  }

  /** `Init` starts a worker exactly when there is none and both descriptors open; until then `Acquire` does nothing. */
  lemma InitStartsIff(s: State, idleOpens: bool, eventOpens: bool, duration: int32, now: Timespec)
    requires s.phase == Uninitialized
    ensures InitStep(s, idleOpens, eventOpens) ==
            if idleOpens && eventOpens then s.(phase := Idle, worker := AtLock, events := 0) else s
    ensures AcquireStep(s, duration, now) == s
  {
  }

  lemma BusyStepKeepsDeadline(s: State, a: Action)
    requires ClockMatches(s) && Enabled(s, a) && Busy(s.phase) && Busy(Apply(s, a).phase)
    ensures Deadline(Apply(s, a)) >= Deadline(s)
  {
    if a.Acquire? {
      AcquireDeadline(s, a.duration, a.now);
    }
  }

  /** Within one busy period of any interleaving the promised deadline never decreases. */
  lemma {:induction false} DeadlineNeverDrops(run: seq<Action>, lo: nat, hi: nat)
    requires IsRun(run) && lo <= hi <= |run|
    requires forall n | lo <= n <= hi :: Busy(At(run, n).phase)
    ensures Deadline(At(run, lo)) <= Deadline(At(run, hi))
    decreases hi
  {
    if lo < hi {
      DeadlineNeverDrops(run, lo, hi - 1);
      RunsKeepInv(run, hi - 1);
      assert Allowed(run, hi - 1);
      assert Busy(At(run, hi - 1).phase) && Busy(At(run, hi).phase);
      BusyStepKeepsDeadline(At(run, hi - 1), run[hi - 1]);
    }
  }

  // ----- the handler object

  lemma OneStep(s: State, a: Action, rest: seq<Action>)
    ensures End(s, [a] + rest) == End(Apply(s, a), rest)
  {
    assert ([a] + rest)[1..] == rest;
  }

  /** `!strncmp(a, b, n)` for a `b` of `n` characters. */
  method ComparesEqual(a: string, b: string, n: nat) returns (equal: bool)
    requires n == |b|
    ensures equal <==> b <= a
  {
    var i := 0;
    while i < n
      invariant 0 <= i <= n && i <= |a| && a[..i] == b[..i]
    {
      if i == |a| || a[i] != b[i] {
        return false;
      }
      i := i + 1;
    }
    return true;
  }

  class Handler {
    var mState: Phase
    var mDurationMs: int
    var mLastTimespec: Timespec
    var mEventFd: nat
    var mThread: Worker
    var mHints: seq<HintCall>
    ghost var clock: Timespec

    ghost function Abs(): State
      reads this
    {
      State(mState, mThread, mEventFd, mHints, mDurationMs, mLastTimespec, clock)
    }

    constructor ()
      ensures Abs() == START
    {
      mState := Uninitialized;
      mDurationMs := 0;
      mLastTimespec := Timespec(0, 0);
      mEventFd := 0;
      mThread := NoThread;
      mHints := [];
      clock := Timespec(0, 0);
    }

    method Init(idleOpens: bool, eventOpens: bool) returns (ok: bool)
      requires mState != Uninitialized || mThread == NoThread
      modifies this
      ensures ok <==> old(mState) != Uninitialized || (idleOpens && eventOpens)
      ensures Abs() == InitStep(old(Abs()), idleOpens, eventOpens)
    {
      if mState != Uninitialized {
        return true;
      }
      if !idleOpens || !eventOpens {
        return false;
      }
      mEventFd := 0;
      mState := Idle;
      mThread := AtLock;
      return true;
    }

    method AbortWaitLocked()
      modifies this`mEventFd
      ensures mEventFd == old(mEventFd) + 1
    {
      mEventFd := mEventFd + 1;
    }

    method PerfLock()
      modifies this`mHints
      ensures mHints == old(mHints) + [DoHint]
    {
      mHints := mHints + [DoHint];
    }

    method PerfRel()
      modifies this`mHints
      ensures mHints == old(mHints) + [EndHint]
    {
      mHints := mHints + [EndHint];
    }

    /** The part of `Exit` under the lock. */
    method ExitLocked()
      modifies this
      ensures Abs() == ExitStep(old(Abs()))
    {
      if mState == Uninitialized {
        return;
      }
      AbortWaitLocked();
      mState := Uninitialized;
    }

    /** The rest of `Exit`: join the worker and close the descriptors. */
    method Join()
      requires mThread == Ended
      modifies this
      ensures Abs() == JoinStep(old(Abs()))
    {
      mThread := NoThread;
      mEventFd := 0;
    }

    method Acquire(duration: int32, now: Timespec)
      modifies this
      ensures Abs() == AcquireStep(old(Abs()), duration, now)
    {
      if mState == Uninitialized {
        return;
      }
      clock := now;
      var inputDuration := Wrap32(duration as int + SLACK_MS);
      var finalDuration;
      if inputDuration > MAX_DURATION_MS {
        finalDuration := MAX_DURATION_MS;
      } else if inputDuration > MIN_DURATION_MS {
        finalDuration := inputDuration;
      } else {
        finalDuration := MIN_DURATION_MS;
      }
      if mState != Idle && finalDuration <= mDurationMs {
        var elapsedTime := CalcTimespecDiffMs(mLastTimespec, now);
        if elapsedTime <= mDurationMs - finalDuration {
          return;
        }
      }
      mLastTimespec := now;
      mDurationMs := finalDuration;
      if mState == Waiting {
        AbortWaitLocked();
      } else if mState == Idle {
        PerfLock();
      }
      mState := Interaction;
    }

    method Release()
      requires mThread == Releasing
      modifies this
      ensures Abs() == ReleaseStep(old(Abs()))
    {
      if mState == Waiting {
        PerfRel();
        mState := Idle;
      } else {
        mEventFd := 0;
      }
      mThread := AtLock;
    }

    /** One step of the worker outside the lock. */
    method Advance(ghost a: Action, w: Worker)
      requires InWait(mThread) && Apply(Abs(), a) == Abs().(worker := w)
      modifies this`mThread
      ensures Abs() == Apply(old(Abs()), a)
    {
      mThread := w;
    }

    /** `WaitForIdle`, when no client interferes: what the system answers decides how many of its calls are made. */
    method WaitForIdle(wait: PollOutcome, file: IdleFile, idle: PollOutcome) returns (steps: seq<Action>)
      requires mThread == Polling
      modifies this`mThread
      ensures steps == WaitSteps(wait, file, idle)
      ensures Abs() == End(old(Abs()), steps) == old(Abs()).(worker := Releasing)
    {
      ghost var start := Abs();
      steps := [Poll(wait)];
      if wait != TimedOut {
        Advance(Poll(wait), Releasing);
        OneStep(start, Poll(wait), []);
        return;
      }
      Advance(Poll(wait), Reading);
      var stop := file.Eof?;
      if !stop {
        stop := ComparesEqual(file.text, "idle", 4);
      }
      steps := steps + [ReadIdle(stop)];
      if stop {
        Advance(ReadIdle(true), Releasing);
        OneStep(start.(worker := Reading), ReadIdle(true), []);
        OneStep(start, Poll(wait), [ReadIdle(true)]);
        return;
      }
      Advance(ReadIdle(false), PollingIdle);
      Advance(PollIdle(idle), Releasing);
      steps := steps + [PollIdle(idle)];
      OneStep(start.(worker := PollingIdle), PollIdle(idle), []);
      OneStep(start.(worker := Reading), ReadIdle(false), [PollIdle(idle)]);
      OneStep(start, Poll(wait), [ReadIdle(false), PollIdle(idle)]);
    }

    /** The critical section at the top of `Routine`, entered once the wait condition holds. */
    method RoutineWake()
      requires mThread == AtLock && mState != Idle
      modifies this
      ensures Abs() == WakeStep(old(Abs()))
    {
      if mState == Uninitialized {
        mThread := Ended;
        return;
      }
      mState := Waiting;
      mThread := Polling;
    }
  }
}
