/** The lifecycle of a session under the housekeeping daemon: the persisted status, the
    `zombie_handled` flag, the time of the last activity and the running tasks of the session.
    Every write to the session store may fail, and then changes nothing. */
module Lifecycle {
  import opened Text

  datatype Status = Active | Stale | Hibernating | Expired

  function Rank(s: Status): nat {
    match s case Active => 0 case Stale => 1 case Hibernating => 2 case Expired => 3
  }

  datatype Config = Config(staleThresholdSecs: nat, expiredThresholdSecs: nat)

  type TaskId = nat

  datatype State = State(hasAppState: bool, status: Status, zombieHandled: bool, lastActivity: nat, running: set<TaskId>) {
    /** What `current_session_lifecycle` yields; without application state the default. */
    function Seen(): Status {
      if hasAppState then status else Active
    }
  }

  /** What the world does during one tick: the clock, which writes succeed, and the tasks that
      are started between the test for running tasks and the hibernation. */
  datatype Input = Input(now: nat, sessionWriteOk: bool, lifecycleWriteOk: bool, started: set<TaskId>)

  datatype Outcome = Touched | AlreadyInactive | Hibernated(killed: set<TaskId>) | ExpiredNow | Failed

  function Idle(s: State, i: Input): nat {
    SatSub(i.now, s.lastActivity)
  }

  function Written(s: State, status: Status, ok: bool): State {
    if s.hasAppState && ok then s.(status := status) else s
  }

  predicate Runs(s: State) {
    s.hasAppState && s.running != {}
  }

  /** `perform_maintenance`. */
  function Tick(config: Config, s: State, i: Input): (State, Outcome) {
    var delta := Idle(s, i);
    var after := s.(running := s.running + i.started);
    if s.Seen() == Hibernating && delta > config.expiredThresholdSecs then
      if i.lifecycleWriteOk then (after.(status := Expired), ExpiredNow) else (after, Failed)
    else if delta > config.staleThresholdSecs && Runs(s) then
      (Written(after.(lastActivity := i.now, zombieHandled := false), Active, i.lifecycleWriteOk), Touched)
    else if delta > config.staleThresholdSecs then
      if s.zombieHandled then (after, AlreadyInactive)
      else if !s.hasAppState then (after, Failed)
      else
        var persisted := Written(after, Hibernating, i.lifecycleWriteOk);
        if i.sessionWriteOk && i.lifecycleWriteOk
        then (persisted.(zombieHandled := true, running := {}), Hibernated(after.running))
        else (persisted, Failed)
    else if delta > config.staleThresholdSecs / 2 then
      (Written(after.(zombieHandled := false), Stale, i.lifecycleWriteOk), Touched)
    else
      (Written(after.(zombieHandled := false), Active, i.lifecycleWriteOk), Touched)
  }

  // ---- the daemon

  class Daemon {
    const config: Config
    const hasAppState: bool
    var status: Status
    var zombieHandled: bool
    var lastActivity: nat
    var running: set<TaskId>

    constructor (config: Config, hasAppState: bool, lastActivity: nat)
      ensures Value() == State(hasAppState, Active, false, lastActivity, {}) && this.config == config
    {
      this.config, this.hasAppState := config, hasAppState;
      status, zombieHandled, this.lastActivity, running := Active, false, lastActivity, {};
    }

    function Value(): State
      reads this
    {
      State(hasAppState, status, zombieHandled, lastActivity, running)
    }

    /** A write of the lifecycle status, which succeeds when the store does. */
    method PersistLifecycle(next: Status, storeOk: bool) returns (ok: bool)
      modifies this`status
      ensures ok == storeOk && status == if storeOk then next else old(status)
    {
      if storeOk {
        status := next;
      }
      ok := storeOk;
    }

    method MarkLifecycle(next: Status, storeOk: bool)
      modifies this`status
      ensures status == Written(old(Value()), next, storeOk).status
    {
      if hasAppState {
        var ignored := PersistLifecycle(next, storeOk);
      }
    }

    /** `startedMeanwhile` are the tasks started since the test for running tasks. */
    method HandleZombieSession(i: Input) returns (outcome: Outcome)
      modifies this
      ensures lastActivity == old(lastActivity)
      ensures old(zombieHandled) ==> outcome == AlreadyInactive && Value() == old(Value()).(running := old(running) + i.started)
      ensures !old(zombieHandled) && !hasAppState ==> outcome == Failed && Value() == old(Value()).(running := old(running) + i.started)
      ensures !old(zombieHandled) && hasAppState && i.sessionWriteOk && i.lifecycleWriteOk ==>
                && outcome == Hibernated(old(running) + i.started)
                && Value() == old(Value()).(status := Hibernating, zombieHandled := true, running := {})
      ensures !old(zombieHandled) && hasAppState && !(i.sessionWriteOk && i.lifecycleWriteOk) ==>
                && outcome == Failed
                && Value() == Written(old(Value()), Hibernating, i.lifecycleWriteOk).(running := old(running) + i.started)
    {
      var was := zombieHandled;
      zombieHandled := true;
      running := running + i.started;
      if was {
        return AlreadyInactive;
      }
      if !hasAppState {
        zombieHandled := false;
        return Failed;
      }
      // Both writes are attempted before either result is looked at.
      var persistedSession := i.sessionWriteOk;
      var persistedLifecycle := PersistLifecycle(Hibernating, i.lifecycleWriteOk);
      if !persistedSession {
        zombieHandled := false;
        return Failed;
      }
      if !persistedLifecycle {
        zombieHandled := false;
        return Failed;
      }
      var suspended := running;
      running := {};
      return Hibernated(suspended);
    }

    method ExpireHibernatingSession(i: Input) returns (outcome: Outcome)
      requires hasAppState && status == Hibernating
      modifies this`status
      ensures outcome == if i.lifecycleWriteOk then ExpiredNow else Failed
      ensures status == if i.lifecycleWriteOk then Expired else old(status)
    {
      var ok := PersistLifecycle(Expired, i.lifecycleWriteOk);
      outcome := if ok then ExpiredNow else Failed;
    }

    method PerformMaintenance(i: Input) returns (outcome: Outcome)
      modifies this
      ensures (Value(), outcome) == Tick(config, old(Value()), i)
    {
      var delta := SatSub(i.now, lastActivity);
      var lifecycle := if hasAppState then status else Active;
      if lifecycle == Hibernating && delta > config.expiredThresholdSecs {
        outcome := ExpireHibernatingSession(i);
        running := running + i.started;
      } else if delta > config.staleThresholdSecs && hasAppState && running != {} {
        lastActivity := i.now;
        zombieHandled := false;
        MarkLifecycle(Active, i.lifecycleWriteOk);
        running := running + i.started;
        outcome := Touched;
      } else if delta > config.staleThresholdSecs {
        outcome := HandleZombieSession(i);
      } else if delta > config.staleThresholdSecs / 2 {
        zombieHandled := false;
        MarkLifecycle(Stale, i.lifecycleWriteOk);
        running := running + i.started;
        outcome := Touched;
      } else {
        zombieHandled := false;
        MarkLifecycle(Active, i.lifecycleWriteOk);
        running := running + i.started;
        outcome := Touched;
      }
    }
  }

  // ---- runs

  /** A tick, or anything else that happens to the session: activity and other tasks. */
  datatype Event = TickEvent(input: Input) | Activity(now: nat, running: set<TaskId>)

  function Next(config: Config, s: State, e: Event): State {
    match e
    case TickEvent(input) => Tick(config, s, input).0
    case Activity(now, running) => s.(lastActivity := now, running := running)
  }

  /** The states of a run, the first one included. */
  predicate IsRun(config: Config, states: seq<State>, events: seq<Event>) {
    && |states| == |events| + 1
    && forall k :: 0 <= k < |events| ==> states[k + 1] == Next(config, states[k], events[k])
  }

  predicate HibernatesAt(config: Config, states: seq<State>, events: seq<Event>, k: nat)
    requires |states| == |events| + 1 && k < |events|
  {
    events[k].TickEvent? && Tick(config, states[k], events[k].input).1.Hibernated?
  }

  /** In every run, whatever writes fail: a session becomes Expired only from Hibernating, and
      only after an idle time above the threshold. */
  lemma ExpiredOnlyFromHibernating(config: Config, states: seq<State>, events: seq<Event>, k: nat)
    requires IsRun(config, states, events) && k < |events|
    requires states[k].status != Expired && states[k + 1].status == Expired
    ensures states[k].status == Hibernating && events[k].TickEvent?
    ensures Idle(states[k], events[k].input) > config.expiredThresholdSecs
  {
  }

  /** In every run: a tick that ends a task has persisted the session and the status
      Hibernating, found no running task of the session, and raises the flag. */
  lemma KillingTickHasPersisted(config: Config, states: seq<State>, events: seq<Event>, k: nat)
    requires IsRun(config, states, events) && k < |events| && events[k].TickEvent?
    requires !(states[k].running <= states[k + 1].running && events[k].input.started <= states[k + 1].running)
    ensures HibernatesAt(config, states, events, k)
    ensures events[k].input.sessionWriteOk && events[k].input.lifecycleWriteOk
    ensures states[k].running == {} && states[k + 1].status == Hibernating && states[k + 1].zombieHandled
    ensures Idle(states[k], events[k].input) > config.staleThresholdSecs
  {
    assert states[k + 1] == Next(config, states[k], events[k]);
  }

  /** In every run a tick hibernates exactly when it finds the session past the threshold, not
      due to expire, without running tasks and with the flag down, and both writes succeed. It
      then ends every task that was started meanwhile and raises the flag. */
  lemma HibernatesIff(config: Config, states: seq<State>, events: seq<Event>, k: nat)
    requires IsRun(config, states, events) && k < |events| && events[k].TickEvent?
    ensures var s, i := states[k], events[k].input;
            && (HibernatesAt(config, states, events, k) <==>
                  && s.hasAppState && s.running == {} && !s.zombieHandled
                  && Idle(s, i) > config.staleThresholdSecs
                  && !(s.status == Hibernating && Idle(s, i) > config.expiredThresholdSecs)
                  && i.sessionWriteOk && i.lifecycleWriteOk)
            && (HibernatesAt(config, states, events, k) ==>
                  && states[k + 1] == State(true, Hibernating, true, s.lastActivity, {})
                  && Tick(config, s, i).1.killed == i.started)
  {
    assert states[k + 1] == Next(config, states[k], events[k]);
  }

  /** The flag is lowered only by a tick that sees activity. */
  predicate SeesActivity(config: Config, s: State, e: Event) {
    e.TickEvent? && (Idle(s, e.input) <= config.staleThresholdSecs || Runs(s))
  }

  lemma {:induction false} FlagStaysRaised(config: Config, states: seq<State>, events: seq<Event>, j: nat, k: nat)
    requires IsRun(config, states, events) && j <= k <= |events| && states[j].zombieHandled
    requires forall m :: j <= m < k ==> !SeesActivity(config, states[m], events[m])
    ensures states[k].zombieHandled
    decreases k - j
  {
    if j < k {
      assert states[j + 1] == Next(config, states[j], events[j]);
      FlagStaysRaised(config, states, events, j + 1, k);
    }
  }

  /** In every run: between two hibernations some tick has seen the session active. */
  lemma HibernationNeedsActivityBetween(config: Config, states: seq<State>, events: seq<Event>, j: nat, k: nat)
    requires IsRun(config, states, events) && j < k < |events|
    requires HibernatesAt(config, states, events, j) && HibernatesAt(config, states, events, k)
    ensures exists m :: j < m < k && SeesActivity(config, states[m], events[m])
  {
    if forall m :: j < m < k ==> !SeesActivity(config, states[m], events[m]) {
      assert states[j + 1] == Next(config, states[j], events[j]);
      FlagStaysRaised(config, states, events, j + 1, k);
    }
  }

  // ---- activity

  /** A tick past the threshold that finds a running task and does not expire the session. */
  predicate FindsTask(config: Config, s: State, e: Event) {
    && e.TickEvent? && s.hasAppState && s.running != {}
    && Idle(s, e.input) > config.staleThresholdSecs
    && !(s.status == Hibernating && Idle(s, e.input) > config.expiredThresholdSecs)
  }

  /** In every run such a tick counts as activity at its own time: the flag is down, nothing
      ends, and the status is Active when the write succeeds and as it was when it fails. */
  lemma RunningTaskIsActivity(config: Config, states: seq<State>, events: seq<Event>, k: nat)
    requires IsRun(config, states, events) && k < |events| && FindsTask(config, states[k], events[k])
    ensures states[k + 1].lastActivity == events[k].input.now && !states[k + 1].zombieHandled
    ensures states[k + 1].running == states[k].running + events[k].input.started
    ensures states[k + 1].status == if events[k].input.lifecycleWriteOk then Active else states[k].status
  {
    assert states[k + 1] == Next(config, states[k], events[k]);
  }

  /** In every run a tick that is not past the threshold keeps time and tasks and lowers the
      flag, and writes Stale exactly when more than half of the threshold has passed. */
  lemma EarlyTickWritesStatus(config: Config, states: seq<State>, events: seq<Event>, k: nat)
    requires IsRun(config, states, events) && k < |events| && events[k].TickEvent?
    requires Idle(states[k], events[k].input) <= config.staleThresholdSecs
    requires !(states[k].status == Hibernating && Idle(states[k], events[k].input) > config.expiredThresholdSecs)
    ensures states[k + 1].lastActivity == states[k].lastActivity && !states[k + 1].zombieHandled
    ensures states[k + 1].running == states[k].running + events[k].input.started
    ensures states[k].hasAppState && events[k].input.lifecycleWriteOk ==>
              states[k + 1].status
              == if 2 * (events[k].input.now - states[k].lastActivity) > config.staleThresholdSecs then Stale else Active
    ensures !(states[k].hasAppState && events[k].input.lifecycleWriteOk) ==> states[k + 1].status == states[k].status
  {
    assert states[k + 1] == Next(config, states[k], events[k]);
  }

  function TimeOf(e: Event): nat {
    match e case TickEvent(input) => input.now case Activity(now, _) => now
  }

  /** Neither the clock nor the times of activity go back. */
  predicate TimesRise(events: seq<Event>) {
    forall j, k :: 0 <= j <= k < |events| ==> TimeOf(events[j]) <= TimeOf(events[k])
  }

  /** Something happens that the session counts as activity: an event of the user, or a tick
      that finds a running task past the threshold. */
  predicate IsActivity(config: Config, s: State, e: Event) {
    e.Activity? || FindsTask(config, s, e)
  }

  lemma {:induction false} ActivityIsRemembered(config: Config, states: seq<State>, events: seq<Event>, j: nat, k: nat)
    requires IsRun(config, states, events) && TimesRise(events) && j < k <= |events|
    requires IsActivity(config, states[j], events[j])
    ensures states[k].lastActivity >= TimeOf(events[j])
    decreases k
  {
    assert states[k] == Next(config, states[k - 1], events[k - 1]);
    if k - 1 > j {
      ActivityIsRemembered(config, states, events, j, k - 1);
      assert TimeOf(events[j]) <= TimeOf(events[k - 1]);
    }
  }

  /** No session hibernates before the threshold has passed since everything that counts as
      activity, in particular since every tick that found one of its tasks running. */
  lemma HibernationWaitsForThreshold(config: Config, states: seq<State>, events: seq<Event>, j: nat, k: nat)
    requires IsRun(config, states, events) && TimesRise(events) && j < k < |events|
    requires IsActivity(config, states[j], events[j]) && HibernatesAt(config, states, events, k)
    ensures TimeOf(events[k]) > TimeOf(events[j]) + config.staleThresholdSecs
  {
    ActivityIsRemembered(config, states, events, j, k);
  }

  // ---- idle runs

  /** Nothing happens but ticks of a clock that never goes back, and no task runs. */
  predicate IsIdleRun(config: Config, states: seq<State>, events: seq<Event>) {
    && IsRun(config, states, events)
    && states[0].hasAppState && states[0].running == {}
    && (forall k :: 0 <= k < |events| ==> events[k].TickEvent? && events[k].input.started == {})
    && (forall j, k :: 0 <= j <= k < |events| ==> events[j].input.now <= events[k].input.now)
  }

  predicate WritesSucceed(events: seq<Event>) {
    forall k :: 0 <= k < |events| ==> events[k].TickEvent? && events[k].input.sessionWriteOk && events[k].input.lifecycleWriteOk
  }

  lemma {:induction false} IdleRunIsIdle(config: Config, states: seq<State>, events: seq<Event>, k: nat)
    requires IsIdleRun(config, states, events) && k <= |events|
    ensures states[k].hasAppState && states[k].running == {} && states[k].lastActivity == states[0].lastActivity
  {
    if k > 0 {
      IdleRunIsIdle(config, states, events, k - 1);
      assert states[k] == Next(config, states[k - 1], events[k - 1]);
    }
  }

  /** In an idle run that starts Active with the flag down and in which writes succeed, the
      flag is up exactly in the two dormant states, and they are reached past the threshold. */
  lemma {:induction false} IdleInvariant(config: Config, states: seq<State>, events: seq<Event>, k: nat)
    requires IsIdleRun(config, states, events) && WritesSucceed(events) && k <= |events|
    requires states[0].status == Active && !states[0].zombieHandled
    ensures states[k].zombieHandled <==> Rank(states[k].status) >= 2
    ensures states[k].zombieHandled ==> k > 0 && Idle(states[0], events[k - 1].input) > config.staleThresholdSecs
    ensures k > 0 && Idle(states[0], events[k - 1].input) > config.staleThresholdSecs ==> states[k].zombieHandled
    ensures states[k].status == Stale ==> k > 0 && Idle(states[0], events[k - 1].input) > config.staleThresholdSecs / 2
  {
    if k > 0 {
      IdleInvariant(config, states, events, k - 1);
      IdleRunIsIdle(config, states, events, k - 1);
      assert states[k] == Next(config, states[k - 1], events[k - 1]);
      if k > 1 {
        assert events[k - 2].input.now <= events[k - 1].input.now;
      }
    }
  }

  lemma IdleStepClimbs(config: Config, states: seq<State>, events: seq<Event>, k: nat)
    requires IsIdleRun(config, states, events) && WritesSucceed(events) && k < |events|
    requires states[0].status == Active && !states[0].zombieHandled
    ensures Rank(states[k].status) <= Rank(states[k + 1].status)
  {
    IdleInvariant(config, states, events, k);
    IdleRunIsIdle(config, states, events, k);
    assert states[k + 1] == Next(config, states[k], events[k]);
    if k > 0 {
      assert events[k - 1].input.now <= events[k].input.now;
    }
  }

  /** The status only climbs Active, Stale, Hibernating, Expired. */
  lemma {:induction false} IdleRunClimbs(config: Config, states: seq<State>, events: seq<Event>, j: nat, k: nat)
    requires IsIdleRun(config, states, events) && WritesSucceed(events) && j <= k <= |events|
    requires states[0].status == Active && !states[0].zombieHandled
    ensures Rank(states[j].status) <= Rank(states[k].status)
    decreases k - j
  {
    if j < k {
      IdleStepClimbs(config, states, events, k - 1);
      IdleRunClimbs(config, states, events, j, k - 1);
    }
  }

  /** Hibernation completes at most once, and does so exactly when the idle time ever exceeds
      the threshold at a tick. */
  lemma IdleRunHibernatesOnce(config: Config, states: seq<State>, events: seq<Event>)
    requires IsIdleRun(config, states, events) && WritesSucceed(events)
    requires states[0].status == Active && !states[0].zombieHandled
    ensures (exists k :: 0 <= k < |events| && HibernatesAt(config, states, events, k))
       <==> (exists k :: 0 <= k < |events| && Idle(states[0], events[k].input) > config.staleThresholdSecs)
    ensures forall j, k | 0 <= j < |events| && 0 <= k < |events| ::
              (HibernatesAt(config, states, events, j) && HibernatesAt(config, states, events, k)) ==> j == k
  {
    forall k | 0 <= k < |events| && HibernatesAt(config, states, events, k)
      ensures Idle(states[0], events[k].input) > config.staleThresholdSecs
    {
      IdleRunIsIdle(config, states, events, k);
    }
    forall k | 0 <= k < |events| && Idle(states[0], events[k].input) > config.staleThresholdSecs
      ensures exists j :: 0 <= j < |events| && HibernatesAt(config, states, events, j)
    {
      var j := FirstPast(config, states, events, k);
    }
    forall j, k | 0 <= j < k < |events| && HibernatesAt(config, states, events, j)
      ensures !HibernatesAt(config, states, events, k)
    {
      IdleRunIsIdle(config, states, events, j);
      assert events[j].input.now <= events[k - 1].input.now;
      IdleInvariant(config, states, events, k);
    }
  }

  /** The first tick past the threshold hibernates. */
  lemma FirstPast(config: Config, states: seq<State>, events: seq<Event>, k: nat) returns (j: nat)
    requires IsIdleRun(config, states, events) && WritesSucceed(events) && k < |events|
    requires states[0].status == Active && !states[0].zombieHandled
    requires Idle(states[0], events[k].input) > config.staleThresholdSecs
    ensures j < |events| && HibernatesAt(config, states, events, j)
  {
    j := k;
    while j > 0 && Idle(states[0], events[j - 1].input) > config.staleThresholdSecs
      invariant j <= k && Idle(states[0], events[j].input) > config.staleThresholdSecs
    {
      j := j - 1;
    }
    IdleInvariant(config, states, events, j);
    IdleRunIsIdle(config, states, events, j);
  }

  // ---- failing writes

  /** In an idle session past the threshold the status falls back exactly when it is Expired
      with the flag down: the zombie branch then writes Hibernating over it. */
  lemma IdleFallsBackIff(config: Config, s: State, i: Input)
    requires s.hasAppState && s.running == {} && Idle(s, i) > config.staleThresholdSecs
    ensures Rank(Tick(config, s, i).0.status) < Rank(s.status)
       <==> s.status == Expired && !s.zombieHandled && i.lifecycleWriteOk
  {
  }

  /** The tick writes Expired. */
  predicate ExpiresAt(config: Config, states: seq<State>, events: seq<Event>, k: nat)
    requires |states| == |events| + 1 && k < |events|
  {
    && events[k].TickEvent? && events[k].input.lifecycleWriteOk
    && states[k].hasAppState && states[k].status == Hibernating
    && Idle(states[k], events[k].input) > config.expiredThresholdSecs
  }

  /** The tick finds the session past the threshold and writes the status but not the session. */
  predicate HalfHibernatesAt(config: Config, states: seq<State>, events: seq<Event>, k: nat)
    requires |states| == |events| + 1 && k < |events|
  {
    && events[k].TickEvent? && !events[k].input.sessionWriteOk && events[k].input.lifecycleWriteOk
    && Idle(states[k], events[k].input) > config.staleThresholdSecs
    && states[k + 1].status == Hibernating && !states[k + 1].zombieHandled
  }

  /** No tick before `n` has completed a hibernation. */
  predicate NeverHibernated(config: Config, states: seq<State>, events: seq<Event>, n: nat)
    requires |states| == |events| + 1 && n <= |events|
  {
    forall i :: 0 <= i < n ==> !HibernatesAt(config, states, events, i)
  }

  /** An idle run from Active with the flag down; writes may fail. */
  predicate FromActive(config: Config, states: seq<State>, events: seq<Event>) {
    IsIdleRun(config, states, events) && states[0].status == Active && !states[0].zombieHandled
  }

  /** What failing writes leave true: the dormant states and the flag are only found past the
      threshold, Stale only past half of it, and the flag is up exactly after a hibernation. */
  lemma {:induction false} IdleFacts(config: Config, states: seq<State>, events: seq<Event>, k: nat)
    requires FromActive(config, states, events) && k <= |events|
    ensures states[k].zombieHandled <==> !NeverHibernated(config, states, events, k)
    ensures states[k].zombieHandled || Rank(states[k].status) >= 2 ==>
              k > 0 && Idle(states[0], events[k - 1].input) > config.staleThresholdSecs
    ensures states[k].status == Stale ==> k > 0 && Idle(states[0], events[k - 1].input) > config.staleThresholdSecs / 2
    ensures Rank(states[k].status) >= 2 && !states[k].zombieHandled ==>
              exists j :: 0 <= j < k && HalfHibernatesAt(config, states, events, j)
  {
    if k > 0 {
      IdleFacts(config, states, events, k - 1);
      IdleRunIsIdle(config, states, events, k - 1);
      assert states[k] == Next(config, states[k - 1], events[k - 1]);
      assert k > 1 ==> events[k - 2].input.now <= events[k - 1].input.now;
      NeverHibernatedSnoc(config, states, events, k - 1);
      if Rank(states[k].status) >= 2 && !states[k].zombieHandled && Rank(states[k - 1].status) < 2 {
        assert HalfHibernatesAt(config, states, events, k - 1);
      }
    }
  }

  lemma NeverHibernatedSnoc(config: Config, states: seq<State>, events: seq<Event>, k: nat)
    requires |states| == |events| + 1 && k < |events|
    ensures NeverHibernated(config, states, events, k + 1)
       <==> NeverHibernated(config, states, events, k) && !HibernatesAt(config, states, events, k)
  {
    hide HibernatesAt;
  }

  /** In every run a session expires exactly at such ticks, whether its tasks still run or not,
      and keeps its tasks, its flag and the time of its last activity. */
  lemma ExpiresIff(config: Config, states: seq<State>, events: seq<Event>, k: nat)
    requires IsRun(config, states, events) && k < |events|
    ensures states[k].status != Expired && states[k + 1].status == Expired <==> ExpiresAt(config, states, events, k)
    ensures ExpiresAt(config, states, events, k) ==>
              && states[k + 1].running == states[k].running + events[k].input.started
              && states[k + 1].zombieHandled == states[k].zombieHandled
              && states[k + 1].lastActivity == states[k].lastActivity
  {
    assert states[k + 1] == Next(config, states[k], events[k]);
  }

  /** The session expired at tick `m`, and no status has been written since. */
  predicate ExpiredSince(config: Config, states: seq<State>, events: seq<Event>, m: nat, k: nat)
    requires |states| == |events| + 1 && m < k <= |events|
  {
    && ExpiresAt(config, states, events, m)
    && forall n :: m < n < k ==> events[n].TickEvent? && !events[n].input.lifecycleWriteOk
  }

  lemma {:induction false} ExpiredHasExpired(config: Config, states: seq<State>, events: seq<Event>, k: nat) returns (m: nat)
    requires FromActive(config, states, events) && k <= |events|
    requires states[k].status == Expired && !states[k].zombieHandled
    ensures m < k && ExpiredSince(config, states, events, m, k)
  {
    IdleFacts(config, states, events, k);
    IdleFacts(config, states, events, k - 1);
    IdleRunIsIdle(config, states, events, k - 1);
    assert states[k] == Next(config, states[k - 1], events[k - 1]);
    if states[k - 1].status == Expired {
      m := ExpiredHasExpired(config, states, events, k - 1);
    } else {
      m := k - 1;
    }
  }

  lemma {:induction false} ExpiredRemains(config: Config, states: seq<State>, events: seq<Event>, m: nat, k: nat)
    requires FromActive(config, states, events) && m < k <= |events|
    requires ExpiredSince(config, states, events, m, k) && NeverHibernated(config, states, events, m)
    ensures states[k].status == Expired && !states[k].zombieHandled
    decreases k
  {
    IdleFacts(config, states, events, k - 1);
    IdleRunIsIdle(config, states, events, k - 1);
    assert states[k] == Next(config, states[k - 1], events[k - 1]);
    if m < k - 1 {
      ExpiredRemains(config, states, events, m, k - 1);
      assert events[k - 2].input.now <= events[k - 1].input.now;
    }
  }

  /** Which earlier ticks make an idle session fall back, whatever writes fail: at some tick the
      session expired although no hibernation had completed, and no status was written between
      that tick and the one that falls back. Such an expiry is always preceded by a tick whose
      session write failed while its lifecycle write succeeded. */
  lemma IdleRunFallsBackIff(config: Config, states: seq<State>, events: seq<Event>, k: nat)
    requires FromActive(config, states, events) && k < |events|
    ensures Rank(states[k + 1].status) < Rank(states[k].status)
       <==> && events[k].input.lifecycleWriteOk
            && exists m :: 0 <= m < k && ExpiredSince(config, states, events, m, k) && NeverHibernated(config, states, events, m)
    ensures Rank(states[k + 1].status) < Rank(states[k].status) ==>
              exists j :: 0 <= j < k && HalfHibernatesAt(config, states, events, j)
  {
    hide ExpiresAt, HalfHibernatesAt, NeverHibernated, ExpiredSince;
    IdleFacts(config, states, events, k);
    IdleRunIsIdle(config, states, events, k);
    assert states[k + 1] == Next(config, states[k], events[k]);
    assert k > 0 ==> events[k - 1].input.now <= events[k].input.now;
    if states[k].status == Expired && !states[k].zombieHandled {
      var m := ExpiredHasExpired(config, states, events, k);
      EarlierNeverHibernated(config, states, events, m, k);
    }
    forall m: nat | m < k && ExpiredSince(config, states, events, m, k) && NeverHibernated(config, states, events, m)
      ensures states[k].status == Expired && !states[k].zombieHandled
    {
      ExpiredRemains(config, states, events, m, k);
    }
  }

  lemma EarlierNeverHibernated(config: Config, states: seq<State>, events: seq<Event>, m: nat, k: nat)
    requires |states| == |events| + 1 && m <= k <= |events| && NeverHibernated(config, states, events, k)
    ensures NeverHibernated(config, states, events, m)
  {
    hide HibernatesAt;
  }

  /** That state is reached: when only the session write fails the status becomes Hibernating
      with the flag down, expires, and then falls back. */
  lemma FailedSessionWriteUndoesExpiry(config: Config, now: nat)
    requires now > config.staleThresholdSecs && now > config.expiredThresholdSecs
    ensures var s0 := State(true, Active, false, 0, {});
            var failing, fine := Input(now, false, true, {}), Input(now, true, true, {});
            var s1 := Tick(config, s0, failing).0;
            var s2 := Tick(config, s1, fine).0;
            var s3 := Tick(config, s2, fine).0;
            s1.status == Hibernating && !s1.zombieHandled && s2.status == Expired && s3.status == Hibernating
  {
  }
}
