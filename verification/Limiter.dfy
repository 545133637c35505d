/** The concurrency limiter for subagents, which narrows its semaphore by holding permits
    itself, at the granularity of single permits. */
module Limiter {
  import opened Text

  const MAX_SUBAGENTS: nat := 8
  const MIN_SUBAGENTS: nat := 3
  const DEFAULT_SUBAGENTS: nat := 6

  /** `calculate_limit`. */
  function CalculateLimit(availableMb: nat, pressure: nat): (limit: nat)
    ensures MIN_SUBAGENTS <= limit <= MAX_SUBAGENTS
  {
    if pressure >= 4 then MIN_SUBAGENTS
    else if pressure >= 2 then 4
    else if availableMb < 1024 then 3
    else if availableMb < 2048 then 4
    else if availableMb < 4096 then 5
    else if availableMb >= 8192 then 8
    else DEFAULT_SUBAGENTS
  }

  /** More memory never lowers the limit. More pressure raises it in one case only: with very
      little memory a warning lifts the limit from three to four. */
  lemma LimitIsMonotone(lessMb: nat, moreMb: nat, lowPressure: nat, highPressure: nat)
    requires lessMb <= moreMb && lowPressure <= highPressure
    ensures CalculateLimit(lessMb, lowPressure) <= CalculateLimit(moreMb, lowPressure)
    ensures CalculateLimit(lessMb, highPressure) > CalculateLimit(lessMb, lowPressure)
       <==> lessMb < 1024 && lowPressure < 2 <= highPressure < 4
  {
  }

  /** Where the thresholds lie: without pressure each gigabyte bound lifts the limit by one, and
      eight gigabytes by two; a warning leaves four and a critical level three. */
  lemma LimitTable(availableMb: nat, pressure: nat, n: nat)
    ensures pressure < 2 ==>
              (CalculateLimit(availableMb, pressure) >= n <==>
                || n <= 3 || (n == 4 && availableMb >= 1024) || (n == 5 && availableMb >= 2048)
                || (n == 6 && availableMb >= 4096) || (n in {7, 8} && availableMb >= 8192))
    ensures 2 <= pressure < 4 ==> CalculateLimit(availableMb, pressure) == 4
    ensures pressure >= 4 ==> CalculateLimit(availableMb, pressure) == 3
  {
  }

  // ---- interleaved single steps

  /** Where the refresh loop stands with a limit: idle, about to store the new limit, or in one
      of the two loops for the stored limit. */
  datatype Applying = NotApplying | Storing(limit: nat) | Taking(target: nat) | Returning(target: nat)

  datatype State = State(free: nat, agents: nat, borrowed: nat, limit: nat, applying: Applying)

  const INIT := State(MAX_SUBAGENTS, 0, 0, DEFAULT_SUBAGENTS, NotApplying)

  datatype Step =
    | Acquire          // an agent gets a free permit
    | Drop             // an agent gives its permit back
    | Apply(limit: nat)   // `apply_limit` is called and reads the current limit
    | Store            // the new limit is stored
    | Take             // one turn of the loop that borrows permits
    | Return           // one turn of the loop that gives them back

  function Target(limit: nat): nat {
    SatSub(MAX_SUBAGENTS, limit)
  }

  predicate Enabled(s: State, step: Step) {
    match step
    case Acquire => s.free > 0
    case Drop => s.agents > 0
    case Apply(limit) => s.applying.NotApplying?
    case Store => s.applying.Storing?
    case Take => s.applying.Taking?
    case Return => s.applying.Returning?
  }

  function Next(s: State, step: Step): State
    requires Enabled(s, step)
  {
    match step
    case Acquire => s.(free := s.free - 1, agents := s.agents + 1)
    case Drop => s.(free := s.free + 1, agents := s.agents - 1)
    case Apply(limit) => if limit == s.limit then s else s.(applying := Storing(limit))
    case Store => s.(limit := s.applying.limit, applying := Taking(Target(s.applying.limit)))
    case Take =>
      if s.borrowed < s.applying.target then
        if s.free > 0 then s.(free := s.free - 1, borrowed := s.borrowed + 1)
        else s.(applying := Returning(s.applying.target))
      else s.(applying := Returning(s.applying.target))
    case Return =>
      if s.borrowed > s.applying.target then s.(free := s.free + 1, borrowed := s.borrowed - 1)
      else s.(applying := NotApplying)
  }

  predicate IsRunFrom(start: State, states: seq<State>, steps: seq<Step>) {
    && |states| == |steps| + 1
    && states[0] == start
    && forall k :: 0 <= k < |steps| ==> Enabled(states[k], steps[k]) && states[k + 1] == Next(states[k], steps[k])
  }

  predicate IsRun(states: seq<State>, steps: seq<Step>) {
    IsRunFrom(INIT, states, steps)
  }

  /** All eight permits are accounted for, and between calls of `apply_limit` the limiter holds
      no more than the limit asks for. */
  predicate Invariant(s: State) {
    && s.free + s.agents + s.borrowed == MAX_SUBAGENTS
    && (s.applying.NotApplying? || s.applying.Storing? ==> s.borrowed <= Target(s.limit))
    && (s.applying.Storing? ==> s.applying.limit != s.limit)
    && (s.applying.Taking? || s.applying.Returning? ==> s.applying.target == Target(s.limit))
  }

  lemma {:induction false} RunKeepsInvariant(s: State, states: seq<State>, steps: seq<Step>, k: nat)
    requires IsRunFrom(s, states, steps) && k <= |steps| && Invariant(s)
    ensures Invariant(states[k])
  {
    if k > 0 {
      RunKeepsInvariant(s, states, steps, k - 1);
      assert states[k] == Next(states[k - 1], steps[k - 1]);
    }
  }

  lemma Accounting(states: seq<State>, steps: seq<Step>, k: nat)
    requires IsRun(states, steps) && k <= |steps|
    ensures Invariant(states[k])
  {
    RunKeepsInvariant(INIT, states, steps, k);
  }

  // ---- when agents stay within the limit

  /** The limiter holds exactly what the limit asks for. */
  predicate Settled(s: State) {
    s.borrowed == Target(s.limit)
  }

  /** The limiter holds at least as many permits as the limit asks for; more than that only
      while it is giving some back. */
  predicate Covered(s: State) {
    s.borrowed >= Target(s.limit)
  }

  /** In every continuation from `s`, agents hold at most as many permits as the limit until a
      new limit is stored. */
  ghost predicate StaysWithinLimit(s: State) {
    forall states: seq<State>, steps: seq<Step> | IsRunFrom(s, states, steps) && Store !in steps ::
      states[|steps|].agents <= states[|steps|].limit
  }

  lemma {:induction false} CoveredStays(s: State, states: seq<State>, steps: seq<Step>, k: nat)
    requires IsRunFrom(s, states, steps) && Store !in steps && k <= |steps| && Invariant(s) && Covered(s)
    ensures Covered(states[k]) && states[k].agents <= states[k].limit
  {
    RunKeepsInvariant(s, states, steps, k);
    if k > 0 {
      RunKeepsInvariant(s, states, steps, k - 1);
      CoveredStays(s, states, steps, k - 1);
      assert states[k] == Next(states[k - 1], steps[k - 1]);
    }
  }

  /** Agents take every permit that is free. */
  lemma DrainFree(s: State) returns (states: seq<State>, steps: seq<Step>)
    ensures IsRunFrom(s, states, steps) && Store !in steps
    ensures states[|steps|] == s.(free := 0, agents := s.agents + s.free)
  {
    steps := seq(s.free, _ => Acquire);
    states := seq(s.free + 1, i requires 0 <= i <= s.free => s.(free := s.free - i, agents := s.agents + i));
  }

  /** In every reachable state, and wherever the refresh loop stands: agents stay within the
      limit in every continuation exactly when the limiter holds what the limit asks for. One
      missing permit is enough for some continuation to exceed the limit. */
  lemma StaysWithinLimitIff(s: State)
    requires Invariant(s)
    ensures StaysWithinLimit(s) <==> Covered(s)
    ensures s.applying.NotApplying? ==> (Covered(s) <==> Settled(s))
  {
    if Covered(s) {
      forall states: seq<State>, steps: seq<Step> | IsRunFrom(s, states, steps) && Store !in steps
        ensures states[|steps|].agents <= states[|steps|].limit
      {
        CoveredStays(s, states, steps, |steps|);
      }
    } else {
      var states, steps := DrainFree(s);
      assert states[|steps|].agents == MAX_SUBAGENTS - s.borrowed > s.limit;
    }
  }

  /** A shortfall lasts: from a state between two calls the limiter borrows no permit and gives
      none back until a new limit is stored, whatever agents do and however often the current
      limit is applied again. */
  lemma {:induction false} ShortfallLasts(s: State, states: seq<State>, steps: seq<Step>, k: nat)
    requires IsRunFrom(s, states, steps) && Store !in steps && k <= |steps| && s.applying.NotApplying?
    ensures states[k].borrowed == s.borrowed && states[k].limit == s.limit
    ensures states[k].applying.NotApplying? || states[k].applying.Storing?
    ensures Settled(states[k]) <==> Settled(s)
  {
    if k > 0 {
      ShortfallLasts(s, states, steps, k - 1);
      assert states[k] == Next(states[k - 1], steps[k - 1]);
    }
  }

  /** The limit is not kept at the start: with the default limit of six, nothing is borrowed. */
  lemma StartExceedsLimit() returns (states: seq<State>, steps: seq<Step>)
    ensures IsRun(states, steps)
    ensures states[|steps|].agents == MAX_SUBAGENTS > states[|steps|].limit == DEFAULT_SUBAGENTS
    ensures states[|steps|].applying == NotApplying
  {
    states, steps := DrainFree(INIT);
  }

  /** A decrease cut short is not repaired when agents finish: the freed permits go back to
      agents, and the next refresh with the same limit returns early. */
  lemma ShortfallPersists() returns (states: seq<State>, steps: seq<Step>)
    ensures IsRun(states, steps)
    ensures var last := states[|steps|];
            last.applying == NotApplying && last.limit == MIN_SUBAGENTS && last.agents == 7 && last.borrowed == 0
  {
    var drained, acquires := DrainFree(INIT);
    steps := acquires + [Apply(3), Store, Take, Return, Drop, Apply(3)];
    states := drained
            + [State(0, 8, 0, 6, Storing(3)), State(0, 8, 0, 3, Taking(5)), State(0, 8, 0, 3, Returning(5)),
               State(0, 8, 0, 3, NotApplying), State(1, 7, 0, 3, NotApplying), State(1, 7, 0, 3, NotApplying)];
  }

  // ---- one change of the limit

  /** A changing call that stored its limit at step `j` and leaves its loops at step `k`. */
  predicate OneChange(states: seq<State>, steps: seq<Step>, j: nat, k: nat)
    requires IsRun(states, steps)
  {
    && j < k < |steps|
    && steps[j] == Store && steps[k] == Return
    && (forall m :: j < m <= k ==> states[m].applying != NotApplying)
    && states[k + 1].applying == NotApplying
  }

  lemma {:induction false} SoFar(states: seq<State>, steps: seq<Step>, j: nat, k: nat, m: nat)
    requires IsRun(states, steps) && OneChange(states, steps, j, k) && j < m <= k
    ensures states[m].limit == states[j + 1].limit
    ensures states[m].applying.Taking? || states[m].applying.Returning?
    ensures states[m].applying.Returning? && states[m].borrowed < Target(states[m].limit) ==>
              exists n :: j < n < m && steps[n] == Take && states[n].free == 0
    decreases m
  {
    Accounting(states, steps, m - 1);
    assert states[m] == Next(states[m - 1], steps[m - 1]);
    if m > j + 1 {
      SoFar(states, steps, j, k, m - 1);
    }
  }

  lemma StepStaysBetween(s: State, step: Step, was: nat)
    requires Enabled(s, step) && Invariant(s) && (s.applying.Taking? || s.applying.Returning?)
    requires Min(was, Target(s.limit)) <= s.borrowed <= Max(was, Target(s.limit))
    ensures Min(was, Target(s.limit)) <= Next(s, step).borrowed <= Max(was, Target(s.limit))
  {
  }

  lemma InsideChange(states: seq<State>, steps: seq<Step>, j: nat, k: nat, m: nat)
    requires IsRun(states, steps) && OneChange(states, steps, j, k) && j < m <= k
    ensures m + 1 < |states| == |steps| + 1
    ensures Invariant(states[m]) && (states[m].applying.Taking? || states[m].applying.Returning?)
    ensures states[m].limit == states[j + 1].limit
    ensures Enabled(states[m], steps[m]) && states[m + 1] == Next(states[m], steps[m])
  {
    Accounting(states, steps, m);
    SoFar(states, steps, j, k, m);
  }

  lemma AfterStore(states: seq<State>, steps: seq<Step>, j: nat, k: nat)
    requires IsRun(states, steps) && OneChange(states, steps, j, k)
    ensures states[j + 1].borrowed == states[j].borrowed
  {
    assert states[j + 1] == Next(states[j], steps[j]);
  }

  /** On the way the limiter never holds more or less than it did before or needs in the end. */
  lemma {:induction false} ChangeStaysBetween(states: seq<State>, steps: seq<Step>, j: nat, k: nat, m: nat)
    requires IsRun(states, steps) && OneChange(states, steps, j, k) && j < m <= k + 1
    ensures var was, needed := states[j].borrowed, Target(states[j + 1].limit);
            Min(was, needed) <= states[m].borrowed <= Max(was, needed)
    decreases m
  {
    hide Invariant, Target, IsRun, Enabled, Next;
    if m == j + 1 {
      AfterStore(states, steps, j, k);
    } else {
      ChangeStaysBetween(states, steps, j, k, m - 1);
      InsideChange(states, steps, j, k, m - 1);
      StepStaysBetween(states[m - 1], steps[m - 1], states[j].borrowed);
    }
  }

  /** A changing call either settles or met a moment without a free permit. */
  lemma ChangeSettlesOrFindsNoPermit(states: seq<State>, steps: seq<Step>, j: nat, k: nat)
    requires IsRun(states, steps) && OneChange(states, steps, j, k)
    ensures Settled(states[k + 1]) || exists n :: j < n < k && steps[n] == Take && states[n].free == 0
  {
    Accounting(states, steps, k);
    Accounting(states, steps, k + 1);
    SoFar(states, steps, j, k, k);
    assert states[k + 1] == Next(states[k], steps[k]);
  }

  lemma {:induction false} QuietSoFar(states: seq<State>, steps: seq<Step>, j: nat, k: nat, m: nat)
    requires IsRun(states, steps) && OneChange(states, steps, j, k) && j < m <= k
    requires Step.Acquire !in steps[j..k] && Drop !in steps[j..k]
    ensures states[m].agents == states[j].agents
    ensures states[m].applying.Returning? && states[m].borrowed < Target(states[m].limit) ==> states[m].free == 0
    decreases m
  {
    SoFar(states, steps, j, k, m);
    Accounting(states, steps, m - 1);
    assert states[m] == Next(states[m - 1], steps[m - 1]);
    assert steps[m - 1] == steps[j..k][m - 1 - j];
    if m > j + 1 {
      QuietSoFar(states, steps, j, k, m - 1);
    }
  }

  /** When no agent moves meanwhile, a change takes what it needs or all it can get, and settles
      exactly when agents hold no more than the new limit. */
  lemma QuietChange(states: seq<State>, steps: seq<Step>, j: nat, k: nat)
    requires IsRun(states, steps) && OneChange(states, steps, j, k)
    requires Step.Acquire !in steps[j..k] && Drop !in steps[j..k]
    ensures var after := states[k + 1];
            && after.agents == states[j].agents
            && after.borrowed == Min(Target(after.limit), MAX_SUBAGENTS - after.agents)
            && (Settled(after) <==> after.agents <= after.limit)
  {
    SoFar(states, steps, j, k, k);
    QuietSoFar(states, steps, j, k, k);
    Accounting(states, steps, k + 1);
    assert states[k + 1] == Next(states[k], steps[k]);
  }

  lemma RunSnoc(states: seq<State>, steps: seq<Step>, step: Step)
    requires IsRun(states, steps) && Enabled(states[|steps|], step)
    ensures IsRun(states + [Next(states[|steps|], step)], steps + [step])
  {
    hide Enabled, Next;
  }

  // ---- the limiter itself

  /** The semaphore and the limiter's own permits, together with the run that led here. Agents
      take and drop permits between any two turns of the loops. */
  class SubagentLimiter {
    var freePermits: nat
    var agentPermits: nat
    var restrictionPermits: nat
    var currentLimit: nat
    ghost var applying: Applying
    ghost var states: seq<State>
    ghost var steps: seq<Step>

    ghost function Value(): State
      reads this
    {
      State(freePermits, agentPermits, restrictionPermits, currentLimit, applying)
    }

    ghost predicate Valid()
      reads this
    {
      |states| == |steps| + 1 && IsRun(states, steps) && states[|steps|] == Value()
    }

    constructor ()
      ensures Valid() && steps == [] && Value() == INIT
    {
      freePermits, agentPermits, restrictionPermits, currentLimit := MAX_SUBAGENTS, 0, 0, DEFAULT_SUBAGENTS;
      applying, states, steps := NotApplying, [INIT], [];
    }

    /** Records a step that has just been made. */
    ghost method Did(step: Step)
      requires IsRun(states, steps) && Enabled(states[|steps|], step) && Value() == Next(states[|steps|], step)
      modifies `states, `steps
      ensures Valid() && steps == old(steps) + [step] && states == old(states) + [Value()]
    {
      RunSnoc(states, steps, step);
      states, steps := states + [Value()], steps + [step];
    }

    method Acquire() returns (ok: bool)
      requires Valid()
      modifies `freePermits, `agentPermits, `states, `steps
      ensures Valid() && ok == Enabled(old(Value()), Step.Acquire)
      ensures steps == if ok then old(steps) + [Step.Acquire] else old(steps)
      ensures states == if ok then old(states) + [Value()] else old(states)
    {
      ok := freePermits > 0;
      if ok {
        freePermits, agentPermits := freePermits - 1, agentPermits + 1;
        Did(Step.Acquire);
      }
    }

    method Release()
      requires Valid() && agentPermits > 0
      modifies `freePermits, `agentPermits, `states, `steps
      ensures Valid() && steps == old(steps) + [Step.Drop] && states == old(states) + [Value()]
    {
      freePermits, agentPermits := freePermits + 1, agentPermits - 1;
      Did(Step.Drop);
    }

    /** Any number of agents take or drop a permit. */
    method AgentsMove()
      requires Valid()
      modifies `freePermits, `agentPermits, `states, `steps
      ensures Valid() && old(steps) <= steps && old(states) <= states
      ensures forall m :: |old(steps)| <= m < |steps| ==> steps[m] == Step.Acquire || steps[m] == Step.Drop
      ensures forall m :: |old(steps)| <= m <= |steps| ==> states[m].applying == applying
    {
      hide IsRunFrom;
      var moves: nat :| moves >= 0;
      for _ := 0 to moves
        invariant Valid() && old(steps) <= steps && old(states) <= states
        invariant forall m :: |old(steps)| <= m < |steps| ==> steps[m] == Step.Acquire || steps[m] == Step.Drop
        invariant forall m :: |old(steps)| <= m <= |steps| ==> states[m].applying == applying
      {
        var arrives: bool := *;
        if arrives {
          var _ := Acquire();
        } else if agentPermits > 0 {
          Release();
        }
      }
    }

    /** The limit was stored at step `j`, and its loops have not been left since. */
    ghost predicate Changing(j: nat)
      reads this
    {
      && j < |steps| && |states| == |steps| + 1 && steps[j] == Store
      && forall m :: j < m <= |steps| ==> states[m].applying != NotApplying
    }

    /** The loop that borrows permits, up to the turn that leaves it. */
    method TakePermits(targetRestriction: nat, ghost j: nat)
      requires Valid() && Changing(j) && applying == Taking(targetRestriction)
      modifies this
      ensures Valid() && Changing(j) && applying == Returning(targetRestriction)
      ensures old(steps) <= steps && old(states) <= states && currentLimit == old(currentLimit)
    {
      hide IsRunFrom;
      while restrictionPermits < targetRestriction
        invariant Valid() && Changing(j) && applying == Taking(targetRestriction)
        invariant old(steps) <= steps && old(states) <= states && currentLimit == old(currentLimit)
        decreases targetRestriction - restrictionPermits
      {
        AgentsMove();
        if freePermits > 0 {
          freePermits := freePermits - 1;
          restrictionPermits := restrictionPermits + 1;
          Did(Take);
        } else {
          applying := Returning(targetRestriction);
          Did(Take);
          return;
        }
      }
      applying := Returning(targetRestriction);
      Did(Take);
    }

    /** The loop that gives permits back. */
    method ReturnPermits(targetRestriction: nat, ghost j: nat)
      requires Valid() && Changing(j) && applying == Returning(targetRestriction)
      modifies this
      ensures Valid() && applying == NotApplying && j + 1 < |steps| && OneChange(states, steps, j, |steps| - 1)
      ensures old(steps) <= steps && old(states) <= states && currentLimit == old(currentLimit)
    {
      hide IsRunFrom;
      while restrictionPermits > targetRestriction
        invariant Valid() && Changing(j) && applying == Returning(targetRestriction)
        invariant old(steps) <= steps && old(states) <= states && currentLimit == old(currentLimit)
        decreases restrictionPermits
      {
        AgentsMove();
        restrictionPermits := restrictionPermits - 1;
        freePermits := freePermits + 1;
        Did(Return);
      }
      applying := NotApplying;
      Did(Return);
    }

    /** The first part of a change: the current limit has been read, and the new one is stored. */
    method StoreLimit(newLimit: nat) returns (ghost stored: nat)
      requires Valid() && applying == NotApplying && newLimit != currentLimit
      modifies this
      ensures Valid() && Changing(stored) && applying == Taking(Target(newLimit)) && currentLimit == newLimit
      ensures old(steps) + [Apply(newLimit)] <= steps && old(states) <= states
      ensures |old(steps)| < stored && Store !in steps[|old(steps)|..stored] && states[stored].applying == Storing(newLimit)
    {
      hide IsRunFrom;
      applying := Storing(newLimit);
      Did(Apply(newLimit));
      AgentsMove();
      stored := |steps|;
      currentLimit, applying := newLimit, Taking(Target(newLimit));
      Did(Store);
    }

    /** Every call is a stretch of a run of the steps above: with the current limit it is one
        step that changes nothing; with another limit it is one change, which settles the
        limiter or met a moment without a free permit. */
    method ApplyLimit(newLimit: nat) returns (ghost stored: nat)
      requires Valid() && applying == NotApplying
      modifies this
      ensures Valid() && applying == NotApplying && currentLimit == newLimit
      ensures old(steps) + [Apply(newLimit)] <= steps && old(states) <= states
      ensures newLimit == old(currentLimit) ==> steps == old(steps) + [Apply(newLimit)] && Value() == old(Value())
      ensures newLimit != old(currentLimit) ==>
                && |old(steps)| < stored && OneChange(states, steps, stored, |steps| - 1)
                && Store !in steps[|old(steps)|..stored] && states[stored].applying == Storing(newLimit)
                && (Settled(Value()) || exists n :: stored < n < |steps| - 1 && steps[n] == Take && states[n].free == 0)
    {
      hide IsRunFrom;
      stored := |steps|;
      var current := currentLimit;
      if newLimit == current {
        Did(Apply(newLimit));
        return;
      }
      stored := StoreLimit(newLimit);
      var targetRestriction := SatSub(MAX_SUBAGENTS, newLimit);
      TakePermits(targetRestriction, stored);
      ReturnPermits(targetRestriction, stored);
      ChangeSettlesOrFindsNoPermit(states, steps, stored, |steps| - 1);
    }
  }
}

/** The budget that decides whether a boss may start another child task. */
module BossBudget {
  import opened Text

  const ACTIVE_CAP: nat := 6
  const LINEAGE_DEPTH_CAP: nat := 1

  datatype Role = Implement | Research | Verify

  function RoleCap(role: Role): nat {
    match role case Implement => 3 case Research => 2 case Verify => 2
  }

  datatype TaskStatus = Pending | Running | Completed | Failed | Killed

  datatype Pressure = Normal | Warning | Critical

  datatype Task = Task(status: TaskStatus, isBossTask: bool, role: Option<Role>)

  datatype Decision = Allow | Queue | Deny

  predicate IsActiveBossTask(t: Task) {
    (t.status == Pending || t.status == Running) && t.isBossTask
  }

  datatype Snapshot = Snapshot(activeTotal: nat, activeImplement: nat, activeResearch: nat, activeVerify: nat) {
    function ForRole(role: Role): nat {
      match role case Implement => activeImplement case Research => activeResearch case Verify => activeVerify
    }
  }

  /** The places of the active boss tasks. */
  function ActiveTasks(tasks: seq<Task>): set<nat> {
    set i | 0 <= i < |tasks| && IsActiveBossTask(tasks[i])
  }

  function ActiveInRole(tasks: seq<Task>, role: Role): set<nat> {
    set i | 0 <= i < |tasks| && IsActiveBossTask(tasks[i]) && tasks[i].role == Some(role)
  }

  /** Counts in one pass what the sets of active tasks count. */
  method BossBudgetSnapshot(tasks: seq<Task>) returns (snapshot: Snapshot)
    ensures snapshot.activeTotal == |ActiveTasks(tasks)|
    ensures forall role: Role :: snapshot.ForRole(role) == |ActiveInRole(tasks, role)|
  {
    var total, implement, research, verify := 0, 0, 0, 0;
    assert ActiveTasks(tasks[..0]) == {};
    assert forall role :: ActiveInRole(tasks[..0], role) == {};
    for k := 0 to |tasks|
      invariant total == |ActiveTasks(tasks[..k])|
      invariant implement == |ActiveInRole(tasks[..k], Implement)|
      invariant research == |ActiveInRole(tasks[..k], Research)|
      invariant verify == |ActiveInRole(tasks[..k], Verify)|
    {
      var task := tasks[k];
      CountSnoc(tasks[..k], task);
      assert tasks[..k + 1] == tasks[..k] + [task];
      if IsActiveBossTask(task) {
        total := total + 1;
        match task.role {
          case Some(Implement) => implement := implement + 1;
          case Some(Research) => research := research + 1;
          case Some(Verify) => verify := verify + 1;
          case None =>
        }
      }
    }
    assert tasks[..|tasks|] == tasks;
    snapshot := Snapshot(total, implement, research, verify);
  }

  lemma RoleCountSnoc(tasks: seq<Task>, task: Task, role: Role)
    ensures |ActiveInRole(tasks + [task], role)|
         == |ActiveInRole(tasks, role)| + if IsActiveBossTask(task) && task.role == Some(role) then 1 else 0
  {
    var added := if IsActiveBossTask(task) && task.role == Some(role) then {|tasks|} else {};
    assert ActiveInRole(tasks + [task], role) == ActiveInRole(tasks, role) + added;
  }

  lemma CountSnoc(tasks: seq<Task>, task: Task)
    ensures |ActiveTasks(tasks + [task])| == |ActiveTasks(tasks)| + if IsActiveBossTask(task) then 1 else 0
    ensures forall role :: |ActiveInRole(tasks + [task], role)|
              == |ActiveInRole(tasks, role)| + if IsActiveBossTask(task) && task.role == Some(role) then 1 else 0
  {
    hide ActiveInRole, IsActiveBossTask;
    assert ActiveTasks(tasks + [task]) == ActiveTasks(tasks) + if IsActiveBossTask(task) then {|tasks|} else {};
    forall role
      ensures |ActiveInRole(tasks + [task], role)|
           == |ActiveInRole(tasks, role)| + if IsActiveBossTask(task) && task.role == Some(role) then 1 else 0
    {
      RoleCountSnoc(tasks, task, role);
    }
  }

  /** `evaluate_boss_budget`. */
  function Evaluate(tasks: seq<Task>, role: Role, lineageDepth: nat, pressure: Pressure): Decision {
    if lineageDepth > LINEAGE_DEPTH_CAP then Deny
    else if pressure == Critical && role == Research then Deny
    else if pressure == Critical && role == Verify then Queue
    else if |ActiveTasks(tasks)| >= ACTIVE_CAP then Queue
    else if |ActiveInRole(tasks, role)| >= RoleCap(role) then Queue
    else if pressure == Warning && (role == Research || role == Verify) then Queue
    else Allow
  }

  method EvaluateBossBudget(tasks: seq<Task>, role: Role, lineageDepth: nat, pressure: Pressure) returns (decision: Decision)
    ensures decision == Evaluate(tasks, role, lineageDepth, pressure)
  {
    if lineageDepth > LINEAGE_DEPTH_CAP {
      return Deny;
    }
    if pressure == Critical && role == Research {
      return Deny;
    }
    if pressure == Critical && role == Verify {
      return Queue;
    }
    var snapshot := BossBudgetSnapshot(tasks);
    if snapshot.activeTotal >= ACTIVE_CAP {
      return Queue;
    }
    if snapshot.ForRole(role) >= RoleCap(role) {
      return Queue;
    }
    if pressure == Warning && (role == Research || role == Verify) {
      return Queue;
    }
    return Allow;
  }

  /** Without memory pressure and within the lineage cap, a child of an admissible store is
      allowed exactly when the store with the child in it is admissible too. */
  lemma AllowIffRoom(tasks: seq<Task>, role: Role, lineageDepth: nat)
    requires WithinBudget(tasks) && lineageDepth <= LINEAGE_DEPTH_CAP
    ensures Evaluate(tasks, role, lineageDepth, Normal) == Allow <==> WithinBudget(tasks + [Task(Pending, true, Some(role))])
  {
    CountSnoc(tasks, Task(Pending, true, Some(role)));
  }

  /** A denied child is refused whatever happens to the store and even if the pressure falls to
      a warning, or it is a researcher under critical pressure; a queued one would be allowed in
      an empty store without pressure. */
  lemma DeniedOrQueued(tasks: seq<Task>, role: Role, lineageDepth: nat, pressure: Pressure)
    ensures lineageDepth >= 2 ==> Evaluate(tasks, role, lineageDepth, pressure) == Deny
    ensures Evaluate(tasks, role, lineageDepth, pressure) == Deny <==>
              forall other: seq<Task> :: Evaluate(other, role, lineageDepth, pressure) == Deny
    ensures Evaluate(tasks, role, lineageDepth, pressure) == Deny ==>
              lineageDepth >= 2 || (role == Research && pressure == Critical)
    ensures role == Research && pressure == Critical ==> Evaluate(tasks, role, lineageDepth, pressure) == Deny
    ensures Evaluate(tasks, role, lineageDepth, pressure) == Queue ==> Evaluate([], role, lineageDepth, Normal) == Allow
    ensures role != Implement && pressure != Normal ==> Evaluate(tasks, role, lineageDepth, pressure) != Allow
  {
    assert ActiveTasks([]) == {} && forall r :: ActiveInRole([], r) == {};
  }

  function Severity(p: Pressure): nat {
    match p case Normal => 0 case Warning => 1 case Critical => 2
  }

  /** More pressure never turns a refusal into `Allow`, and never holds back an implementer. */
  lemma PressureOnlyRefuses(tasks: seq<Task>, role: Role, lineageDepth: nat, low: Pressure, high: Pressure)
    requires Severity(low) <= Severity(high)
    ensures Evaluate(tasks, role, lineageDepth, high) == Allow ==> Evaluate(tasks, role, lineageDepth, low) == Allow
    ensures role == Implement ==> Evaluate(tasks, role, lineageDepth, high) == Evaluate(tasks, role, lineageDepth, low)
  {
  }

  // ---- runs of the store

  /** A boss child is created only after `Allow`, the test and the creation being one step.
      Other tasks come and go, and a task only leaves the active statuses. */
  datatype Event =
    | CreateChild(role: Role, lineageDepth: nat, pressure: Pressure)
    | CreateOther(anyRole: Option<Role>)
    | Start(i: nat)
    | Finish(i: nat, status: TaskStatus)

  function Next(tasks: seq<Task>, e: Event): seq<Task> {
    match e
    case CreateChild(role, lineageDepth, pressure) =>
      if Evaluate(tasks, role, lineageDepth, pressure) == Allow then tasks + [Task(Pending, true, Some(role))] else tasks
    case CreateOther(role) => tasks + [Task(Pending, false, role)]
    case Start(i) => if i < |tasks| && tasks[i].status == Pending then tasks[i := tasks[i].(status := Running)] else tasks
    case Finish(i, status) =>
      if i < |tasks| && status in {Completed, Failed, Killed} && tasks[i].status in {Pending, Running}
      then tasks[i := tasks[i].(status := status)] else tasks
  }

  function Run(tasks: seq<Task>, events: seq<Event>): seq<Task> {
    if events == [] then tasks else Next(Run(tasks, events[..|events| - 1]), events[|events| - 1])
  }

  /** At most six active boss tasks, of which three implement, two research and two verify. */
  predicate WithinBudget(tasks: seq<Task>) {
    && |ActiveTasks(tasks)| <= 6
    && |ActiveInRole(tasks, Implement)| <= 3
    && |ActiveInRole(tasks, Research)| <= 2
    && |ActiveInRole(tasks, Verify)| <= 2
  }

  lemma SubsetSize(a: set<nat>, b: set<nat>)
    requires a <= b
    ensures |a| <= |b|
  {
    assert b == a + (b - a);
  }

  lemma FewerActive(before: seq<Task>, after: seq<Task>)
    requires |after| == |before|
    requires forall i :: 0 <= i < |after| && IsActiveBossTask(after[i]) ==> IsActiveBossTask(before[i]) && after[i].role == before[i].role
    requires WithinBudget(before)
    ensures WithinBudget(after)
  {
    SubsetSize(ActiveTasks(after), ActiveTasks(before));
    SubsetSize(ActiveInRole(after, Implement), ActiveInRole(before, Implement));
    SubsetSize(ActiveInRole(after, Research), ActiveInRole(before, Research));
    SubsetSize(ActiveInRole(after, Verify), ActiveInRole(before, Verify));
  }

  lemma StepStaysWithinBudget(tasks: seq<Task>, e: Event)
    requires WithinBudget(tasks)
    ensures WithinBudget(Next(tasks, e))
  {
    match e
    case CreateChild(role, lineageDepth, pressure) => CountSnoc(tasks, Task(Pending, true, Some(role)));
    case CreateOther(role) => CountSnoc(tasks, Task(Pending, false, role));
    case Start(i) => FewerActive(tasks, Next(tasks, e));
    case Finish(i, status) => FewerActive(tasks, Next(tasks, e));
  }

  /** In every reachable state at most six boss tasks are active, of which at most three
      implement, two research and two verify. */
  lemma {:induction false} RunStaysWithinBudget(events: seq<Event>)
    ensures WithinBudget(Run([], events))
    decreases |events|
  {
    if events == [] {
      assert ActiveTasks([]) == {} && forall role :: ActiveInRole([], role) == {};
    } else {
      RunStaysWithinBudget(events[..|events| - 1]);
      StepStaysWithinBudget(Run([], events[..|events| - 1]), events[|events| - 1]);
    }
  }

  /** What the events do to the store: an allowed child takes a place in its role, a finished
      task gives one back, and starting a task does neither. */
  lemma EventsMovePlaces(tasks: seq<Task>, role: Role, pressure: Pressure, lineageDepth: nat, i: nat, status: TaskStatus)
    ensures Evaluate(tasks, role, lineageDepth, pressure) == Allow ==>
              var after := Next(tasks, CreateChild(role, lineageDepth, pressure));
              |ActiveTasks(after)| == |ActiveTasks(tasks)| + 1 && |ActiveInRole(after, role)| == |ActiveInRole(tasks, role)| + 1
    ensures i < |tasks| && tasks[i].status == Pending ==>
              Next(tasks, Start(i))[i].status == Running && ActiveTasks(Next(tasks, Start(i))) == ActiveTasks(tasks)
    ensures i < |tasks| && IsActiveBossTask(tasks[i]) && status in {Completed, Failed, Killed} ==>
              ActiveTasks(Next(tasks, Finish(i, status))) == ActiveTasks(tasks) - {i}
  {
    CountSnoc(tasks, Task(Pending, true, Some(role)));
  }

  lemma RunSnoc(tasks: seq<Task>, events: seq<Event>, e: Event)
    ensures Run(tasks, []) == tasks && Run(tasks, events + [e]) == Next(Run(tasks, events), e)
  {
    assert (events + [e])[..|events|] == events;
  }

  /** When the test and the creation are two steps, two tests can both pass for the last place. */
  lemma SeparateTestOversteps() returns (tasks: seq<Task>)
    ensures WithinBudget(tasks)
    ensures Evaluate(tasks, Research, 0, Normal) == Allow
    ensures !WithinBudget(tasks + [Task(Pending, true, Some(Research))] + [Task(Pending, true, Some(Research))])
  {
    var child := Task(Pending, true, Some(Research));
    RunStaysWithinBudget([CreateChild(Research, 0, Normal)]);
    assert [CreateChild(Research, 0, Normal)][..0] == [];
    assert ActiveTasks([]) == {} && forall role :: ActiveInRole([], role) == {};
    tasks := [child];
    CountSnoc([], child);
    assert [] + [child] == tasks;
    CountSnoc(tasks, child);
    CountSnoc(tasks + [child], child);
  }
}
