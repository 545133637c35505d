/** The owner slot that cloned query engines share: at most one turn at a time. */
module TurnOwner {
  import opened Text

  // ---- the slot as a value

  datatype Owner = Owner(nextTurnId: nat, active: Option<nat>)

  /** `reap_finished_turn`; `finished` is the flag of the registered turn. */
  function Reaped(o: Owner, finished: bool): Owner {
    if o.active.Some? && finished then o.(active := None) else o
  }

  /** The slot after a claim, and the id that was claimed. */
  function Claimed(o: Owner, finished: bool): (Owner, Option<nat>) {
    var r := Reaped(o, finished);
    if r.active.Some? then (r, None)
    else (Owner(r.nextTurnId + 1, Some(r.nextTurnId + 1)), Some(r.nextTurnId + 1))
  }

  /** A release clears the slot only when the same turn is still registered. */
  function Released(o: Owner, turnId: nat): Owner {
    if o.active == Some(turnId) then o.(active := None) else o
  }

  // ---- the slot as it is shared

  class Flag {
    var isSet: bool

    constructor ()
      ensures !isSet
    {
      isSet := false;
    }
  }

  datatype Registration = Registration(turnId: nat, cancellation: Flag, finished: Flag)

  /** Each method runs under the lock of the slot; only `MarkFinished` does not take it. */
  class QueryEngineOwnerState {
    var nextTurnId: nat
    var activeTurn: Option<Registration>

    constructor ()
      ensures Value() == Owner(0, None)
    {
      nextTurnId, activeTurn := 0, None;
    }

    function Value(): Owner
      reads this
    {
      Owner(nextTurnId, match activeTurn case None => None case Some(r) => Some(r.turnId))
    }

    predicate ActiveFinished()
      reads this, if activeTurn.Some? then {activeTurn.value.finished} else {}
    {
      activeTurn.Some? && activeTurn.value.finished.isSet
    }

    method ReapFinishedTurn()
      modifies this`activeTurn
      ensures Value() == Reaped(old(Value()), old(ActiveFinished()))
      ensures activeTurn == if old(ActiveFinished()) then None else old(activeTurn)
    {
      if activeTurn.Some? && activeTurn.value.finished.isSet {
        activeTurn := None;
      }
    }

    method ClaimActiveTurn(cancellation: Flag) returns (claimed: Option<Registration>)
      modifies this
      ensures var (after, id) := Claimed(old(Value()), old(ActiveFinished()));
              Value() == after && (match claimed case None => id == None case Some(r) => id == Some(r.turnId))
      ensures claimed.Some? ==>
                && activeTurn == claimed
                && claimed.value.cancellation == cancellation
                && fresh(claimed.value.finished) && !claimed.value.finished.isSet
      ensures claimed.None? ==> activeTurn == old(activeTurn) && !old(ActiveFinished())
    {
      ReapFinishedTurn();
      if activeTurn.Some? {
        return None;
      }
      nextTurnId := nextTurnId + 1;
      var finished := new Flag();
      claimed := Some(Registration(nextTurnId, cancellation, finished));
      activeTurn := claimed;
    }

    static method MarkFinished(finished: Flag)
      modifies finished
      ensures finished.isSet
    {
      finished.isSet := true;
    }

    method ReleaseLocked(turnId: nat)
      modifies this`activeTurn
      ensures Value() == Released(old(Value()), turnId)
      ensures activeTurn == if old(activeTurn.Some? && activeTurn.value.turnId == turnId) then None else old(activeTurn)
    {
      if activeTurn.Some? && activeTurn.value.turnId == turnId {
        activeTurn := None;
      }
    }

    method ReleaseActiveTurn(turnId: nat, finished: Flag)
      modifies this`activeTurn, finished
      ensures finished.isSet
      ensures Value() == Released(old(Value()), turnId)
    {
      MarkFinished(finished);
      ReleaseLocked(turnId);
    }

    method HasActiveTurn() returns (active: bool)
      modifies this`activeTurn
      ensures Value() == Reaped(old(Value()), old(ActiveFinished()))
      ensures active <==> Value().active.Some?
    {
      ReapFinishedTurn();
      active := activeTurn.Some?;
    }

    method InterruptActiveTurn() returns (interrupted: bool)
      modifies this`activeTurn, if activeTurn.Some? && !activeTurn.value.finished.isSet then {activeTurn.value.cancellation} else {}
      ensures Value() == Reaped(old(Value()), old(ActiveFinished()))
      ensures interrupted <==> Value().active.Some?
      ensures interrupted ==> activeTurn == old(activeTurn) && activeTurn.value.cancellation.isSet
    {
      ReapFinishedTurn();
      if activeTurn.Some? {
        activeTurn.value.cancellation.isSet := true;
        interrupted := true;
      } else {
        interrupted := false;
      }
    }
  }

  // ---- many cloned engines, one atomic step at a time

  type Client = nat

  /** The history of a session as the turns recorded in it. */
  type History = seq<nat>

  /** Where the completion task of a turn stands: running, app state published, flag set,
      slot released. */
  datatype Phase = Running | Published | FlagSet | Done

  datatype Turn = Turn(base: History, phase: Phase)

  /** `contexts` holds the app state that each engine took when it refreshed and has not yet
      claimed with; `cancelled` the turns cancelled through an interrupt. */
  datatype State = State(owner: Owner, turns: map<nat, Turn>, latest: History, contexts: map<Client, History>, cancelled: set<nat>)

  const INIT := State(Owner(0, None), map[], [], map[], {})

  datatype Step = Refresh(c: Client) | Claim(c: Client) | Publish(t: nat) | SetFlag(t: nat) | Release(t: nat) | Interrupt | Probe

  predicate Finished(s: State, t: nat) {
    t in s.turns && (s.turns[t].phase == FlagSet || s.turns[t].phase == Done)
  }

  predicate ActiveFinished(s: State) {
    s.owner.active.Some? && Finished(s, s.owner.active.value)
  }

  predicate Enabled(s: State, step: Step) {
    match step
    case Refresh(c) => true
    case Claim(c) => c in s.contexts
    case Publish(t) => t in s.turns && s.turns[t].phase == Running
    case SetFlag(t) => t in s.turns && s.turns[t].phase == Published
    case Release(t) => t in s.turns && s.turns[t].phase == FlagSet
    case Interrupt => true
    case Probe => true
  }

  function Moved(s: State, t: nat, phase: Phase): map<nat, Turn>
    requires t in s.turns
  {
    s.turns[t := s.turns[t].(phase := phase)]
  }

  /** The history a turn publishes: its base with its own messages added. */
  function Outcome(turn: Turn, t: nat): History {
    turn.base + [t]
  }

  function Next(s: State, step: Step): State
    requires Enabled(s, step)
  {
    match step
    case Refresh(c) => s.(contexts := s.contexts[c := s.latest])
    case Claim(c) =>
      var (owner, id) := Claimed(s.owner, ActiveFinished(s));
      var rest := s.(owner := owner, contexts := s.contexts - {c});
      if id.None? then rest else rest.(turns := s.turns[id.value := Turn(s.contexts[c], Running)])
    case Publish(t) => s.(latest := Outcome(s.turns[t], t), turns := Moved(s, t, Published))
    case SetFlag(t) => s.(turns := Moved(s, t, FlagSet))
    case Release(t) => s.(owner := Released(s.owner, t), turns := Moved(s, t, Done))
    case Interrupt =>
      var owner := Reaped(s.owner, ActiveFinished(s));
      s.(owner := owner, cancelled := if owner.active.Some? then s.cancelled + {owner.active.value} else s.cancelled)
    case Probe => s.(owner := Reaped(s.owner, ActiveFinished(s)))
  }

  predicate IsRun(states: seq<State>, steps: seq<Step>) {
    && |states| == |steps| + 1
    && states[0] == INIT
    && forall k :: 0 <= k < |steps| ==> Enabled(states[k], steps[k]) && states[k + 1] == Next(states[k], steps[k])
  }

  // ---- the invariant

  /** The turn whose publication came last. */
  function LastPublished(s: State): nat {
    var n := s.owner.nextTurnId;
    if n > 0 && n in s.turns && s.turns[n].phase == Running then n - 1 else n
  }

  ghost predicate Invariant(s: State) {
    && (forall t :: t in s.turns <==> 1 <= t <= s.owner.nextTurnId)
    && (s.owner.active.Some? ==> s.owner.active.value == s.owner.nextTurnId > 0)
    && (forall t :: 1 <= t < s.owner.nextTurnId ==> Finished(s, t))
    && (s.owner.nextTurnId > 0 && !Finished(s, s.owner.nextTurnId) ==> s.owner.active.Some?)
    && (s.owner.active.Some? ==> s.turns[s.owner.nextTurnId].phase != Done)
    && s.latest == (if LastPublished(s) == 0 then [] else Outcome(s.turns[LastPublished(s)], LastPublished(s)))
  }

  lemma StepKeepsInvariant(s: State, step: Step)
    requires Invariant(s) && Enabled(s, step)
    ensures Invariant(Next(s, step))
  {
    var s' := Next(s, step);
    OnlyLastUnfinished(s);
    forall t | 1 <= t < s'.owner.nextTurnId ensures Finished(s', t) {
      assert Finished(s, t) || t == s.owner.nextTurnId;
    }
    match step {
      case Publish(t) => assert !Finished(s, t) && t == s.owner.nextTurnId;
      case SetFlag(t) => assert !Finished(s, t) && t == s.owner.nextTurnId;
      case _ =>
    }
  }

  lemma OnlyLastUnfinished(s: State)
    requires Invariant(s)
    ensures forall t :: t in s.turns && !Finished(s, t) ==> t == s.owner.nextTurnId
  {
  }

  lemma {:induction false} RunKeepsInvariant(states: seq<State>, steps: seq<Step>, k: nat)
    requires IsRun(states, steps) && k <= |steps|
    ensures Invariant(states[k])
  {
    if k > 0 {
      RunKeepsInvariant(states, steps, k - 1);
      StepKeepsInvariant(states[k - 1], steps[k - 1]);
    }
  }

  // ---- ownership

  /** At most one claimed turn is unfinished, and it is the registered one. */
  lemma UnfinishedTurnIsRegistered(states: seq<State>, steps: seq<Step>, k: nat, t: nat)
    requires IsRun(states, steps) && k <= |steps|
    requires t in states[k].turns && !Finished(states[k], t)
    ensures states[k].owner.active == Some(t)
    ensures forall u :: u in states[k].turns && !Finished(states[k], u) ==> u == t
  {
    RunKeepsInvariant(states, steps, k);
  }

  /** A claim succeeds exactly when no claimed turn is unfinished, and then gets an id greater
      than every earlier one. */
  lemma ClaimSucceedsIff(states: seq<State>, steps: seq<Step>, k: nat)
    requires IsRun(states, steps) && k < |steps| && steps[k].Claim?
    ensures var n := states[k + 1].owner.nextTurnId;
            && (n > states[k].owner.nextTurnId <==> forall t :: t in states[k].turns ==> Finished(states[k], t))
            && (n > states[k].owner.nextTurnId ==>
                  && states[k + 1].owner.active == Some(n) && n in states[k + 1].turns
                  && forall t :: t in states[k].turns ==> t < n)
            && (n <= states[k].owner.nextTurnId ==> states[k + 1].turns == states[k].turns)
  {
    RunKeepsInvariant(states, steps, k);
    var s := states[k];
    if s.owner.active.Some? {
      assert s.owner.active.value in s.turns;
    }
  }

  /** A late release never evicts another turn. */
  lemma ReleaseKeepsOthers(states: seq<State>, steps: seq<Step>, k: nat)
    requires IsRun(states, steps) && k < |steps| && steps[k].Release?
    ensures states[k + 1].owner.active == if states[k].owner.active == Some(steps[k].t) then None else states[k].owner.active
    ensures forall u :: u in states[k].turns && !Finished(states[k], u) ==> states[k + 1].owner.active == Some(u)
  {
    RunKeepsInvariant(states, steps, k);
  }

  /** Only an interrupt cancels a turn, and only the registered unfinished one. */
  lemma InterruptHitsActiveOnly(states: seq<State>, steps: seq<Step>, k: nat, t: nat)
    requires IsRun(states, steps) && k < |steps|
    requires t in states[k + 1].cancelled && t !in states[k].cancelled
    ensures steps[k] == Interrupt && states[k].owner.active == Some(t) && t in states[k].turns && !Finished(states[k], t)
  {
    RunKeepsInvariant(states, steps, k);
    assert states[k + 1] == Next(states[k], steps[k]);
  }

  /** An interrupt cancels the registered turn if it is unfinished and leaves all others alone,
      and a finished one leaves the slot. */
  lemma InterruptCancelsIff(states: seq<State>, steps: seq<Step>, k: nat, t: nat)
    requires IsRun(states, steps) && k < |steps| && steps[k] == Interrupt
    ensures t in states[k + 1].cancelled
       <==> t in states[k].cancelled || (t in states[k].turns && !Finished(states[k], t))
    ensures states[k + 1].owner.active
         == if states[k].owner.active.Some? && !Finished(states[k], states[k].owner.active.value) then states[k].owner.active else None
  {
    RunKeepsInvariant(states, steps, k);
    OnlyLastUnfinished(states[k]);
    assert states[k + 1] == Next(states[k], steps[k]);
  }

  /** A probe finds a turn exactly when one is unfinished, and cancels nothing. */
  lemma ProbeReports(states: seq<State>, steps: seq<Step>, k: nat)
    requires IsRun(states, steps) && k < |steps| && steps[k] == Probe
    ensures states[k + 1].owner.active.Some? <==> exists t :: t in states[k].turns && !Finished(states[k], t)
    ensures states[k + 1].owner.active.Some? ==> states[k + 1].owner == states[k].owner
    ensures states[k + 1].turns == states[k].turns && states[k + 1].cancelled == states[k].cancelled
  {
    RunKeepsInvariant(states, steps, k);
    OnlyLastUnfinished(states[k]);
    assert states[k + 1] == Next(states[k], steps[k]);
  }

  // ---- publication order

  /** Turns publish in the order of their ids: the state before is the one of the turn before. */
  lemma PublishesInOrder(states: seq<State>, steps: seq<Step>, k: nat)
    requires IsRun(states, steps) && k < |steps| && steps[k].Publish?
    ensures var t := steps[k].t;
            && t > 0 && LastPublished(states[k]) == t - 1 && LastPublished(states[k + 1]) == t
            && t in states[k].turns && states[k + 1].latest == Outcome(states[k].turns[t], t)
            && (t == 1 ==> states[k].latest == [])
            && (t > 1 ==> t - 1 in states[k].turns && states[k].latest == Outcome(states[k].turns[t - 1], t - 1))
  {
    RunKeepsInvariant(states, steps, k);
    RunKeepsInvariant(states, steps, k + 1);
    OnlyLastUnfinished(states[k]);
    assert !Finished(states[k], steps[k].t);
  }

  lemma OtherStepsPublishNothing(states: seq<State>, steps: seq<Step>, k: nat)
    requires IsRun(states, steps) && k < |steps| && !steps[k].Publish?
    ensures LastPublished(states[k + 1]) == LastPublished(states[k]) && states[k + 1].latest == states[k].latest
  {
    RunKeepsInvariant(states, steps, k);
    assert states[k + 1] == Next(states[k], steps[k]);
    OnlyLastUnfinished(states[k]);
    if steps[k].SetFlag? {
      assert !Finished(states[k], steps[k].t);
    }
  }

  lemma {:induction false} LastPublishedGrows(states: seq<State>, steps: seq<Step>, j: nat, k: nat)
    requires IsRun(states, steps) && j <= k <= |steps|
    ensures LastPublished(states[j]) <= LastPublished(states[k])
    ensures (exists m :: j <= m < k && steps[m].Publish?) ==> LastPublished(states[j]) < LastPublished(states[k])
    ensures (forall m :: j <= m < k ==> !steps[m].Publish?) ==> states[j].latest == states[k].latest
    decreases k - j
  {
    hide IsRun, LastPublished;
    if j < k {
      LastPublishedGrows(states, steps, j, k - 1);
      if steps[k - 1].Publish? {
        PublishesInOrder(states, steps, k - 1);
      } else {
        OtherStepsPublishNothing(states, steps, k - 1);
      }
    }
  }

  // ---- the gap between refresh and claim

  /** The claim at step `k` uses the app state that the same engine took at step `r`. */
  predicate ClaimsAfterRefresh(steps: seq<Step>, r: nat, k: nat) {
    && r < k < |steps|
    && steps[k].Claim? && steps[r] == Refresh(steps[k].c)
    && forall m :: r < m < k ==> steps[m] != Refresh(steps[k].c) && steps[m] != Claim(steps[k].c)
  }

  lemma {:induction false} ContextIsKept(states: seq<State>, steps: seq<Step>, r: nat, k: nat, m: nat)
    requires IsRun(states, steps) && ClaimsAfterRefresh(steps, r, k) && r < m <= k
    ensures steps[k].c in states[m].contexts && states[m].contexts[steps[k].c] == states[r].latest
    decreases m
  {
    if m > r + 1 {
      ContextIsKept(states, steps, r, k, m - 1);
      assert states[m] == Next(states[m - 1], steps[m - 1]);
    } else {
      assert states[m] == Next(states[r], steps[r]);
    }
  }

  /** The last id in a history. */
  function LastTurn(h: History): nat {
    if h == [] then 0 else h[|h| - 1]
  }

  /** A turn starts from the app state of the turn before it exactly when no turn published
      between the refresh and the claim of its engine. */
  lemma TurnStartsFromLastIff(states: seq<State>, steps: seq<Step>, r: nat, k: nat)
    requires IsRun(states, steps) && ClaimsAfterRefresh(steps, r, k)
    requires states[k + 1].owner.nextTurnId > states[k].owner.nextTurnId
    ensures var n := states[k + 1].owner.nextTurnId;
            && n in states[k + 1].turns
            && (states[k + 1].turns[n].base == states[k].latest <==> forall m :: r < m < k ==> !steps[m].Publish?)
            && LastTurn(states[k].latest) == n - 1
  {
    RunKeepsInvariant(states, steps, r);
    RunKeepsInvariant(states, steps, k);
    ContextIsKept(states, steps, r, k, k);
    LastPublishedGrows(states, steps, r, k);
    LatestEndsWithLast(states[r]);
    LatestEndsWithLast(states[k]);
    ClaimSucceedsIff(states, steps, k);
    assert states[k + 1] == Next(states[k], steps[k]);
  }

  lemma LatestEndsWithLast(s: State)
    requires Invariant(s)
    ensures LastTurn(s.latest) == LastPublished(s)
  {
  }

  /** Every turn in order. */
  function UpTo(n: nat): History {
    seq(n, i => i + 1)
  }

  /** No claim of the run has a publication between it and the refresh it relies on. */
  ghost predicate NoGap(steps: seq<Step>) {
    forall r, k :: ClaimsAfterRefresh(steps, r, k) ==> forall m :: r < m < k ==> !steps[m].Publish?
  }

  lemma {:induction false} RefreshBefore(states: seq<State>, steps: seq<Step>, k: nat, c: Client, m: nat) returns (r: nat)
    requires IsRun(states, steps) && m <= k < |steps| && steps[k] == Claim(c) && c in states[m].contexts
    requires forall i :: m <= i < k ==> steps[i] != Refresh(c) && steps[i] != Claim(c)
    ensures ClaimsAfterRefresh(steps, r, k)
    decreases m
  {
    assert m > 0 by { if m == 0 { assert states[0] == INIT; } }
    assert states[m] == Next(states[m - 1], steps[m - 1]);
    if steps[m - 1] == Refresh(c) {
      r := m - 1;
    } else {
      r := RefreshBefore(states, steps, k, c, m - 1);
    }
  }

  predicate Complete(s: State) {
    && s.latest == UpTo(LastPublished(s))
    && forall t :: t in s.turns && t > 0 ==> s.turns[t].base == UpTo(t - 1)
  }

  lemma ClaimIsComplete(states: seq<State>, steps: seq<Step>, k: nat)
    requires IsRun(states, steps) && NoGap(steps) && k < |steps| && steps[k].Claim?
    requires Complete(states[k])
    ensures Complete(states[k + 1])
  {
    hide Next, Claimed;
    var c := steps[k].c;
    OtherStepsPublishNothing(states, steps, k);
    ClaimSucceedsIff(states, steps, k);
    if states[k + 1].owner.nextTurnId > states[k].owner.nextTurnId {
      assert Enabled(states[k], steps[k]);
      var r := RefreshBefore(states, steps, k, c, k);
      TurnStartsFromLastIff(states, steps, r, k);
      ClaimAddsOneTurn(states, steps, k);
      UpToEnds(LastPublished(states[k]));
      var n := states[k + 1].owner.nextTurnId;
      assert forall m :: r < m < k ==> !steps[m].Publish?;
      assert states[k + 1].turns[n].base == UpTo(n - 1);
      var after := states[k + 1];
      forall t | t in after.turns && t > 0 ensures after.turns[t].base == UpTo(t - 1) {
        if t != n {
          assert t in states[k].turns && states[k].turns[t].base == UpTo(t - 1);
        }
      }
    }
  }

  lemma ClaimAddsOneTurn(states: seq<State>, steps: seq<Step>, k: nat)
    requires IsRun(states, steps) && k < |steps| && steps[k].Claim?
    ensures var n := states[k + 1].owner.nextTurnId;
            forall t :: t in states[k + 1].turns && t != n ==> t in states[k].turns && states[k + 1].turns[t] == states[k].turns[t]
  {
    RunKeepsInvariant(states, steps, k);
    RunKeepsInvariant(states, steps, k + 1);
    assert states[k + 1] == Next(states[k], steps[k]);
  }

  lemma UpToEnds(n: nat)
    ensures LastTurn(UpTo(n)) == n
  {
  }

  lemma StepIsComplete(states: seq<State>, steps: seq<Step>, k: nat)
    requires IsRun(states, steps) && k < |steps| && !steps[k].Claim?
    requires Complete(states[k])
    ensures Complete(states[k + 1])
  {
    assert states[k + 1] == Next(states[k], steps[k]);
    if steps[k].Publish? {
      PublishesInOrder(states, steps, k);
      var t := steps[k].t;
      assert UpTo(t) == UpTo(t - 1) + [t];
    } else {
      OtherStepsPublishNothing(states, steps, k);
    }
  }

  /** Without such a gap no history is ever lost: every published app state holds all turns
      up to its own, in order. */
  lemma {:induction false} NoGapNoLoss(states: seq<State>, steps: seq<Step>, k: nat)
    requires IsRun(states, steps) && NoGap(steps) && k <= |steps|
    ensures Complete(states[k])
  {
    if k > 0 {
      NoGapNoLoss(states, steps, k - 1);
      if steps[k - 1].Claim? {
        ClaimIsComplete(states, steps, k - 1);
      } else {
        StepIsComplete(states, steps, k - 1);
      }
    }
  }

  lemma RunSnoc(states: seq<State>, steps: seq<Step>, step: Step)
    requires IsRun(states, steps) && Enabled(states[|steps|], step)
    ensures IsRun(states + [Next(states[|steps|], step)], steps + [step])
  {
    hide Enabled, Next;
  }

  /** Two engines refresh, and the second one runs a whole turn. */
  lemma TurnBehindRefresh() returns (states: seq<State>, steps: seq<Step>)
    ensures IsRun(states, steps) && steps == [Refresh(0), Refresh(1), Claim(1), Publish(1), SetFlag(1), Release(1)]
    ensures states[|steps|] == State(Owner(1, None), map[1 := Turn([], Done)], [1], map[0 := []], {})
  {
    var s2 := State(Owner(0, None), map[], [], map[0 := [], 1 := []], {});
    var s3 := State(Owner(1, Some(1)), map[1 := Turn([], Running)], [], map[0 := []], {});
    var s4 := s3.(latest := [1], turns := map[1 := Turn([], Published)]);
    var s5 := s4.(turns := map[1 := Turn([], FlagSet)]);
    var s6 := s5.(owner := Owner(1, None), turns := map[1 := Turn([], Done)]);
    assert s2.contexts - {1} == map[0 := []];
    assert Next(s2, Claim(1)) == s3;
    assert Next(s3, Publish(1)) == s4;
    assert Next(s4, SetFlag(1)) == s5;
    assert Next(s5, Release(1)) == s6;
    steps := [Refresh(0), Refresh(1), Claim(1), Publish(1), SetFlag(1), Release(1)];
    states := [INIT, Next(INIT, Refresh(0)), s2, s3, s4, s5, s6];
  }

  /** With a gap the app state in memory loses a turn: two engines refresh, one runs a whole
      turn, and the turn that the other one then claims publishes an app state without it. With
      a session store the history is still in the store. */
  lemma GapLosesHistory() returns (states: seq<State>, steps: seq<Step>)
    ensures IsRun(states, steps)
    ensures states[|steps|].latest == [2] && Finished(states[|steps|], 1)
  {
    states, steps := TurnBehindRefresh();
    var s6 := states[|steps|];
    RunSnoc(states, steps, Claim(0));
    var s7 := Next(s6, Claim(0));
    RunSnoc(states + [s7], steps + [Claim(0)], Publish(2));
    states, steps := states + [s7] + [Next(s7, Publish(2))], steps + [Claim(0)] + [Publish(2)];
  }
}
