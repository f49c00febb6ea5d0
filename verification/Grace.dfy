/**
 The grace budget under concurrent ticks.

 A tick is several database steps: a conditional increment, a re-read, the first-entry time
 stamp, and a clamp. `Run` executes any list of steps of any number of ticks in any order,
 mixed with resets and the passing of time; nothing is assumed about row locks unless a lemma
 says so.
 */
module Grace {
  import opened Wrappers

  const CAP: nat := 900_000

  datatype Row = Row(usedMs: nat, cycleStart: Option<int>)

  datatype Phase =
    | Incremented
    | Reread(value: nat, startWasNull: bool, readEpoch: nat)
    | Continued(epoch: nat)
    | Stopped

  /** A tick that passed the conditional increment. Epochs count the resets that took effect. */
  datatype Tick = Tick(delta: nat, incrementEpoch: nat, phase: Phase)

  datatype State = State(row: Row, now: int, epoch: nat, ticks: seq<Tick>)

  datatype Action =
    | Increment(deltaMs: int)
    | Read(tick: nat)
    | StampStart(tick: nat)
    | Finish(tick: nat, clampSucceeds: bool)
    | Abandon(tick: nat)
    | Reset(cycleStart: Option<int>)
    | Advance(ms: nat)

  function Min(a: int, b: int): int { if a <= b then a else b }

  /** Which rows the reset's filter selects. */
  predicate ResetApplies(row: Row, cycleStart: Option<int>) {
    match cycleStart
    case None => true
    case Some(c) =>
      match row.cycleStart
      case Some(start) => start < c
      case None => row.usedMs == 0
  }

  function SetPhase(s: State, i: nat, phase: Phase): State
    requires i < |s.ticks|
  {
    s.(ticks := s.ticks[i := s.ticks[i].(phase := phase)])
  }

  /** One step; a step that is not enabled does nothing. */
  function Apply(s: State, a: Action): State {
    match a
    case Increment(deltaMs) =>
      if deltaMs <= 0 || s.row.usedMs >= CAP then s
      else
        var delta := Min(deltaMs, CAP);
        s.(row := s.row.(usedMs := s.row.usedMs + delta), ticks := s.ticks + [Tick(delta, s.epoch, Incremented)])
    case Read(i) =>
      if i < |s.ticks| && s.ticks[i].phase.Incremented?
      then SetPhase(s, i, Reread(s.row.usedMs, s.row.cycleStart.None?, s.epoch))
      else s
    case StampStart(i) =>
      if i < |s.ticks| && s.ticks[i].phase.Reread? && s.ticks[i].phase.startWasNull
      then
        var stamped := if s.row.cycleStart.None? then s.row.(cycleStart := Some(s.now)) else s.row;
        SetPhase(s, i, s.ticks[i].phase.(startWasNull := false)).(row := stamped)
      else s
    case Finish(i, clampSucceeds) =>
      if i < |s.ticks| && s.ticks[i].phase.Reread? && !s.ticks[i].phase.startWasNull
      then
        if s.ticks[i].phase.value >= CAP
        then SetPhase(s, i, Stopped).(row := if clampSucceeds then s.row.(usedMs := CAP) else s.row)
        else SetPhase(s, i, Continued(s.ticks[i].phase.readEpoch))
      else s
    case Abandon(i) =>
      if i < |s.ticks| && !s.ticks[i].phase.Continued? then SetPhase(s, i, Stopped) else s
    case Reset(c) =>
      if ResetApplies(s.row, c) then s.(row := Row(0, None), epoch := s.epoch + 1) else s
    case Advance(ms) => s.(now := s.now + ms)
  }

  function Run(s: State, actions: seq<Action>): State
    decreases |actions|
  {
    if actions == [] then s else Run(Apply(s, actions[0]), actions[1..])
  }

  // ---------- sums over ticks ----------

  /** The tick was, or is bound to be, told to continue by a re-read in the given epoch. */
  predicate ToldIn(t: Tick, epoch: nat) {
    match t.phase
    case Reread(value, _, e) => value < CAP && e == epoch
    case Continued(e) => e == epoch
    case _ => false
  }

  /** Milliseconds added to the row in an epoch. */
  function Spent(ticks: seq<Tick>, epoch: nat): nat {
    if ticks == [] then 0
    else Spent(ticks[..|ticks| - 1], epoch) + (var t := ticks[|ticks| - 1]; if t.incrementEpoch == epoch then t.delta else 0)
  }

  /** Milliseconds of the ticks added and told to continue in one and the same epoch. */
  function ToldSum(ticks: seq<Tick>, epoch: nat): nat {
    if ticks == [] then 0
    else
      ToldSum(ticks[..|ticks| - 1], epoch)
      + (var t := ticks[|ticks| - 1]; if t.incrementEpoch == epoch && ToldIn(t, epoch) then t.delta else 0)
  }

  lemma {:induction false} ToldIsSpent(ticks: seq<Tick>, epoch: nat)
    ensures ToldSum(ticks, epoch) <= Spent(ticks, epoch)
  {
    if ticks != [] { ToldIsSpent(ticks[..|ticks| - 1], epoch); }
  }

  lemma {:induction false} PhaseKeepsSpent(ticks: seq<Tick>, i: nat, phase: Phase, epoch: nat)
    requires i < |ticks|
    ensures Spent(ticks[i := ticks[i].(phase := phase)], epoch) == Spent(ticks, epoch)
  {
    var n := |ticks| - 1;
    var after := ticks[i := ticks[i].(phase := phase)];
    if i < n {
      assert after[..n] == ticks[..n][i := ticks[i].(phase := phase)];
      PhaseKeepsSpent(ticks[..n], i, phase, epoch);
    } else {
      assert after[..n] == ticks[..n];
    }
  }

  lemma {:induction false} PhaseOnlyDropsTold(ticks: seq<Tick>, i: nat, phase: Phase, epoch: nat)
    requires i < |ticks|
    requires var t := ticks[i].(phase := phase);
      t.incrementEpoch == epoch && ToldIn(t, epoch) ==> ToldIn(ticks[i], epoch)
    ensures ToldSum(ticks[i := ticks[i].(phase := phase)], epoch) <= ToldSum(ticks, epoch)
  {
    var n := |ticks| - 1;
    var after := ticks[i := ticks[i].(phase := phase)];
    if i < n {
      assert after[..n] == ticks[..n][i := ticks[i].(phase := phase)];
      PhaseOnlyDropsTold(ticks[..n], i, phase, epoch);
    } else {
      assert after[..n] == ticks[..n];
    }
  }

  lemma {:induction false} FutureEpochIsEmpty(ticks: seq<Tick>, epoch: nat)
    requires forall t | t in ticks :: t.incrementEpoch < epoch
    ensures Spent(ticks, epoch) == 0
  {
    if ticks != [] { FutureEpochIsEmpty(ticks[..|ticks| - 1], epoch); }
  }

  // ---------- the invariant of every run ----------

  /**
   Below the cap the row holds exactly what this epoch added, it never reaches twice the cap,
   and in every epoch the ticks told to continue leave some grace unspent.
   */
  ghost predicate Inv(s: State) {
    && s.row.usedMs < 2 * CAP
    && (s.row.usedMs < CAP ==> s.row.usedMs == Spent(s.ticks, s.epoch))
    && (forall t | t in s.ticks :: t.incrementEpoch <= s.epoch)
    && (forall e: nat :: ToldSum(s.ticks, e) < CAP)
  }

  lemma PhaseStep(s: State, i: nat, phase: Phase)
    requires Inv(s) && i < |s.ticks|
    requires ToldIn(s.ticks[i].(phase := phase), s.ticks[i].incrementEpoch)
      ==> ToldIn(s.ticks[i], s.ticks[i].incrementEpoch)
    ensures Inv(SetPhase(s, i, phase))
    ensures Spent(SetPhase(s, i, phase).ticks, s.epoch) == Spent(s.ticks, s.epoch)
  {
    PhaseKeepsSpent(s.ticks, i, phase, s.epoch);
    forall e: nat ensures ToldSum(SetPhase(s, i, phase).ticks, e) < CAP {
      PhaseOnlyDropsTold(s.ticks, i, phase, e);
      assert ToldSum(s.ticks, e) < CAP;
    }
  }

  lemma ReadStep(s: State, i: nat)
    requires Inv(s) && i < |s.ticks|
    ensures Inv(SetPhase(s, i, Reread(s.row.usedMs, s.row.cycleStart.None?, s.epoch)))
  {
    var phase := Reread(s.row.usedMs, s.row.cycleStart.None?, s.epoch);
    var after := SetPhase(s, i, phase);
    PhaseKeepsSpent(s.ticks, i, phase, s.epoch);
    forall e: nat ensures ToldSum(after.ticks, e) < CAP {
      if e == s.epoch && s.row.usedMs < CAP {
        ToldIsSpent(after.ticks, e);
      } else {
        PhaseOnlyDropsTold(s.ticks, i, phase, e);
        assert ToldSum(s.ticks, e) < CAP;
      }
    }
  }

  lemma IncrementStep(s: State, deltaMs: int)
    requires Inv(s) && deltaMs > 0 && s.row.usedMs < CAP
    ensures Inv(Apply(s, Increment(deltaMs)))
  {
    var after := Apply(s, Increment(deltaMs));
    assert after.ticks[..|s.ticks|] == s.ticks;
    forall e: nat ensures ToldSum(after.ticks, e) < CAP {
      assert ToldSum(s.ticks, e) < CAP;
    }
  }

  lemma StepKeepsInv(s: State, a: Action)
    requires Inv(s)
    ensures Inv(Apply(s, a))
  {
    match a
    case Increment(deltaMs) => if deltaMs > 0 && s.row.usedMs < CAP { IncrementStep(s, deltaMs); }
    case Read(i) => if i < |s.ticks| && s.ticks[i].phase.Incremented? { ReadStep(s, i); }
    case StampStart(i) =>
      if i < |s.ticks| && s.ticks[i].phase.Reread? { PhaseStep(s, i, s.ticks[i].phase.(startWasNull := false)); }
    case Finish(i, _) =>
      if i < |s.ticks| && s.ticks[i].phase.Reread? {
        if s.ticks[i].phase.value >= CAP { PhaseStep(s, i, Stopped); }
        else { PhaseStep(s, i, Continued(s.ticks[i].phase.readEpoch)); }
      }
    case Abandon(i) => if i < |s.ticks| { PhaseStep(s, i, Stopped); }
    case Reset(c) => FutureEpochIsEmpty(s.ticks, s.epoch + 1);
    case Advance(_) =>
  }

  lemma {:induction false} RunKeepsInv(s: State, actions: seq<Action>)
    requires Inv(s)
    ensures Inv(Run(s, actions))
    decreases |actions|
  {
    if actions != [] {
      StepKeepsInv(s, actions[0]);
      RunKeepsInv(Apply(s, actions[0]), actions[1..]);
    }
  }

  function Fresh(now: int): State { State(Row(0, None), now, 0, []) }

  /** However ticks interleave: less than fifteen minutes per epoch, and stored usage below twice the cap. */
  lemma GraceIsBounded(now: int, actions: seq<Action>, epoch: nat)
    ensures Run(Fresh(now), actions).row.usedMs < 2 * CAP
    ensures ToldSum(Run(Fresh(now), actions).ticks, epoch) < CAP
  {
    assert Inv(Fresh(now));
    RunKeepsInv(Fresh(now), actions);
  }

  // ---------- ticks split by a reset ----------

  /** Told to continue, in whatever epoch. */
  predicate Told(t: Tick) {
    match t.phase
    case Reread(value, _, _) => value < CAP
    case Continued(_) => true
    case _ => false
  }

  /** Milliseconds of the ticks added in an epoch and told to continue in any epoch. */
  function AllToldSum(ticks: seq<Tick>, epoch: nat): nat {
    if ticks == [] then 0
    else
      AllToldSum(ticks[..|ticks| - 1], epoch)
      + (var t := ticks[|ticks| - 1]; if t.incrementEpoch == epoch && Told(t) then t.delta else 0)
  }

  /** A reset that lands between two ticks' increments and re-reads lets both continue on one cap. */
  lemma SplitTicksExceedTheCap()
    ensures
      var s := Run(Fresh(0), [Increment(600_000), Increment(600_000), Reset(None), Read(0), Read(1)]);
      AllToldSum(s.ticks, 0) == 1_200_000
  {
    var s0 := Fresh(0);
    var s1 := Apply(s0, Increment(600_000));
    var s2 := Apply(s1, Increment(600_000));
    var s3 := Apply(s2, Reset(None));
    var s4 := Apply(s3, Read(0));
    var s5 := Apply(s4, Read(1));
    var a := [Increment(600_000), Increment(600_000), Reset(None), Read(0), Read(1)];
    assert a[1..] == [Increment(600_000), Reset(None), Read(0), Read(1)];
    assert a[1..][1..] == [Reset(None), Read(0), Read(1)];
    assert a[1..][1..][1..] == [Read(0), Read(1)];
    assert a[1..][1..][1..][1..] == [Read(1)];
    assert a[1..][1..][1..][1..][1..] == [];
    var t := Tick(600_000, 0, Reread(0, true, 1));
    assert s5.ticks == [t, t];
    assert [t, t][..1] == [t] && [t][..0] == [];
    assert AllToldSum([t], 0) == 600_000;
    assert AllToldSum([t, t], 0) == 1_200_000;
  }

  /**
   What the transaction gives: the conditional update's row lock is held until the tick has
   re-read, so no reset takes effect while a tick is between the two.
   */
  predicate LockHeld(s: State, a: Action) {
    a.Reset? && ResetApplies(s.row, a.cycleStart) ==> forall t | t in s.ticks :: !t.phase.Incremented?
  }

  predicate LockedRun(s: State, actions: seq<Action>)
    decreases |actions|
  {
    actions == [] || (LockHeld(s, actions[0]) && LockedRun(Apply(s, actions[0]), actions[1..]))
  }

  predicate Unsplit(s: State) {
    forall t | t in s.ticks ::
      match t.phase
      case Incremented => t.incrementEpoch == s.epoch
      case Reread(_, _, e) => e == t.incrementEpoch
      case Continued(e) => e == t.incrementEpoch
      case Stopped => true
  }

  lemma {:induction false} LockedRunIsUnsplit(s: State, actions: seq<Action>)
    requires Unsplit(s) && LockedRun(s, actions)
    ensures Unsplit(Run(s, actions))
    decreases |actions|
  {
    if actions != [] {
      assert Unsplit(Apply(s, actions[0]));
      LockedRunIsUnsplit(Apply(s, actions[0]), actions[1..]);
    }
  }

  lemma {:induction false} UnsplitSums(ticks: seq<Tick>, epoch: nat)
    requires forall t | t in ticks && Told(t) :: ToldIn(t, t.incrementEpoch)
    ensures AllToldSum(ticks, epoch) == ToldSum(ticks, epoch)
  {
    if ticks != [] { UnsplitSums(ticks[..|ticks| - 1], epoch); }
  }

  /** With the row lock, every tick told to continue counts against the cap of its own epoch. */
  lemma GraceIsBoundedUnderLock(now: int, actions: seq<Action>, epoch: nat)
    requires LockedRun(Fresh(now), actions)
    ensures AllToldSum(Run(Fresh(now), actions).ticks, epoch) < CAP
  {
    LockedRunIsUnsplit(Fresh(now), actions);
    UnsplitSums(Run(Fresh(now), actions).ticks, epoch);
    GraceIsBounded(now, actions, epoch);
  }

  // ---------- the start stamp ----------

  /** A tick without time, or with nothing left, adds nothing. */
  lemma NothingIsAdded(s: State, deltaMs: int)
    ensures deltaMs <= 0 || s.row.usedMs >= 900_000 ==> Apply(s, Increment(deltaMs)) == s
    ensures 0 < deltaMs && s.row.usedMs < 900_000 ==>
      Apply(s, Increment(deltaMs)).row.usedMs == s.row.usedMs + (if deltaMs < 900_000 then deltaMs else 900_000)
  {
  }

  /** A tick that is given up leaves what it added, and is told nothing. */
  lemma AbandonedExactly(s: State, i: nat)
    requires i < |s.ticks|
    ensures var t := Apply(s, Abandon(i));
      && t.row == s.row && t.epoch == s.epoch && |t.ticks| == |s.ticks|
      && t.ticks[i] == (if s.ticks[i].phase.Continued? then s.ticks[i] else s.ticks[i].(phase := Stopped))
  {
  }

  /** The first stamp of a cycle stays until a reset takes effect, however many ticks saw none. */
  lemma StartIsKept(s: State, a: Action)
    requires s.row.cycleStart.Some?
    ensures Apply(s, a).row.cycleStart == s.row.cycleStart || (a.Reset? && Apply(s, a).row == Row(0, None))
  {
  }

  /** A tick that need not stamp, or was told to continue, in this epoch finds a start. */
  predicate Stamped(s: State) {
    forall t | t in s.ticks ::
      match t.phase
      case Reread(_, startWasNull, e) => e <= s.epoch && (!startWasNull && e == s.epoch ==> s.row.cycleStart.Some?)
      case Continued(e) => e <= s.epoch && (e == s.epoch ==> s.row.cycleStart.Some?)
      case _ => true
  }

  lemma {:induction false} RunStaysStamped(s: State, actions: seq<Action>)
    requires Stamped(s)
    ensures Stamped(Run(s, actions))
    decreases |actions|
  {
    if actions != [] {
      StepStaysStamped(s, actions[0]);
      hide Apply, Stamped;
      RunStaysStamped(Apply(s, actions[0]), actions[1..]);
    }
  }

  lemma StepStaysStamped(s: State, a: Action)
    requires Stamped(s)
    ensures Stamped(Apply(s, a))
  {
  }

  /** In every execution a tick told to continue since the last reset has a start to count from. */
  lemma ContinuingIsStamped(now: int, actions: seq<Action>, i: nat)
    requires i < |Run(Fresh(now), actions).ticks|
    requires Run(Fresh(now), actions).ticks[i].phase == Continued(Run(Fresh(now), actions).epoch)
    ensures Run(Fresh(now), actions).row.cycleStart.Some?
  {
    RunStaysStamped(Fresh(now), actions);
    assert Run(Fresh(now), actions).ticks[i] in Run(Fresh(now), actions).ticks;
  }

  // ---------- replayed resets ----------

  /** A reset for a cycle empties the budget exactly when usage predates the cycle or there is none. */
  lemma ResetRefillsExactly(s: State, c: int)
    ensures Apply(s, Reset(Some(c))).row.usedMs == 0 <==>
      s.row.usedMs == 0 || (s.row.cycleStart.Some? && s.row.cycleStart.value < c)
  {
  }

  predicate StartedSince(s: State, c: int) {
    c <= s.now && (s.row.cycleStart.Some? ==> c <= s.row.cycleStart.value)
  }

  lemma {:induction false} RunStaysSince(s: State, actions: seq<Action>, c: int)
    requires StartedSince(s, c)
    ensures StartedSince(Run(s, actions), c)
    decreases |actions|
  {
    if actions != [] { RunStaysSince(Apply(s, actions[0]), actions[1..], c); }
  }

  /**
   Once a cycle's reset was made, whether it took effect or not, replaying it, or any earlier
   cycle's reset, leaves the row as it is, whatever ticks and resets came in between.
   */
  lemma ReplayedResetRefillsNothing(s: State, c: int, actions: seq<Action>, replay: int)
    requires c <= s.now && replay <= c
    ensures var later := Run(Apply(s, Reset(Some(c))), actions);
      Apply(later, Reset(Some(replay))).row == later.row
  {
    RunStaysSince(Apply(s, Reset(Some(c))), actions, c);
  }

  // ---------- one call on its own ----------

  /** The outcome of an uninterrupted `enterGrace`: the new row, whether to continue, and what remains. */
  function Enter(row: Row, deltaMs: int, now: int): (Row, bool, int) {
    if deltaMs <= 0 || row.usedMs >= CAP then (row, false, 0)
    else
      var used := row.usedMs + Min(deltaMs, CAP);
      var start := if row.cycleStart.None? then Some(now) else row.cycleStart;
      if used >= CAP then (Row(CAP, start), false, 0) else (Row(used, start), true, CAP - used)
  }

  /** The uninterrupted call is one of the interleavings above. */
  lemma UninterruptedCall(s: State, deltaMs: int)
    requires deltaMs > 0 && s.row.usedMs < CAP
    ensures var i := |s.ticks|;
      var done := Run(s, [Increment(deltaMs), Read(i), StampStart(i), Finish(i, true)]);
      && |done.ticks| == i + 1
      && done.row == Enter(s.row, deltaMs, s.now).0
      && (done.ticks[i].phase.Continued? <==> Enter(s.row, deltaMs, s.now).1)
  {
    var i := |s.ticks|;
    var a := [Increment(deltaMs), Read(i), StampStart(i), Finish(i, true)];
    var s1 := Apply(s, a[0]);
    var s2 := Apply(s1, a[1]);
    var s3 := Apply(s2, a[2]);
    var s4 := Apply(s3, a[3]);
    assert s2.ticks[i].phase.value == s.row.usedMs + Min(deltaMs, CAP);
    assert s3.row == Row(s2.row.usedMs, if s.row.cycleStart.None? then Some(s.now) else s.row.cycleStart);
    assert !s3.ticks[i].phase.startWasNull;
    assert s4.row == Enter(s.row, deltaMs, s.now).0;
    assert a[1..] == [Read(i), StampStart(i), Finish(i, true)];
    assert a[1..][1..] == [StampStart(i), Finish(i, true)];
    assert a[1..][1..][1..] == [Finish(i, true)];
    assert a[1..][1..][1..][1..] == [];
    assert Run(s, a) == Run(s1, a[1..]);
    assert Run(s1, a[1..]) == Run(s2, a[1..][1..]);
    assert Run(s2, a[1..][1..]) == Run(s3, a[1..][1..][1..]);
    assert Run(s3, a[1..][1..][1..]) == s4;
  }

  /** The governing billing row, updated in place. */
  class BillingRow {
    var graceUsedMs: nat
    var graceCycleStart: Option<int>

    ghost function Value(): Row
      reads this
    {
      Row(graceUsedMs, graceCycleStart)
    }

    constructor ()
      ensures Value() == Row(0, None)
    {
      graceUsedMs := 0;
      graceCycleStart := None;
    }

    method EnterGrace(deltaMs: int, now: int) returns (shouldContinue: bool, remainingMs: int)
      modifies this
      ensures (Value(), shouldContinue, remainingMs) == Enter(old(Value()), deltaMs, now)
    {
      if deltaMs <= 0 {
        return false, 0;
      }
      var cappedDelta := if deltaMs <= CAP then deltaMs else CAP;
      if graceUsedMs >= CAP {
        return false, 0;
      }
      graceUsedMs := graceUsedMs + cappedDelta;
      if graceCycleStart.None? {
        graceCycleStart := Some(now);
      }
      var newUsedMs := graceUsedMs;
      if newUsedMs >= CAP {
        graceUsedMs := CAP;
        return false, 0;
      }
      return true, CAP - newUsedMs;
    }

    method ResetGrace(cycleStart: Option<int>)
      modifies this
      ensures Value() == if ResetApplies(old(Value()), cycleStart) then Row(0, None) else old(Value())
    {
      var applies := true;
      if cycleStart.Some? {
        applies := (graceCycleStart.Some? && graceCycleStart.value < cycleStart.value)
                || (graceCycleStart.None? && graceUsedMs == 0);
      }
      if applies {
        graceUsedMs, graceCycleStart := 0, None;
      }
    }
  }

  datatype GraceState = GraceState(inGrace: bool, usedMs: nat, remainingMs: nat, exceeded: bool)

  function GetGraceState(row: Row): GraceState {
    var exceeded := row.usedMs >= CAP;
    GraceState(row.usedMs > 0 && !exceeded, row.usedMs, if row.usedMs < CAP then CAP - row.usedMs else 0, exceeded)
  }

  /**
   The report is what an uninterrupted tick leaves: after one that continues the account is in
   grace, after one that stops, and no other, its fifteen minutes are used up; a reset row has them all.
   */
  lemma ReportedStateFollowsTicks(row: Row, deltaMs: int, now: int)
    requires deltaMs > 0
    ensures var after, state := Enter(row, deltaMs, now).0, GetGraceState(Enter(row, deltaMs, now).0);
      && (Enter(row, deltaMs, now).1 <==> state.inGrace)
      && (!Enter(row, deltaMs, now).1 <==> state.exceeded)
      && (state.exceeded <==> state.remainingMs == 0) && state.usedMs == after.usedMs
      && (state.inGrace ==> state.usedMs + state.remainingMs == 900_000)
    ensures GetGraceState(Row(0, None)) == GraceState(false, 0, 900_000, false)
    ensures GetGraceState(row).exceeded <==> Enter(row, deltaMs, now).0 == row
  {
  }

  /** A tick continues exactly when it is positive and leaves some of the reported grace. */
  lemma ReportedStatePredicts(row: Row, deltaMs: int, now: int)
    ensures Enter(row, deltaMs, now).1 <==> 0 < deltaMs < GetGraceState(row).remainingMs
    ensures Enter(row, deltaMs, now).1 ==> Enter(row, deltaMs, now).2 == GetGraceState(row).remainingMs - deltaMs
  {
  }
}
