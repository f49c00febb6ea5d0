/**
 Publication of one schedule's due occurrences by overlapping polls.

 The row's due timestamp is its pending occurrence. A poll works from a snapshot of the row: it
 claims the occurrence by compare-and-swap (creating a scan in the same transaction), enqueues
 the scan, and puts the occurrence back only when the enqueue provably never reached the queue.
 A user's edit reads the row, computes a due timestamp from the clock, and writes later without
 looking again. `Run` executes any list of steps of any number of polls and edits, mixed with
 crashes and queue commands that land late. The scan of a claim is named by the poll that
 created it.
 */
module ScheduleOccurrence {
  import opened Wrappers

  datatype Row = Row(enabled: bool, updatedAt: int, nextRunAt: Option<int>, lastRunAt: Option<int>, lastScan: Option<nat>)

  /** What is known of the queue command of a poll's scan. */
  datatype Publication = Unclaimed | NotAttempted | Attempted | NeverSubmitted

  /**
   `Deferred` polls found active work or no worker; `Retained` ones had their enqueue acknowledged
   or left uncertain, and keep the scan.
   */
  datatype Phase = Checking | Deferred | Enqueueing | Retained | Cleaning | MarkedFailed | SlotReleased | Ended

  datatype Poll = Poll(snapshot: Row, now: int, next: int, phase: Phase, publication: Publication,
                       started: bool, restored: bool)

  datatype Stage = Read(missing: bool) | Computed(nextRunAt: Option<int>) | Closed

  datatype Edit = Edit(enabled: Option<bool>, newCron: bool, stage: Stage)

  datatype Author = ByPoll(poll: nat) | ByEdit(edit: nat)

  /** A write of the due timestamp. */
  datatype Move = Move(author: Author, before: Option<int>, after: Option<int>)

  datatype State = State(row: Row, clock: int, polls: seq<Poll>, edits: seq<Edit>, jobs: set<nat>, moves: seq<Move>)

  datatype Action =
    | Fetch(now: int, next: int)
    | Defer(poll: nat)
    | DisableUnsupported(poll: nat)
    | Block(poll: nat)
    | Claim(poll: nat)
    | Attempt(poll: nat)
    | EnqueueFails(poll: nat)
    | EnqueueReturns(poll: nat)
    | JobLands(poll: nat)
    | WorkerStarts(poll: nat)
    | MarkFailed(poll: nat)
    | ReleaseSlot(poll: nat)
    | Restore(poll: nat)
    | Crash(poll: nat)
    | ReadSchedule(enabled: Option<bool>, newCron: bool)
    | ComputeNext(edit: nat, runAt: Option<int>)
    | WriteSchedule(edit: nat)
    | Tick(ms: nat)

  predicate Due(nextRunAt: Option<int>, now: int) {
    nextRunAt.None? || nextRunAt.value <= now
  }

  /** Order of due timestamps; a missing one is due at once. */
  predicate Before(a: Option<int>, b: Option<int>) {
    b.Some? && (a.None? || a.value < b.value)
  }

  /** The row is still the pending occurrence the poll read. */
  predicate Matches(row: Row, p: Poll) {
    row.enabled && row.updatedAt == p.snapshot.updatedAt && row.nextRunAt == p.snapshot.nextRunAt && Due(row.nextRunAt, p.now)
  }

  /** The row is exactly as the claim of poll `i` left it. */
  predicate ClaimStands(row: Row, p: Poll, i: nat) {
    row.enabled && row.updatedAt == p.now && row.lastRunAt == Some(p.now) && row.nextRunAt == Some(p.next) && row.lastScan == Some(i)
  }

  predicate In(s: State, i: nat, phase: Phase) {
    i < |s.polls| && s.polls[i].phase == phase
  }

  function Set(s: State, i: nat, p: Poll): State
    requires i < |s.polls|
  {
    s.(polls := s.polls[i := p])
  }

  function Become(s: State, i: nat, phase: Phase): State
    requires i < |s.polls|
  {
    Set(s, i, s.polls[i].(phase := phase))
  }

  /** Write the due timestamp. */
  function SetDue(s: State, author: Author, due: Option<int>): State {
    s.(row := s.row.(nextRunAt := due), moves := s.moves + [Move(author, s.row.nextRunAt, due)])
  }

  predicate CanClaim(s: State, i: nat) {
    In(s, i, Checking) && s.polls[i].next > s.polls[i].now && Matches(s.row, s.polls[i])
  }

  function ApplyCheck(s: State, a: Action): State
    requires a.Defer? || a.DisableUnsupported? || a.Block? || a.Claim?
  {
    if !In(s, a.poll, Checking) then s
    else
      var i, p := a.poll, s.polls[a.poll];
      match a
      case Defer(_) => Become(s, i, Deferred)
      case DisableUnsupported(_) =>
        if s.row.updatedAt == p.snapshot.updatedAt
        then Become(s, i, Ended).(row := s.row.(enabled := false, updatedAt := s.clock))
        else Become(s, i, Ended)
      case Block(_) =>
        if !CanClaim(s, i) then Become(s, i, Ended)
        else
          var t := SetDue(Become(s, i, Ended), ByPoll(i), Some(p.next));
          t.(row := t.row.(lastRunAt := Some(p.now), updatedAt := s.clock))
      case Claim(_) =>
        if !CanClaim(s, i) then Become(s, i, Ended)
        else
          var t := SetDue(Set(s, i, p.(phase := Enqueueing, publication := NotAttempted)), ByPoll(i), Some(p.next));
          t.(row := t.row.(lastRunAt := Some(p.now), updatedAt := p.now, lastScan := Some(i)))
  }

  function ApplyEnqueue(s: State, a: Action): State
    requires a.Attempt? || a.EnqueueFails? || a.EnqueueReturns? || a.JobLands? || a.WorkerStarts?
  {
    var i := a.poll;
    if i >= |s.polls| then s
    else
      var p := s.polls[i];
      match a
      case Attempt(_) =>
        if p.phase.Enqueueing? && p.publication.NotAttempted? then Set(s, i, p.(publication := Attempted)) else s
      case EnqueueFails(_) =>
        if !p.phase.Enqueueing? then s
        else if p.publication.NotAttempted? then Set(s, i, p.(phase := Cleaning, publication := NeverSubmitted))
        else Become(s, i, Retained)
      case EnqueueReturns(_) => if p.phase.Enqueueing? && i in s.jobs then Become(s, i, Retained) else s
      case JobLands(_) => if p.publication.Attempted? then s.(jobs := s.jobs + {i}) else s
      case WorkerStarts(_) => if i in s.jobs then Set(s, i, p.(started := true)) else s
  }

  function ApplyCleanup(s: State, a: Action): State
    requires a.MarkFailed? || a.ReleaseSlot? || a.Restore? || a.Crash?
  {
    var i := a.poll;
    if i >= |s.polls| then s
    else
      var p := s.polls[i];
      match a
      case MarkFailed(_) => if p.phase.Cleaning? then Become(s, i, MarkedFailed) else s
      case ReleaseSlot(_) => if p.phase.MarkedFailed? then Become(s, i, SlotReleased) else s
      case Restore(_) =>
        if !p.phase.SlotReleased? then s
        else if p.started || !ClaimStands(s.row, p, i) then Become(s, i, Ended)
        else
          var t := SetDue(Set(s, i, p.(phase := Ended, restored := true)), ByPoll(i), p.snapshot.nextRunAt);
          t.(row := t.row.(lastRunAt := p.snapshot.lastRunAt, updatedAt := s.clock))
      case Crash(_) => if p.phase.Deferred? || p.phase.Retained? then s else Become(s, i, Ended)
  }

  /** An edit computes a timestamp for a new cron, or when it enables a row that has none. */
  function ApplyEdit(s: State, a: Action): State
    requires a.ReadSchedule? || a.ComputeNext? || a.WriteSchedule?
  {
    match a
    case ReadSchedule(enabled, newCron) =>
      s.(edits := s.edits + [Edit(enabled, newCron, Read(s.row.nextRunAt.None?))])
    case ComputeNext(i, runAt) =>
      if i >= |s.edits| || !s.edits[i].stage.Read? || (runAt.Some? && runAt.value <= s.clock) then s
      else
        var e := s.edits[i];
        var needed := e.newCron || (e.enabled == Some(true) && e.stage.missing);
        s.(edits := s.edits[i := e.(stage := if e.newCron && runAt.None? then Closed
                                             else Computed(if needed then runAt else None))])
    case WriteSchedule(i) =>
      if i >= |s.edits| || !s.edits[i].stage.Computed? then s
      else
        var e := s.edits[i];
        var t := s.(edits := s.edits[i := e.(stage := Closed)]);
        var u := if e.stage.nextRunAt.Some? then SetDue(t, ByEdit(i), e.stage.nextRunAt) else t;
        u.(row := u.row.(enabled := if e.enabled.Some? then e.enabled.value else u.row.enabled, updatedAt := s.clock))
  }

  /** One step; a step that is not enabled does nothing. */
  function Apply(s: State, a: Action): State {
    match a
    case Fetch(now, next) =>
      if s.row.enabled && now <= s.clock && Due(s.row.nextRunAt, now)
      then s.(polls := s.polls + [Poll(s.row, now, next, Checking, Unclaimed, false, false)])
      else s
    case Defer(_) => ApplyCheck(s, a)
    case DisableUnsupported(_) => ApplyCheck(s, a)
    case Block(_) => ApplyCheck(s, a)
    case Claim(_) => ApplyCheck(s, a)
    case Attempt(_) => ApplyEnqueue(s, a)
    case EnqueueFails(_) => ApplyEnqueue(s, a)
    case EnqueueReturns(_) => ApplyEnqueue(s, a)
    case JobLands(_) => ApplyEnqueue(s, a)
    case WorkerStarts(_) => ApplyEnqueue(s, a)
    case MarkFailed(_) => ApplyCleanup(s, a)
    case ReleaseSlot(_) => ApplyCleanup(s, a)
    case Restore(_) => ApplyCleanup(s, a)
    case Crash(_) => ApplyCleanup(s, a)
    case ReadSchedule(_, _) => ApplyEdit(s, a)
    case ComputeNext(_, _) => ApplyEdit(s, a)
    case WriteSchedule(_) => ApplyEdit(s, a)
    case Tick(ms) => s.(clock := s.clock + ms)
  }

  function Run(s: State, actions: seq<Action>): State
    decreases |actions|
  {
    if actions == [] then s else Run(Apply(s, actions[0]), actions[1..])
  }

  // ---------- when a step takes effect ----------

  /** A poll gets the row as it is exactly when that is enabled and due at the poll's time. */
  lemma FetchedExactly(s: State, now: int, next: int)
    ensures Apply(s, Fetch(now, next)) ==
      if s.row.enabled && now <= s.clock && (s.row.nextRunAt.None? || s.row.nextRunAt.value <= now)
      then s.(polls := s.polls + [Poll(s.row, now, next, Checking, Unclaimed, false, false)]) else s
  {
  }

  /** The row is enabled, unedited and still due as the poll read it, and the poll has a later time for it. */
  predicate Untouched(s: State, i: nat)
    requires i < |s.polls|
  {
    var p := s.polls[i];
    && s.row.enabled && s.row.updatedAt == p.snapshot.updatedAt && s.row.nextRunAt == p.snapshot.nextRunAt
    && (s.row.nextRunAt.None? || s.row.nextRunAt.value <= p.now) && p.now < p.next
  }

  /**
   A claim, and a denial that advances the row, takes effect exactly when nothing touched the row
   since the poll read it; the row's new fields are the poll's, and only a claim may publish.
   */
  lemma ClaimedExactly(s: State, i: nat)
    requires In(s, i, Checking)
    ensures var t, p := Apply(s, Claim(i)), s.polls[i];
      && t.row == (if Untouched(s, i) then Row(true, p.now, Some(p.next), Some(p.now), Some(i)) else s.row)
      && |t.polls| == |s.polls|
      && t.polls[i] == (if Untouched(s, i) then p.(phase := Enqueueing, publication := NotAttempted) else p.(phase := Ended))
    ensures var t, p := Apply(s, Block(i)), s.polls[i];
      && t.row == (if Untouched(s, i) then Row(true, s.clock, Some(p.next), Some(p.now), s.row.lastScan) else s.row)
      && |t.polls| == |s.polls| && t.polls[i] == p.(phase := Ended)
  {
  }

  /**
   An enqueue that fails before its command was attempted goes on to the cleanup; after that, and
   when it returns, which it does only with its job in the queue, the claim is kept for good.
   */
  lemma EnqueueEndsExactly(s: State, i: nat)
    requires In(s, i, Enqueueing)
    ensures var p, q := s.polls[i], Apply(s, EnqueueFails(i)).polls;
      && |q| == |s.polls|
      && q[i] == (if p.publication.NotAttempted? then p.(phase := Cleaning, publication := NeverSubmitted) else p.(phase := Retained))
    ensures Apply(s, EnqueueReturns(i)) == if i in s.jobs then Become(s, i, Retained) else s
    ensures Apply(s, WorkerStarts(i)) == if i in s.jobs then Set(s, i, s.polls[i].(started := true)) else s
  {
  }

  /**
   A restore puts the due and last-run times back exactly when the row still is, field by field, as
   the claim left it and no worker has started the scan; any other write since then stops it.
   */
  lemma RestoredExactly(s: State, i: nat)
    requires In(s, i, SlotReleased)
    ensures var t, p := Apply(s, Restore(i)), s.polls[i];
      var stands := !p.started && s.row == Row(true, p.now, Some(p.next), Some(p.now), Some(i));
      && t.row == (if stands then Row(true, s.clock, p.snapshot.nextRunAt, p.snapshot.lastRunAt, Some(i)) else s.row)
      && |t.polls| == |s.polls| && t.polls[i] == p.(phase := Ended, restored := p.restored || stands)
  {
  }

  /** A crash ends a poll wherever it is, and leaves the row, the jobs and the polls that are done. */
  lemma CrashedExactly(s: State, i: nat)
    requires i < |s.polls|
    ensures var t := Apply(s, Crash(i));
      && t.row == s.row && t.jobs == s.jobs && |t.polls| == |s.polls|
      && t.polls[i].phase == (if s.polls[i].phase in {Deferred, Retained} then s.polls[i].phase else Ended)
      && t.polls[i].publication == s.polls[i].publication
  {
  }

  /** An unsupported schedule is disabled exactly when it was not edited since the poll read it; its other fields stay. */
  lemma DisabledExactly(s: State, i: nat)
    requires In(s, i, Checking)
    ensures var t := Apply(s, DisableUnsupported(i));
      && t.row == (if s.row.updatedAt == s.polls[i].snapshot.updatedAt
                   then Row(false, s.clock, s.row.nextRunAt, s.row.lastRunAt, s.row.lastScan) else s.row)
      && t.moves == s.moves && t.jobs == s.jobs
  {
  }

  /**
   An edit computes a timestamp only for a new cron or for enabling a row that had none, and then
   one later than its clock; a new cron without a next time is refused.
   */
  lemma ComputedExactly(s: State, e: nat, runAt: Option<int>)
    requires e < |s.edits| && s.edits[e].stage.Read? && (runAt.Some? ==> s.clock < runAt.value)
    ensures var t, edit := Apply(s, ComputeNext(e, runAt)), s.edits[e];
      && |t.edits| == |s.edits| && t.row == s.row
      && (t.edits[e].stage.Closed? <==> edit.newCron && runAt.None?)
      && (!t.edits[e].stage.Closed? ==>
            var needed := edit.newCron || (edit.enabled == Some(true) && edit.stage.missing);
            t.edits[e].stage == Computed(if needed then runAt else None))
    ensures forall past | past <= s.clock :: Apply(s, ComputeNext(e, Some(past))) == s
  {
  }

  /** The write stores what the edit asked for: the timestamp computed, if any, and the switch, if any. */
  lemma WrittenExactly(s: State, e: nat)
    requires e < |s.edits| && s.edits[e].stage.Computed?
    ensures var t, edit := Apply(s, WriteSchedule(e)), s.edits[e];
      t.row == Row(if edit.enabled.Some? then edit.enabled.value else s.row.enabled, s.clock,
                   if edit.stage.nextRunAt.Some? then edit.stage.nextRunAt else s.row.nextRunAt,
                   s.row.lastRunAt, s.row.lastScan)
  {
  }

  // ---------- the invariant of every run ----------

  /** The occurrence that a poll claimed or wants to claim. */
  function Occurrence(s: State, i: nat): Option<int>
    requires i < |s.polls|
  {
    s.polls[i].snapshot.nextRunAt
  }

  /** A job for the poll's scan exists or may still appear. */
  predicate MayPublish(p: Poll) {
    p.publication.Attempted? || (p.publication.NotAttempted? && p.phase.Enqueueing?)
  }

  predicate Live(s: State, i: nat) {
    i < |s.polls| && MayPublish(s.polls[i])
  }

  /** The due timestamp comes after every occurrence that has a job or may still get one. */
  ghost predicate AfterAll(s: State, due: Option<int>) {
    forall i: nat | Live(s, i) :: Before(Occurrence(s, i), due)
  }

  /** Live claims are of distinct occurrences, all before the pending one and before the last claim's. */
  ghost predicate ClaimsInOrder(s: State) {
    && AfterAll(s, s.row.nextRunAt)
    && (forall i: nat, j: nat | Live(s, i) && Live(s, j) && i != j :: Occurrence(s, i) != Occurrence(s, j))
    && (s.row.lastScan.Some? ==>
          s.row.lastScan.value < |s.polls|
          && forall j: nat | Live(s, j) && j != s.row.lastScan.value ::
               Before(Occurrence(s, j), Occurrence(s, s.row.lastScan.value)))
  }

  /** What a poll's record says about its publication. */
  predicate RecordHolds(p: Poll, hasJob: bool, clock: int) {
    && p.now <= clock
    && (hasJob ==> p.publication.Attempted?)
    && (MayPublish(p) ==> Due(p.snapshot.nextRunAt, clock))
    && (p.phase.Checking? ==> p.publication.Unclaimed?)
    && (p.phase.Cleaning? || p.phase.MarkedFailed? || p.phase.SlotReleased? || p.restored ==> p.publication.NeverSubmitted?)
  }

  ghost predicate RecordsHold(s: State) {
    && (forall i | i in s.jobs :: i < |s.polls|)
    && forall i: nat | i < |s.polls| :: RecordHolds(s.polls[i], i in s.jobs, s.clock)
  }

  ghost predicate Inv(s: State) { ClaimsInOrder(s) && RecordsHold(s) }

  /** At most one poll's record changes, and it still holds. */
  lemma OneRecordChanges(s: State, t: State, i: nat)
    requires RecordsHold(s) && i < |s.polls| && t.clock == s.clock
    requires |t.polls| == |s.polls| && t.polls == s.polls[i := t.polls[i]]
    requires t.jobs == s.jobs || t.jobs == s.jobs + {i}
    requires RecordHolds(t.polls[i], i in t.jobs, t.clock)
    ensures RecordsHold(t)
  {
    hide RecordHolds;
    forall j: nat | j < |t.polls| && j != i ensures RecordHolds(t.polls[j], j in t.jobs, t.clock) {
      assert RecordHolds(s.polls[j], j in s.jobs, s.clock);
    }
  }

  predicate IsCheck(a: Action) { a.Defer? || a.DisableUnsupported? || a.Block? || a.Claim? }

  predicate IsEnqueue(a: Action) {
    a.Attempt? || a.EnqueueFails? || a.EnqueueReturns? || a.JobLands? || a.WorkerStarts?
  }

  predicate IsCleanup(a: Action) { a.MarkFailed? || a.ReleaseSlot? || a.Restore? || a.Crash? }

  predicate IsEdit(a: Action) { a.ReadSchedule? || a.ComputeNext? || a.WriteSchedule? }

  lemma CheckKeepsRecords(s: State, a: Action)
    requires RecordsHold(s) && IsCheck(a)
    ensures RecordsHold(ApplyCheck(s, a))
  {
    if In(s, a.poll, Checking) {
      assert RecordHolds(s.polls[a.poll], a.poll in s.jobs, s.clock);
      hide RecordsHold;
      OneRecordChanges(s, ApplyCheck(s, a), a.poll);
    }
  }

  lemma EnqueueKeepsRecords(s: State, a: Action)
    requires RecordsHold(s) && IsEnqueue(a)
    ensures RecordsHold(ApplyEnqueue(s, a))
  {
    if a.poll < |s.polls| {
      assert RecordHolds(s.polls[a.poll], a.poll in s.jobs, s.clock);
      hide RecordsHold;
      OneRecordChanges(s, ApplyEnqueue(s, a), a.poll);
    }
  }

  lemma CleanupKeepsRecords(s: State, a: Action)
    requires RecordsHold(s) && IsCleanup(a)
    ensures RecordsHold(ApplyCleanup(s, a))
  {
    if a.poll < |s.polls| {
      assert RecordHolds(s.polls[a.poll], a.poll in s.jobs, s.clock);
      hide RecordsHold, ClaimStands;
      OneRecordChanges(s, ApplyCleanup(s, a), a.poll);
    }
  }

  lemma StepKeepsRecords(s: State, a: Action)
    requires RecordsHold(s)
    ensures RecordsHold(Apply(s, a))
  {
    hide ApplyCheck, ApplyEnqueue, ApplyCleanup;
    if IsCheck(a) {
      CheckKeepsRecords(s, a);
    } else if IsEnqueue(a) {
      EnqueueKeepsRecords(s, a);
    } else if IsCleanup(a) {
      CleanupKeepsRecords(s, a);
    } else {
      var t := Apply(s, a);
      forall i: nat | i < |t.polls| ensures RecordHolds(t.polls[i], i in t.jobs, t.clock) {
        if i < |s.polls| { assert RecordHolds(s.polls[i], i in s.jobs, s.clock); }
      }
    }
  }

  lemma {:induction false} RunKeepsRecords(s: State, actions: seq<Action>)
    requires RecordsHold(s)
    ensures RecordsHold(Run(s, actions))
    decreases |actions|
  {
    hide Apply, RecordsHold;
    if actions != [] {
      StepKeepsRecords(s, actions[0]);
      RunKeepsRecords(Apply(s, actions[0]), actions[1..]);
    }
  }

  // ---------- edits in time ----------

  /** The step writes a due timestamp that an edit computed earlier. */
  predicate WritesDue(s: State, a: Action) {
    a.WriteSchedule? && a.edit < |s.edits| && s.edits[a.edit].stage.Computed? && s.edits[a.edit].stage.nextRunAt.Some?
  }

  function Written(s: State, a: Action): int
    requires WritesDue(s, a)
  {
    s.edits[a.edit].stage.nextRunAt.value
  }

  /** An edit's write lands at least `margin` before the time it computed. */
  predicate InTime(s: State, a: Action, margin: int) {
    WritesDue(s, a) ==> s.clock + margin <= Written(s, a)
  }

  predicate TimedRun(s: State, actions: seq<Action>, margin: int)
    decreases |actions|
  {
    actions == [] || (InTime(s, actions[0], margin) && TimedRun(Apply(s, actions[0]), actions[1..], margin))
  }

  /** The write puts the due timestamp after every occurrence that has a job or may get one. */
  ghost predicate Harmless(s: State, a: Action) {
    WritesDue(s, a) ==> AfterAll(s, Some(Written(s, a)))
  }

  lemma InTimeIsHarmless(s: State, a: Action, margin: int)
    requires RecordsHold(s) && InTime(s, a, margin) && margin >= 1
    ensures Harmless(s, a)
  {
    if WritesDue(s, a) {
      forall i: nat | Live(s, i) ensures Before(Occurrence(s, i), Some(Written(s, a))) {
        assert RecordHolds(s.polls[i], i in s.jobs, s.clock);
      }
    }
  }

  /** Steps that claim and restore nothing leave the pending occurrence, or move it to a later one. */
  ghost predicate MovesOn(s: State, t: State) {
    && |s.polls| <= |t.polls| && t.row.lastScan == s.row.lastScan
    && (forall i: nat | i < |s.polls| :: t.polls[i].snapshot == s.polls[i].snapshot)
    && (forall i: nat | i < |t.polls| && MayPublish(t.polls[i]) :: i < |s.polls| && MayPublish(s.polls[i]))
    && (t.row.nextRunAt == s.row.nextRunAt || Before(s.row.nextRunAt, t.row.nextRunAt) || AfterAll(s, t.row.nextRunAt))
  }

  lemma CheckMovesOn(s: State, a: Action)
    requires IsCheck(a) && !a.Claim?
    ensures MovesOn(s, ApplyCheck(s, a))
  {
    hide Live, AfterAll;
  }

  lemma EnqueueMovesOn(s: State, a: Action)
    requires IsEnqueue(a)
    ensures MovesOn(s, ApplyEnqueue(s, a))
  {
    hide Live, AfterAll;
  }

  lemma CleanupMovesOn(s: State, a: Action)
    requires IsCleanup(a) && !a.Restore?
    ensures MovesOn(s, ApplyCleanup(s, a))
  {
    hide Live, ClaimStands, AfterAll;
  }

  lemma OtherStepsMoveOn(s: State, a: Action)
    requires !a.Claim? && !a.Restore? && Harmless(s, a)
    ensures MovesOn(s, Apply(s, a))
  {
    hide Live, ApplyCheck, ApplyEnqueue, ApplyCleanup, AfterAll;
    if IsCheck(a) {
      CheckMovesOn(s, a);
    } else if IsEnqueue(a) {
      EnqueueMovesOn(s, a);
    } else if IsCleanup(a) {
      CleanupMovesOn(s, a);
    }
  }

  lemma MovingOnKeepsOrder(s: State, t: State)
    requires ClaimsInOrder(s) && MovesOn(s, t)
    ensures ClaimsInOrder(t)
  {
    hide MayPublish;
    forall i: nat | Live(t, i) ensures Before(Occurrence(t, i), t.row.nextRunAt) {
      assert Live(s, i) && Before(Occurrence(s, i), s.row.nextRunAt);
    }
    forall i: nat, j: nat | Live(t, i) && Live(t, j) && i != j ensures Occurrence(t, i) != Occurrence(t, j) {
      assert Live(s, i) && Live(s, j);
    }
    forall j: nat | t.row.lastScan.Some? && Live(t, j) && j != t.row.lastScan.value
      ensures Before(Occurrence(t, j), Occurrence(t, t.row.lastScan.value))
    {
      assert Live(s, j);
    }
  }

  lemma EndingKeepsOrder(s: State, i: nat)
    requires ClaimsInOrder(s) && i < |s.polls|
    ensures ClaimsInOrder(Become(s, i, Ended))
  {
    MovingOnKeepsOrder(s, Become(s, i, Ended));
  }

  lemma ClaimKeepsOrder(s: State, i: nat)
    requires Inv(s)
    ensures ClaimsInOrder(Apply(s, Claim(i)))
  {
    var t := Apply(s, Claim(i));
    if In(s, i, Checking) {
      if CanClaim(s, i) {
        forall j: nat | Live(t, j) && j != i ensures Before(Occurrence(t, j), s.row.nextRunAt) {
          assert Live(s, j);
        }
        forall j: nat, k: nat | Live(t, j) && Live(t, k) && j != k ensures Occurrence(t, j) != Occurrence(t, k) {
          if j != i && k != i { assert Live(s, j) && Live(s, k); }
        }
      } else {
        EndingKeepsOrder(s, i);
      }
    }
  }

  lemma RestoreKeepsOrder(s: State, i: nat)
    requires Inv(s)
    ensures ClaimsInOrder(Apply(s, Restore(i)))
  {
    var t := Apply(s, Restore(i));
    if In(s, i, SlotReleased) {
      if !s.polls[i].started && ClaimStands(s.row, s.polls[i], i) {
        assert RecordHolds(s.polls[i], i in s.jobs, s.clock);
        forall j: nat | Live(t, j) ensures Live(s, j) && j != i { }
        forall j: nat, k: nat | Live(t, j) && Live(t, k) && j != k ensures Occurrence(t, j) != Occurrence(t, k) {
          assert Live(s, j) && Live(s, k);
        }
      } else {
        EndingKeepsOrder(s, i);
      }
    }
  }

  lemma StepKeepsInv(s: State, a: Action)
    requires Inv(s) && Harmless(s, a)
    ensures Inv(Apply(s, a))
  {
    StepKeepsRecords(s, a);
    if a.Claim? {
      ClaimKeepsOrder(s, a.poll);
    } else if a.Restore? {
      RestoreKeepsOrder(s, a.poll);
    } else {
      hide Apply, RecordsHold;
      OtherStepsMoveOn(s, a);
      MovingOnKeepsOrder(s, Apply(s, a));
    }
  }

  lemma {:induction false} TimedRunKeepsInv(s: State, actions: seq<Action>, margin: int)
    requires Inv(s) && TimedRun(s, actions, margin) && margin >= 1
    ensures Inv(Run(s, actions))
    decreases |actions|
  {
    hide Apply, ClaimsInOrder, RecordsHold, InTime, Harmless;
    if actions != [] {
      InTimeIsHarmless(s, actions[0], margin);
      StepKeepsInv(s, actions[0]);
      TimedRunKeepsInv(Apply(s, actions[0]), actions[1..], margin);
    }
  }

  /** A schedule before any poll and edit. */
  predicate Fresh(s: State) {
    s.polls == [] && s.edits == [] && s.jobs == {} && s.moves == [] && s.row.lastScan.None?
  }

  // ---------- one job per occurrence ----------

  ghost predicate OneJob(t: State) {
    forall i, j | i in t.jobs && j in t.jobs && i < |t.polls| && j < |t.polls| && i != j :: Occurrence(t, i) != Occurrence(t, j)
  }

  lemma InvIsOneJob(t: State)
    requires Inv(t)
    ensures OneJob(t) && AfterAll(t, t.row.nextRunAt)
    ensures forall i | i in t.jobs :: Live(t, i)
  {
    forall i | i in t.jobs ensures Live(t, i) { assert RecordHolds(t.polls[i], i in t.jobs, t.clock); }
  }

  /**
   When every edit's write lands before the time it computed, every occurrence has at most one
   job, and the pending one has none and cannot get one late.
   */
  lemma OneJobPerOccurrence(s: State, actions: seq<Action>, margin: int)
    requires Fresh(s) && TimedRun(s, actions, margin) && margin >= 1
    ensures var t := Run(s, actions);
      OneJob(t) && AfterAll(t, t.row.nextRunAt) && forall i | i in t.jobs :: Live(t, i)
  {
    assert Inv(s);
    hide Inv, TimedRun, Run, Apply;
    TimedRunKeepsInv(s, actions, margin);
    InvIsOneJob(Run(s, actions));
  }

  // ---------- edits that write too late ----------

  lemma {:induction false} RunAppend(s: State, a: seq<Action>, b: seq<Action>, margin: int)
    requires TimedRun(s, a, margin) && TimedRun(Run(s, a), b, margin)
    ensures Run(s, a + b) == Run(Run(s, a), b) && TimedRun(s, a + b, margin)
    decreases |a|
  {
    hide Apply, InTime;
    if a == [] {
      assert a + b == b;
    } else {
      assert (a + b)[1..] == a[1..] + b;
      RunAppend(Apply(s, a[0]), a[1..], b, margin);
    }
  }

  lemma RunOne(s: State, a: Action, margin: int)
    requires InTime(s, a, margin)
    ensures Run(s, [a]) == Apply(s, a) && TimedRun(s, [a], margin)
  {
    hide Apply, InTime;
    assert [a][1..] == [];
    assert Run(Apply(s, a), []) == Apply(s, a);
  }

  /** The steps lead from one state to the other, every edit in time, and nothing of a poll's occurrence or job is lost. */
  ghost predicate Leads(s: State, steps: seq<Action>, t: State, margin: int) {
    && TimedRun(s, steps, margin) && Run(s, steps) == t
    && |s.polls| <= |t.polls| && s.jobs <= t.jobs
    && forall i | 0 <= i < |s.polls| :: t.polls[i].snapshot == s.polls[i].snapshot
  }

  lemma LeadsOn(s: State, steps: seq<Action>, t: State, a: Action, margin: int)
    requires Leads(s, steps, t, margin) && InTime(t, a, margin)
    requires var u := Apply(t, a);
      |t.polls| <= |u.polls| && t.jobs <= u.jobs && forall i | 0 <= i < |t.polls| :: u.polls[i].snapshot == t.polls[i].snapshot
    ensures Leads(s, steps + [a], Apply(t, a), margin)
  {
    hide Apply, InTime, Run, TimedRun;
    RunOne(t, a, margin);
    RunAppend(s, steps, [a], margin);
  }

  lemma LeadsNowhere(s: State, margin: int)
    ensures Leads(s, [], s, margin)
  {
  }

  /** A live poll's job can land. */
  lemma LandJob(s: State, steps: seq<Action>, t: State, j: nat, margin: int) returns (more: seq<Action>, u: State)
    requires Leads(s, steps, t, margin) && Live(t, j)
    ensures Leads(s, more, u, margin) && j in u.jobs && j < |u.polls| && u.polls[j].snapshot == t.polls[j].snapshot
    ensures u.row == t.row && u.clock == t.clock && u.edits == t.edits && t.jobs <= u.jobs
    ensures |u.polls| == |t.polls| && Live(u, j)
  {
    hide Leads;
    LeadsOn(s, steps, t, Attempt(j), margin);
    var mid := Apply(t, Attempt(j));
    LeadsOn(s, steps + [Attempt(j)], mid, JobLands(j), margin);
    more, u := steps + [Attempt(j)] + [JobLands(j)], Apply(mid, JobLands(j));
  }

  /** A user can enable the row without touching its timestamp. */
  lemma EnableRow(s: State, steps: seq<Action>, t: State, margin: int) returns (more: seq<Action>, u: State)
    requires Leads(s, steps, t, margin) && t.row.nextRunAt.Some?
    ensures Leads(s, more, u, margin) && u.row == t.row.(enabled := true, updatedAt := t.clock)
    ensures u.clock == t.clock && u.polls == t.polls && u.jobs == t.jobs
  {
    hide Leads;
    var e := |t.edits|;
    LeadsOn(s, steps, t, ReadSchedule(Some(true), false), margin);
    var t1 := Apply(t, ReadSchedule(Some(true), false));
    LeadsOn(s, steps + [ReadSchedule(Some(true), false)], t1, ComputeNext(e, None), margin);
    var t2 := Apply(t1, ComputeNext(e, None));
    assert t2.edits[e].stage == Computed(None);
    LeadsOn(s, steps + [ReadSchedule(Some(true), false)] + [ComputeNext(e, None)], t2, WriteSchedule(e), margin);
    more, u := steps + [ReadSchedule(Some(true), false)] + [ComputeNext(e, None)] + [WriteSchedule(e)],
               Apply(t2, WriteSchedule(e));
  }

  /** A poll can claim a due occurrence of an enabled row and move the row to any later one. */
  lemma ClaimPending(s: State, steps: seq<Action>, t: State, due: int, next: int, margin: int)
    returns (more: seq<Action>, u: State)
    requires Leads(s, steps, t, margin) && t.row.enabled && t.row.nextRunAt == Some(due) && due <= t.clock && due < next
    ensures Leads(s, more, u, margin) && u.row.enabled && u.row.nextRunAt == Some(next) && u.clock == t.clock
    ensures |u.polls| == |t.polls| + 1 && u.polls[..|t.polls|] == t.polls && u.jobs == t.jobs && u.edits == t.edits
    ensures Live(u, |t.polls|) && Occurrence(u, |t.polls|) == Some(due)
  {
    hide Leads;
    var k := |t.polls|;
    LeadsOn(s, steps, t, Fetch(due, next), margin);
    var t1 := Apply(t, Fetch(due, next));
    assert CanClaim(t1, k);
    LeadsOn(s, steps + [Fetch(due, next)], t1, Claim(k), margin);
    more, u := steps + [Fetch(due, next)] + [Claim(k)], Apply(t1, Claim(k));
  }

  /** With a live claim at or after the due timestamp, an occurrence can get two jobs. */
  lemma DoubleJob(s: State, j: nat, margin: int) returns (actions: seq<Action>)
    requires RecordsHold(s) && Live(s, j) && s.row.nextRunAt.Some? && !Before(Occurrence(s, j), s.row.nextRunAt)
    ensures TimedRun(s, actions, margin) && !OneJob(Run(s, actions))
  {
    var v, w := s.row.nextRunAt.value, Occurrence(s, j).value;
    assert RecordHolds(s.polls[j], j in s.jobs, s.clock);
    hide Apply, Leads, RecordsHold;
    LeadsNowhere(s, margin);
    var a1, t1 := LandJob(s, [], s, j, margin);
    var a2, t2 := EnableRow(s, a1, t1, margin);
    var a3, t3 := a2, t2;
    if v < w { a3, t3 := ClaimPending(s, a2, t2, v, w, margin); }
    assert t3.polls[j].snapshot == s.polls[j].snapshot && j in t3.jobs;
    var k := |t3.polls|;
    var a4, t4 := ClaimPending(s, a3, t3, w, w + 60_000, margin);
    assert t4.polls[..k][j] == t3.polls[j];
    var a5, t5 := LandJob(s, a4, t4, k, margin);
    TwoJobs(s, a4, t4, a5, t5, j, k, margin);
    actions := a5;
  }

  lemma TwoJobs(s: State, a: seq<Action>, t: State, b: seq<Action>, u: State, j: nat, k: nat, margin: int)
    requires Leads(s, a, t, margin) && Leads(s, b, u, margin) && j < |s.polls| && j < k < |u.polls|
    requires j in u.jobs && k in u.jobs && u.polls[k].snapshot.nextRunAt == s.polls[j].snapshot.nextRunAt
    ensures TimedRun(s, b, margin) && !OneJob(Run(s, b))
  {
    assert Occurrence(u, j) == Occurrence(u, k);
  }

  /**
   Whether an edit's late write may be let through: all continuations whose later writes are in
   time keep one job per occurrence exactly when every occurrence that has a job, or may still
   get one, is before the time to be written.
   */
  lemma WriteIsHarmlessExactly(s: State, a: Action)
    requires Inv(s) && WritesDue(s, a)
    ensures (forall actions | TimedRun(Apply(s, a), actions, 1) :: OneJob(Run(Apply(s, a), actions)))
       <==> AfterAll(s, Some(Written(s, a)))
  {
    var t := Apply(s, a);
    StepKeepsRecords(s, a);
    assert t.row.nextRunAt == Some(Written(s, a)) && t.polls == s.polls;
    if AfterAll(s, Some(Written(s, a))) {
      StepKeepsInv(s, a);
      hide Apply, Inv, Run, TimedRun;
      forall actions | TimedRun(t, actions, 1) ensures OneJob(Run(t, actions)) {
        TimedRunKeepsInv(t, actions, 1);
        InvIsOneJob(Run(t, actions));
      }
    } else {
      hide Apply, Run, TimedRun, RecordsHold;
      var j: nat :| Live(s, j) && !Before(Occurrence(s, j), Some(Written(s, a)));
      assert Live(t, j) && Occurrence(t, j) == Occurrence(s, j);
      var actions := DoubleJob(t, j, 1);
    }
  }

  /** A row due in a minute, seen one second before. */
  const AlmostDue := State(Row(true, 0, Some(60_000), None, None), 59_000, [], [], {}, [])

  /**
   An edit computes the coming minute and writes it in that very minute, after a poll has claimed
   the occurrence and its job has landed: a second poll claims the same occurrence again.
   */
  lemma LateEditDoublesJob(margin: int) returns (actions: seq<Action>)
    requires margin <= 0
    ensures TimedRun(AlmostDue, actions, margin) && !OneJob(Run(AlmostDue, actions))
  {
    var s := AlmostDue;
    var b, t := EditThenClaim(margin);
    var c, u := LandJob(s, b, t, 0, margin);
    hide Leads;
    LeadsOn(s, c, u, WriteSchedule(0), margin);
    var d, w := c + [WriteSchedule(0)], Apply(u, WriteSchedule(0));
    assert w.row.nextRunAt == Some(60_000) && w.polls == u.polls;
    LeadsKeepsRecords(s, d, w, margin) by { assert RecordsHold(s); }
    hide Apply, RecordsHold;
    var more := DoubleJob(w, 0, margin);
    LeadsIsRun(s, d, w, margin);
    RunAppend(s, d, more, margin);
    actions := d + more;
  }

  /** The edit has computed 60_000 at 59_000; a poll claims the occurrence of 60_000 at 60_000. */
  lemma EditThenClaim(margin: int) returns (b: seq<Action>, t: State)
    ensures Leads(AlmostDue, b, t, margin) && |t.polls| == 1 && Live(t, 0) && Occurrence(t, 0) == Some(60_000)
    ensures t.clock == 60_000 && t.edits == [Edit(None, true, Computed(Some(60_000)))]
  {
    hide Leads;
    var s := AlmostDue;
    LeadsNowhere(s, margin);
    LeadsOn(s, [], s, ReadSchedule(None, true), margin);
    var a1, s1 := [] + [ReadSchedule(None, true)], Apply(s, ReadSchedule(None, true));
    LeadsOn(s, a1, s1, ComputeNext(0, Some(60_000)), margin);
    var a2, s2 := a1 + [ComputeNext(0, Some(60_000))], Apply(s1, ComputeNext(0, Some(60_000)));
    LeadsOn(s, a2, s2, Tick(1_000), margin);
    var a3, s3 := a2 + [Tick(1_000)], Apply(s2, Tick(1_000));
    assert s3.polls == [] && s3.edits == [Edit(None, true, Computed(Some(60_000)))];
    b, t := ClaimPending(s, a3, s3, 60_000, 120_000, margin);
  }

  lemma LeadsIsRun(s: State, steps: seq<Action>, t: State, margin: int)
    requires Leads(s, steps, t, margin)
    ensures TimedRun(s, steps, margin) && Run(s, steps) == t
  {
  }

  lemma LeadsKeepsRecords(s: State, steps: seq<Action>, t: State, margin: int)
    requires Leads(s, steps, t, margin) && RecordsHold(s)
    ensures RecordsHold(t)
  {
    hide RecordsHold;
    RunKeepsRecords(s, steps);
  }

  /**
   One job per occurrence in all runs in which every edit's write lands at least `margin` before
   the time it computed, exactly when the margin is positive.
   */
  lemma OneJobExactly(margin: int)
    ensures (forall s, actions | Fresh(s) && TimedRun(s, actions, margin) :: OneJob(Run(s, actions))) <==> margin >= 1
  {
    if margin >= 1 {
      hide Fresh, TimedRun, Run, OneJob;
      forall s, actions | Fresh(s) && TimedRun(s, actions, margin) ensures OneJob(Run(s, actions)) {
        OneJobPerOccurrence(s, actions, margin);
      }
    } else {
      assert Fresh(AlmostDue);
      hide Fresh, TimedRun, Run, OneJob;
      var actions := LateEditDoublesJob(margin);
    }
  }

  // ---------- what stays known of a queue command ----------

  predicate Settled(p: Poll) {
    !p.phase.Checking? && (p.publication.Attempted? || p.publication.NeverSubmitted?)
  }

  /** Once the queue command was attempted, or the claim restored, that never changes. */
  predicate StaysFinal(s: State, t: State, i: nat)
    requires i < |s.polls|
  {
    && i < |t.polls| && (s.polls[i].restored ==> t.polls[i].restored)
    && (Settled(s.polls[i]) ==> Settled(t.polls[i]) && t.polls[i].publication == s.polls[i].publication)
  }

  lemma PollStepIsFinal(s: State, a: Action, i: nat)
    requires i < |s.polls| && (IsCheck(a) || IsEnqueue(a) || IsCleanup(a))
    ensures IsCheck(a) ==> StaysFinal(s, ApplyCheck(s, a), i)
    ensures IsEnqueue(a) ==> StaysFinal(s, ApplyEnqueue(s, a), i)
    ensures IsCleanup(a) ==> StaysFinal(s, ApplyCleanup(s, a), i)
  {
    hide ClaimStands, CanClaim;
  }

  lemma StepIsFinal(s: State, a: Action, i: nat)
    requires i < |s.polls|
    ensures StaysFinal(s, Apply(s, a), i)
  {
    hide ApplyCheck, ApplyEnqueue, ApplyCleanup;
    if IsCheck(a) || IsEnqueue(a) || IsCleanup(a) { PollStepIsFinal(s, a, i); }
  }

  lemma {:induction false} RunIsFinal(s: State, actions: seq<Action>, i: nat)
    requires i < |s.polls|
    ensures StaysFinal(s, Run(s, actions), i)
    decreases |actions|
  {
    hide Apply;
    if actions != [] {
      StepIsFinal(s, actions[0], i);
      RunIsFinal(Apply(s, actions[0]), actions[1..], i);
    }
  }

  /** A poll whose queue command was attempted never puts its occurrence back, whatever follows. */
  lemma UncertainIsNeverRestored(s: State, actions: seq<Action>, i: nat)
    requires RecordsHold(s) && i < |s.polls| && s.polls[i].publication.Attempted?
    ensures var t := Run(s, actions); i < |t.polls| && !t.polls[i].restored
  {
    hide Apply, Run;
    assert RecordHolds(s.polls[i], i in s.jobs, s.clock);
    RunKeepsRecords(s, actions);
    RunIsFinal(s, actions, i);
    var t := Run(s, actions);
    assert RecordHolds(t.polls[i], i in t.jobs, t.clock);
  }

  /** A poll that put its occurrence back never has a job, whatever follows. */
  lemma RestoredIsNeverPublished(s: State, actions: seq<Action>, i: nat)
    requires RecordsHold(s) && i < |s.polls| && s.polls[i].restored
    ensures var t := Run(s, actions); i < |t.polls| && t.polls[i].restored && i !in t.jobs
  {
    hide Apply, Run;
    assert RecordHolds(s.polls[i], i in s.jobs, s.clock);
    RunKeepsRecords(s, actions);
    RunIsFinal(s, actions, i);
    var t := Run(s, actions);
    assert RecordHolds(t.polls[i], i in t.jobs, t.clock);
  }

  // ---------- who moves the due timestamp ----------

  /** The moves lead from the first due timestamp to the last, each from where the one before left it. */
  predicate Explains(first: Option<int>, moves: seq<Move>, last: Option<int>)
    decreases |moves|
  {
    if moves == [] then first == last
    else
      var m := moves[|moves| - 1];
      m.after == last && Explains(first, moves[..|moves| - 1], m.before)
  }

  function MovesOf(moves: seq<Move>, i: nat): seq<Move> {
    if moves == [] then []
    else MovesOf(moves[..|moves| - 1], i) + (if moves[|moves| - 1].author == ByPoll(i) then [moves[|moves| - 1]] else [])
  }

  /** What a poll has done to the due timestamp so far. */
  predicate MovedAsPhase(p: Poll, i: nat, mine: seq<Move>) {
    match p.phase
    case Checking => mine == []
    case Deferred => mine == []
    case Ended => true
    case _ => mine == [Move(ByPoll(i), p.snapshot.nextRunAt, Some(p.next))]
  }

  ghost predicate MovesHold(first: Option<int>, s: State) {
    && Explains(first, s.moves, s.row.nextRunAt)
    && (forall m | m in s.moves && m.author.ByPoll? :: m.author.poll < |s.polls|)
    && forall i: nat | i < |s.polls| :: MovedAsPhase(s.polls[i], i, MovesOf(s.moves, i))
  }

  lemma NoMovesYet(moves: seq<Move>, i: nat)
    requires forall m | m in moves && m.author.ByPoll? :: m.author.poll < i
    ensures MovesOf(moves, i) == []
  {
    if moves != [] { NoMovesYet(moves[..|moves| - 1], i); }
  }

  lemma MovesThen(moves: seq<Move>, m: Move)
    ensures forall i: nat :: MovesOf(moves + [m], i) == if m.author == ByPoll(i) then MovesOf(moves, i) + [m] else MovesOf(moves, i)
    ensures forall first, last :: Explains(first, moves + [m], last) <==> m.after == last && Explains(first, moves, m.before)
  {
    assert (moves + [m])[..|moves|] == moves;
  }

  /** A step of poll `i` that leaves the timestamp alone. */
  lemma PollRests(first: Option<int>, s: State, t: State, i: nat)
    requires MovesHold(first, s) && i < |s.polls|
    requires |t.polls| == |s.polls| && t.polls == s.polls[i := t.polls[i]]
    requires t.moves == s.moves && t.row.nextRunAt == s.row.nextRunAt
    requires MovedAsPhase(t.polls[i], i, MovesOf(s.moves, i))
    ensures MovesHold(first, t)
  {
    hide Explains, MovesOf, MovedAsPhase;
    forall j: nat | j < |t.polls| && j != i ensures MovedAsPhase(t.polls[j], j, MovesOf(t.moves, j)) {
      assert MovedAsPhase(s.polls[j], j, MovesOf(s.moves, j));
    }
  }

  /** A step of poll `i` that moves the timestamp. */
  lemma PollMoves(first: Option<int>, s: State, t: State, i: nat, m: Move)
    requires MovesHold(first, s) && i < |s.polls|
    requires |t.polls| == |s.polls| && t.polls == s.polls[i := t.polls[i]]
    requires m == Move(ByPoll(i), s.row.nextRunAt, t.row.nextRunAt) && t.moves == s.moves + [m]
    requires MovedAsPhase(t.polls[i], i, MovesOf(s.moves, i) + [m])
    ensures MovesHold(first, t)
  {
    hide Explains, MovesOf, MovedAsPhase;
    MovesThen(s.moves, m);
    forall j: nat | j < |t.polls| && j != i ensures MovedAsPhase(t.polls[j], j, MovesOf(t.moves, j)) {
      assert MovedAsPhase(s.polls[j], j, MovesOf(s.moves, j));
    }
  }

  lemma CheckKeepsMoves(first: Option<int>, s: State, a: Action)
    requires MovesHold(first, s) && IsCheck(a)
    ensures MovesHold(first, ApplyCheck(s, a))
  {
    if In(s, a.poll, Checking) {
      assert MovedAsPhase(s.polls[a.poll], a.poll, MovesOf(s.moves, a.poll));
      hide MovesHold, MovesOf;
      var i, t := a.poll, ApplyCheck(s, a);
      if CanClaim(s, i) && (a.Block? || a.Claim?) {
        var m := Move(ByPoll(i), s.row.nextRunAt, Some(s.polls[i].next));
        assert MovesOf(s.moves, i) + [m] == [m];
        PollMoves(first, s, t, i, m);
      } else {
        PollRests(first, s, t, i);
      }
    }
  }

  lemma EnqueueKeepsMoves(first: Option<int>, s: State, a: Action)
    requires MovesHold(first, s) && IsEnqueue(a)
    ensures MovesHold(first, ApplyEnqueue(s, a))
  {
    if a.poll < |s.polls| {
      assert MovedAsPhase(s.polls[a.poll], a.poll, MovesOf(s.moves, a.poll));
      hide MovesHold, MovesOf;
      PollRests(first, s, ApplyEnqueue(s, a), a.poll);
    }
  }

  lemma CleanupKeepsMoves(first: Option<int>, s: State, a: Action)
    requires MovesHold(first, s) && IsCleanup(a)
    ensures MovesHold(first, ApplyCleanup(s, a))
  {
    if a.poll < |s.polls| {
      assert MovedAsPhase(s.polls[a.poll], a.poll, MovesOf(s.moves, a.poll));
      hide MovesHold, MovesOf, ClaimStands;
      var i, t := a.poll, ApplyCleanup(s, a);
      if a.Restore? && s.polls[i].phase.SlotReleased? && !s.polls[i].started && ClaimStands(s.row, s.polls[i], i) {
        PollMoves(first, s, t, i, Move(ByPoll(i), s.row.nextRunAt, t.row.nextRunAt));
      } else {
        PollRests(first, s, t, i);
      }
    }
  }

  lemma EditKeepsMoves(first: Option<int>, s: State, a: Action)
    requires MovesHold(first, s) && IsEdit(a)
    ensures MovesHold(first, ApplyEdit(s, a))
  {
    var t := ApplyEdit(s, a);
    if WritesDue(s, a) {
      assert t.moves == s.moves + [Move(ByEdit(a.edit), s.row.nextRunAt, t.row.nextRunAt)];
      MovesThen(s.moves, Move(ByEdit(a.edit), s.row.nextRunAt, t.row.nextRunAt));
    }
    hide Explains, MovesOf, MovedAsPhase;
    forall j: nat | j < |t.polls| ensures MovedAsPhase(t.polls[j], j, MovesOf(t.moves, j)) {
      assert MovedAsPhase(s.polls[j], j, MovesOf(s.moves, j));
    }
  }

  lemma StepKeepsMoves(first: Option<int>, s: State, a: Action)
    requires MovesHold(first, s)
    ensures MovesHold(first, Apply(s, a))
  {
    hide ApplyCheck, ApplyEnqueue, ApplyCleanup, ApplyEdit, Explains, MovesOf;
    if IsCheck(a) {
      CheckKeepsMoves(first, s, a);
    } else if IsEnqueue(a) {
      EnqueueKeepsMoves(first, s, a);
    } else if IsCleanup(a) {
      CleanupKeepsMoves(first, s, a);
    } else if IsEdit(a) {
      EditKeepsMoves(first, s, a);
    } else {
      NoMovesYet(s.moves, |s.polls|);
    }
  }

  lemma {:induction false} RunKeepsMoves(first: Option<int>, s: State, actions: seq<Action>)
    requires MovesHold(first, s)
    ensures MovesHold(first, Run(s, actions))
    decreases |actions|
  {
    hide Apply, MovesHold;
    if actions != [] {
      StepKeepsMoves(first, s, actions[0]);
      RunKeepsMoves(first, Apply(s, actions[0]), actions[1..]);
    }
  }

  /**
   Over its whole life a poll that deferred, for active work or an absent worker, moved the due
   timestamp not at all, and one whose enqueue was acknowledged or left uncertain moved it once,
   by its claim. The moves account for every change of the timestamp.
   */
  lemma DueTimestampIsKept(s: State, actions: seq<Action>, i: nat)
    requires Fresh(s)
    ensures var t := Run(s, actions);
      && Explains(s.row.nextRunAt, t.moves, t.row.nextRunAt)
      && (In(t, i, Deferred) ==> MovesOf(t.moves, i) == [])
      && (In(t, i, Retained) ==> MovesOf(t.moves, i) == [Move(ByPoll(i), Occurrence(t, i), Some(t.polls[i].next))])
  {
    assert MovesHold(s.row.nextRunAt, s);
    hide Run, Explains, MovesOf, Fresh;
    RunKeepsMoves(s.row.nextRunAt, s, actions);
  }

  lemma {:induction false} AuthorHasMoves(moves: seq<Move>, k: nat)
    requires k < |moves| && moves[k].author.ByPoll?
    ensures MovesOf(moves, moves[k].author.poll) != []
  {
    if k < |moves| - 1 { AuthorHasMoves(moves[..|moves| - 1], k); }
  }

  /** If every poll so far deferred or is still checking, and no edit wrote a time, the row is due as before. */
  lemma DeferralsKeepTheOccurrence(s: State, actions: seq<Action>)
    requires Fresh(s)
    requires var t := Run(s, actions);
      (forall p | p in t.polls :: p.phase.Checking? || p.phase.Deferred?) && forall m | m in t.moves :: m.author.ByPoll?
    ensures Run(s, actions).row.nextRunAt == s.row.nextRunAt
  {
    assert MovesHold(s.row.nextRunAt, s);
    hide Run, Fresh, MovesOf;
    RunKeepsMoves(s.row.nextRunAt, s, actions);
    var t := Run(s, actions);
    if t.moves != [] {
      var m := t.moves[0];
      assert m in t.moves && m.author.ByPoll?;
      AuthorHasMoves(t.moves, 0);
    }
  }

  /**
   A claim whose enqueue never reached the queue is undone by the cleanup: the due and last-run
   times are those of before the claim, no job exists, and a fresh poll may claim again.
   */
  lemma CleanupUndoesClaim(s: State, i: nat)
    requires RecordsHold(s) && CanClaim(s, i)
    requires s.polls[i].snapshot.lastRunAt == s.row.lastRunAt && !s.polls[i].started
    ensures var t := Cleaned(Apply(s, Claim(i)), i);
      && t.row == s.row.(lastScan := Some(i), updatedAt := s.clock)
      && t.jobs == s.jobs && i !in t.jobs && In(t, i, Ended) && t.polls[i].restored
  {
    assert RecordHolds(s.polls[i], i in s.jobs, s.clock);
    var a := Apply(s, Claim(i));
    ClaimLeaves(s, i);
    CleanupLeaves(a, i);
    hide Apply, Cleaned;
  }

  /** The cleanup of an enqueue that failed before its command, without interruption. */
  function Cleaned(s: State, i: nat): State {
    Apply(Apply(Apply(Apply(s, EnqueueFails(i)), MarkFailed(i)), ReleaseSlot(i)), Restore(i))
  }

  lemma ClaimLeaves(s: State, i: nat)
    requires CanClaim(s, i)
    ensures var p, t := s.polls[i], Apply(s, Claim(i));
      && In(t, i, Enqueueing) && t.polls[i] == p.(phase := Enqueueing, publication := NotAttempted)
      && t.row == Row(true, p.now, Some(p.next), Some(p.now), Some(i)) && t.jobs == s.jobs && t.clock == s.clock
  {
  }

  lemma CleanupLeaves(s: State, i: nat)
    requires In(s, i, Enqueueing) && s.polls[i].publication.NotAttempted? && !s.polls[i].started
    requires ClaimStands(s.row, s.polls[i], i)
    ensures var p, t := s.polls[i], Cleaned(s, i);
      && In(t, i, Ended) && t.polls[i].restored && t.jobs == s.jobs
      && t.row == s.row.(nextRunAt := p.snapshot.nextRunAt, lastRunAt := p.snapshot.lastRunAt, updatedAt := s.clock)
  {
    var p := s.polls[i];
    var b := Apply(s, EnqueueFails(i));
    assert b == Set(s, i, p.(phase := Cleaning, publication := NeverSubmitted));
    var c := Apply(b, MarkFailed(i));
    assert c == Set(s, i, p.(phase := MarkedFailed, publication := NeverSubmitted));
    var d := Apply(c, ReleaseSlot(i));
    assert d == Set(s, i, p.(phase := SlotReleased, publication := NeverSubmitted));
  }
}
