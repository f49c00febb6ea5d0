/**
 The reconciliation lease: one Redis key with a token and a time to live, renewed and released
 under WATCH/MULTI.

 Every Redis command, every timer tick and the passing of time are steps, and any number of
 leases interleave. A lease's token is its index, so tokens are distinct as random ones are.
 `Run` is any execution; `TimedRun` singles out those in which replies arrive in time. A command
 that the caller gave up on may still land: `Break` and `ReleaseBreak` leave an unanswered EXEC
 behind, which `LateExec` performs at any later time. A connection that drops and comes back has
 forgotten its WATCH (`Reconnect`, `ReleaseReconnect`), so its EXEC runs whatever was written since;
 `Stray` singles out those that meet the key of another lease. A worker that crashes while it holds the lock is a
 `BeginRelease` with nothing after it: its timer is gone and its key runs out.
 */
module Lease {
  import opened Wrappers

  const LOCK_MS: int := 55_000
  const RENEW_MS: int := 50_000

  /** The stored key. It is visible to commands until it expires. */
  datatype Entry = Entry(token: nat, expiresAt: int)

  /** `watch` is the version that WATCH saw; None once the connection has been replaced. */
  datatype Renewal =
    | Idle
    | Begun(due: int)
    | Watched(due: int, watch: Option<nat>)
    | Own(due: int, watch: Option<nat>)
    | Executed(due: int, renewed: bool)

  datatype Release = Open | Closing | ReleaseWatched(watch: Option<nat>) | ReleaseOwn(watch: Option<nat>)

  datatype Phase =
    | Calling
    | Acquired(executedAt: int)
    | Held(nextTick: int, renewal: Renewal, lost: bool, release: Release)
    | Closed

  /** `version` counts the writes to the key; WATCH compares it. */
  datatype State = State(now: int, entry: Option<Entry>, version: nat, leases: seq<Phase>, late: seq<Late>)

  /** An EXEC whose caller no longer waits: a renewal's extension or a release's deletion. */
  datatype Late = Late(token: nat, watch: Option<nat>, deletes: bool)

  datatype Action =
    | Call
    | SetNx(i: nat, replyLost: bool)
    | SetNotSent(i: nat)
    | AcquireReply(i: nat)
    | TimerTick(i: nat, next: int)
    | Watch(i: nat)
    | Get(i: nat)
    | Exec(i: nat, expiryAborts: bool)
    | Break(i: nat)
    | Reconnect(i: nat)
    | Settle(i: nat)
    | BeginRelease(i: nat)
    | ReleaseWatch(i: nat)
    | ReleaseGet(i: nat)
    | ReleaseExec(i: nat, expiryAborts: bool)
    | ReleaseBreak(i: nat)
    | ReleaseReconnect(i: nat)
    | LateExec(late: nat, expiryAborts: bool)
    | Advance(ms: nat)

  predicate Live(s: State) {
    s.entry.Some? && s.now < s.entry.value.expiresAt
  }

  predicate OwnedBy(s: State, i: nat) {
    Live(s) && s.entry.value.token == i
  }

  function Put(s: State, i: nat, phase: Phase): State
    requires i < |s.leases|
  {
    s.(leases := s.leases[i := phase])
  }

  function Write(s: State, entry: Option<Entry>): State {
    s.(entry := entry, version := s.version + 1)
  }

  /** When EXEC runs: nothing was written since WATCH, and no expiry that this server reports; always without WATCH. */
  predicate ExecRuns(s: State, watch: Option<nat>, expiryAborts: bool) {
    watch.Some? ==> s.version == watch.value && (Live(s) || !expiryAborts)
  }

  function ApplyAcquire(s: State, a: Action): State
    requires a.SetNx? || a.SetNotSent? || a.AcquireReply?
  {
    if a.i >= |s.leases| then s
    else match a
      case SetNx(i, replyLost) =>
        if !s.leases[i].Calling? then s
        else if Live(s) then Put(s, i, Closed)
        else Put(Write(s, Some(Entry(i, s.now + LOCK_MS))), i, if replyLost then Closed else Acquired(s.now))
      case SetNotSent(i) => if s.leases[i].Calling? then Put(s, i, Closed) else s
      case AcquireReply(i) =>
        if s.leases[i].Acquired? then Put(s, i, Held(s.now + RENEW_MS, Idle, false, Open)) else s
  }

  /** The interval callback and the renewal it starts; a tick during a renewal or after a loss is skipped. */
  function ApplyRenewal(s: State, a: Action): State
    requires a.TimerTick? || a.Watch? || a.Get? || a.Exec? || a.Break? || a.Reconnect? || a.Settle?
  {
    if a.i >= |s.leases| || !s.leases[a.i].Held? then s
    else
      var h := s.leases[a.i];
      match a
      case TimerTick(i, next) =>
        if !h.release.Open? || s.now < h.nextTick || !(h.nextTick + RENEW_MS <= next <= s.now + RENEW_MS) then s
        else if h.lost || !h.renewal.Idle? then Put(s, i, h.(nextTick := next))
        else Put(s, i, h.(nextTick := next, renewal := Begun(h.nextTick)))
      case Watch(i) =>
        if h.renewal.Begun? then Put(s, i, h.(renewal := Watched(h.renewal.due, Some(s.version)))) else s
      case Get(i) =>
        if !h.renewal.Watched? then s
        else if OwnedBy(s, i) then Put(s, i, h.(renewal := Own(h.renewal.due, h.renewal.watch)))
        else Put(s, i, h.(renewal := Executed(h.renewal.due, false)))
      case Exec(i, expiryAborts) =>
        if !h.renewal.Own? then s
        else if !ExecRuns(s, h.renewal.watch, expiryAborts) then Put(s, i, h.(renewal := Executed(h.renewal.due, false)))
        else
          var t := if Live(s) then Write(s, Some(s.entry.value.(expiresAt := s.now + LOCK_MS))) else s;
          Put(t, i, h.(renewal := Executed(h.renewal.due, true)))
      case Break(i) =>
        if h.renewal.Idle? then s
        else
          var t := if h.renewal.Own? then s.(late := s.late + [Late(i, h.renewal.watch, false)]) else s;
          Put(t, i, h.(renewal := Executed(h.renewal.due, false)))
      case Reconnect(i) =>
        if h.renewal.Watched? || h.renewal.Own? then Put(s, i, h.(renewal := h.renewal.(watch := None))) else s
      case Settle(i) =>
        if h.renewal.Executed? then Put(s, i, h.(renewal := Idle, lost := h.lost || !h.renewal.renewed)) else s
  }

  /** Release stops the timer, waits for a pending renewal, then deletes the key if it is its own. */
  function ApplyRelease(s: State, a: Action): State
    requires a.BeginRelease? || a.ReleaseWatch? || a.ReleaseGet? || a.ReleaseExec? || a.ReleaseBreak? || a.ReleaseReconnect?
  {
    if a.i >= |s.leases| || !s.leases[a.i].Held? then s
    else
      var h := s.leases[a.i];
      match a
      case BeginRelease(i) => if h.release.Open? then Put(s, i, h.(release := Closing)) else s
      case ReleaseWatch(i) =>
        if h.release.Closing? && h.renewal.Idle? then Put(s, i, h.(release := ReleaseWatched(Some(s.version)))) else s
      case ReleaseGet(i) =>
        if !h.release.ReleaseWatched? then s
        else if OwnedBy(s, i) then Put(s, i, h.(release := ReleaseOwn(h.release.watch)))
        else Put(s, i, Closed)
      case ReleaseExec(i, expiryAborts) =>
        if !h.release.ReleaseOwn? then s
        else if ExecRuns(s, h.release.watch, expiryAborts) && Live(s) then Put(Write(s, None), i, Closed)
        else Put(s, i, Closed)
      case ReleaseBreak(i) =>
        if h.release.Open? then s
        else
          var t := if h.release.ReleaseOwn? then s.(late := s.late + [Late(i, h.release.watch, true)]) else s;
          Put(t, i, Closed)
      case ReleaseReconnect(i) =>
        if h.release.ReleaseWatched? || h.release.ReleaseOwn? then Put(s, i, h.(release := h.release.(watch := None))) else s
  }

  function Apply(s: State, a: Action): State {
    match a
    case Call => s.(leases := s.leases + [Calling])
    case SetNx(_, _) => ApplyAcquire(s, a)
    case SetNotSent(_) => ApplyAcquire(s, a)
    case AcquireReply(_) => ApplyAcquire(s, a)
    case TimerTick(_, _) => ApplyRenewal(s, a)
    case Watch(_) => ApplyRenewal(s, a)
    case Get(_) => ApplyRenewal(s, a)
    case Exec(_, _) => ApplyRenewal(s, a)
    case Break(_) => ApplyRenewal(s, a)
    case Reconnect(_) => ApplyRenewal(s, a)
    case Settle(_) => ApplyRenewal(s, a)
    case BeginRelease(_) => ApplyRelease(s, a)
    case ReleaseWatch(_) => ApplyRelease(s, a)
    case ReleaseGet(_) => ApplyRelease(s, a)
    case ReleaseExec(_, _) => ApplyRelease(s, a)
    case ReleaseBreak(_) => ApplyRelease(s, a)
    case ReleaseReconnect(_) => ApplyRelease(s, a)
    case LateExec(k, expiryAborts) =>
      if k >= |s.late| || !ExecRuns(s, s.late[k].watch, expiryAborts) || !Live(s) then s
      else if s.late[k].deletes then Write(s, None)
      else Write(s, Some(s.entry.value.(expiresAt := s.now + LOCK_MS)))
    case Advance(ms) => s.(now := s.now + ms)
  }

  function Run(s: State, actions: seq<Action>): State
    decreases |actions|
  {
    if actions == [] then s else Run(Apply(s, actions[0]), actions[1..])
  }

  const Initial := State(0, None, 0, [], [])

  /** `assertOwned` does not throw. It is called only between acquire and release. */
  predicate Passes(s: State, i: nat) {
    i < |s.leases| && s.leases[i].Held? && !s.leases[i].lost && s.leases[i].release.Open?
  }

  // ---------- every run: only the own key is touched ----------

  predicate NotAhead(s: State, watch: Option<nat>) { watch.Some? ==> watch.value <= s.version }

  /** Nothing was written since the WATCH, so the key holds the token seen then. */
  predicate FacesOwn(s: State, watch: Option<nat>, token: nat) {
    watch == Some(s.version) ==> s.entry.Some? && s.entry.value.token == token
  }

  /** A lease that saw its token since a WATCH still faces it unless someone wrote. */
  predicate SawOwn(s: State, i: nat)
    requires i < |s.leases|
  {
    var p := s.leases[i];
    p.Held? ==>
      && (p.renewal.Watched? ==> NotAhead(s, p.renewal.watch))
      && (p.renewal.Own? ==> NotAhead(s, p.renewal.watch) && FacesOwn(s, p.renewal.watch, i))
      && (p.release.ReleaseWatched? ==> NotAhead(s, p.release.watch))
      && (p.release.ReleaseOwn? ==> NotAhead(s, p.release.watch) && FacesOwn(s, p.release.watch, i))
  }

  /** A late EXEC still faces its own token unless someone wrote, and its lease has given up. */
  predicate LateOk(s: State, l: Late) {
    && l.token < |s.leases| && NotAhead(s, l.watch) && FacesOwn(s, l.watch, l.token)
    && var p := s.leases[l.token];
       p.Closed? || (p.Held? && !l.deletes && (p.lost || (p.renewal.Executed? && !p.renewal.renewed)))
  }

  predicate Inv(s: State) {
    && (forall i | 0 <= i < |s.leases| :: SawOwn(s, i))
    && (forall k | 0 <= k < |s.late| :: LateOk(s, s.late[k]))
  }

  predicate IsAcquire(a: Action) { a.SetNx? || a.SetNotSent? || a.AcquireReply? }

  predicate IsRenewal(a: Action) { a.TimerTick? || a.Watch? || a.Get? || a.Exec? || a.Break? || a.Reconnect? || a.Settle? }

  predicate IsRelease(a: Action) {
    a.BeginRelease? || a.ReleaseWatch? || a.ReleaseGet? || a.ReleaseExec? || a.ReleaseBreak? || a.ReleaseReconnect?
  }

  lemma StepKeepsSawOwn(s: State, a: Action)
    requires Inv(s)
    ensures forall j | 0 <= j < |Apply(s, a).leases| :: SawOwn(Apply(s, a), j)
  {
    hide ApplyAcquire, ApplyRenewal, ApplyRelease;
    if IsAcquire(a) { AcquireKeepsSawOwn(s, a); }
    else if IsRenewal(a) { RenewalKeepsSawOwn(s, a); }
    else if IsRelease(a) { ReleaseKeepsSawOwn(s, a); }
    else {
      forall j | 0 <= j < |Apply(s, a).leases| ensures SawOwn(Apply(s, a), j) {
        if j < |s.leases| { assert SawOwn(s, j); }
      }
    }
  }

  lemma AcquireKeepsSawOwn(s: State, a: Action)
    requires Inv(s) && IsAcquire(a)
    ensures forall j | 0 <= j < |ApplyAcquire(s, a).leases| :: SawOwn(ApplyAcquire(s, a), j)
  {
    forall j | 0 <= j < |ApplyAcquire(s, a).leases| ensures SawOwn(ApplyAcquire(s, a), j) { assert SawOwn(s, j); }
  }

  lemma RenewalKeepsSawOwn(s: State, a: Action)
    requires Inv(s) && IsRenewal(a)
    ensures forall j | 0 <= j < |ApplyRenewal(s, a).leases| :: SawOwn(ApplyRenewal(s, a), j)
  {
    forall j | 0 <= j < |ApplyRenewal(s, a).leases| ensures SawOwn(ApplyRenewal(s, a), j) { assert SawOwn(s, j); }
  }

  lemma ReleaseKeepsSawOwn(s: State, a: Action)
    requires Inv(s) && IsRelease(a)
    ensures forall j | 0 <= j < |ApplyRelease(s, a).leases| :: SawOwn(ApplyRelease(s, a), j)
  {
    forall j | 0 <= j < |ApplyRelease(s, a).leases| ensures SawOwn(ApplyRelease(s, a), j) { assert SawOwn(s, j); }
  }

  lemma LateStaysOk(s: State, a: Action, l: Late)
    requires LateOk(s, l)
    ensures LateOk(Apply(s, a), l)
  {
  }

  /** A command given up after its GET saw the own token. */
  lemma BreakLeavesLateOk(s: State, a: Action)
    requires Inv(s) && |Apply(s, a).late| > |s.late|
    ensures Apply(s, a).late == s.late + [Apply(s, a).late[|s.late|]]
    ensures LateOk(Apply(s, a), Apply(s, a).late[|s.late|])
  {
    assert a.Break? || a.ReleaseBreak?;
    assert SawOwn(s, a.i);
  }

  lemma StepKeepsInv(s: State, a: Action)
    requires Inv(s)
    ensures Inv(Apply(s, a))
  {
    StepKeepsSawOwn(s, a);
    LateOnlyGrows(s, a);
    if |Apply(s, a).late| > |s.late| { BreakLeavesLateOk(s, a); }
    hide Apply, SawOwn, LateOk;
    forall k | 0 <= k < |s.late| ensures LateOk(Apply(s, a), s.late[k]) {
      LateStaysOk(s, a, s.late[k]);
    }
  }

  lemma LateOnlyGrows(s: State, a: Action)
    ensures s.late <= Apply(s, a).late && |Apply(s, a).late| <= |s.late| + 1
  {
  }

  lemma {:induction false} RunKeepsInv(s: State, actions: seq<Action>)
    requires Inv(s)
    ensures Inv(Run(s, actions))
    decreases |actions|
  {
    if actions != [] {
      StepKeepsInv(s, actions[0]);
      RunKeepsInv(Apply(s, actions[0]), actions[1..]);
    }
  }

  /** The EXEC that a step performs: its lease and what that lease still watches. */
  function ExecOf(s: State, a: Action): Option<(nat, Option<nat>)> {
    match a
    case Exec(i, _) =>
      if i < |s.leases| && s.leases[i].Held? && s.leases[i].renewal.Own? then Some((i, s.leases[i].renewal.watch)) else None
    case ReleaseExec(i, _) =>
      if i < |s.leases| && s.leases[i].Held? && s.leases[i].release.ReleaseOwn? then Some((i, s.leases[i].release.watch))
      else None
    case LateExec(k, _) => if k < |s.late| then Some((s.late[k].token, s.late[k].watch)) else None
    case _ => None
  }

  /** An EXEC whose WATCH is gone meets the live key of another lease. */
  predicate Stray(s: State, a: Action) {
    var e := ExecOf(s, a);
    Live(s) && e.Some? && e.value.1.None? && !OwnedBy(s, e.value.0)
  }

  /**
   In every execution, a live key is written only by an EXEC of a renewal or release, answered or
   late; and that EXEC is not of the lease whose token the key holds exactly when it strays.
   */
  lemma OnlyOwnKeyIsTouched(actions: seq<Action>, a: Action)
    ensures var s := Run(Initial, actions);
      Live(s) && Apply(s, a).entry != s.entry ==> Apply(s, a).version != s.version
    ensures var s, e := Run(Initial, actions), ExecOf(Run(Initial, actions), a);
      Live(s) && Apply(s, a).version != s.version ==> e.Some? && (OwnedBy(s, e.value.0) <==> !Stray(s, a))
    ensures var s := Run(Initial, actions);
      Stray(s, a) ==> Live(s) && Apply(s, a).version != s.version
  {
    RunKeepsInv(Initial, actions);
    hide Run, Inv, Apply, ExecOf, Stray, OwnedBy;
    var s := Run(Initial, actions);
    if Live(s) { TouchesOwn(s, a); }
  }

  lemma TouchesOwn(s: State, a: Action)
    requires Inv(s) && Live(s)
    ensures Apply(s, a).entry != s.entry ==> Apply(s, a).version != s.version
    ensures Apply(s, a).version != s.version ==>
      ExecOf(s, a).Some? && (OwnedBy(s, ExecOf(s, a).value.0) <==> !Stray(s, a))
    ensures Stray(s, a) ==> Apply(s, a).version != s.version
  {
    if a.LateExec? {
      if a.late < |s.late| { assert LateOk(s, s.late[a.late]); }
    } else if !a.Call? && !a.Advance? && a.i < |s.leases| {
      assert SawOwn(s, a.i);
    }
  }

  predicate IsReconnect(a: Action) { a.Reconnect? || a.ReleaseReconnect? }

  /** Every pending EXEC is still watched. */
  predicate AllWatched(s: State) {
    && (forall l | l in s.late :: l.watch.Some?)
    && forall p | p in s.leases && p.Held? ::
         && (p.renewal.Watched? || p.renewal.Own? ==> p.renewal.watch.Some?)
         && (p.release.ReleaseWatched? || p.release.ReleaseOwn? ==> p.release.watch.Some?)
  }

  lemma RenewalStaysWatched(s: State, a: Action)
    requires AllWatched(s) && IsRenewal(a) && !a.Reconnect?
    ensures AllWatched(ApplyRenewal(s, a))
  {
    if a.i < |s.leases| { assert s.leases[a.i] in s.leases; }
  }

  lemma ReleaseStaysWatched(s: State, a: Action)
    requires AllWatched(s) && IsRelease(a) && !a.ReleaseReconnect?
    ensures AllWatched(ApplyRelease(s, a))
  {
    if a.i < |s.leases| { assert s.leases[a.i] in s.leases; }
  }

  lemma StepStaysWatched(s: State, a: Action)
    requires AllWatched(s) && !IsReconnect(a)
    ensures AllWatched(Apply(s, a))
  {
    hide ApplyRenewal, ApplyRelease;
    if IsRenewal(a) { RenewalStaysWatched(s, a); }
    else if IsRelease(a) { ReleaseStaysWatched(s, a); }
  }

  lemma WatchedIsNoStray(s: State, a: Action)
    requires AllWatched(s)
    ensures !Stray(s, a)
  {
    if (a.Exec? || a.ReleaseExec?) && a.i < |s.leases| { assert s.leases[a.i] in s.leases; }
    if a.LateExec? && a.late < |s.late| { assert s.late[a.late] in s.late; }
  }

  /** No EXEC strays as long as no connection is replaced between a WATCH and its EXEC. */
  lemma {:induction false} OnlyReconnectsStray(s: State, actions: seq<Action>, a: Action)
    requires AllWatched(s) && (forall b | b in actions + [a] :: !IsReconnect(b))
    ensures !Stray(Run(s, actions), a)
    decreases |actions|
  {
    hide Apply, Stray, AllWatched, IsReconnect;
    assert a in actions + [a];
    if actions == [] {
      WatchedIsNoStray(s, a);
    } else {
      assert actions[0] in actions + [a];
      StepStaysWatched(s, actions[0]);
      assert forall b | b in actions[1..] + [a] :: b in actions + [a];
      OnlyReconnectsStray(Apply(s, actions[0]), actions[1..], a);
    }
  }

  /**
   A tick begins a renewal exactly when the lease is held and not released, the tick is due, no
   renewal is under way and nothing was lost; otherwise it sends nothing.
   */
  lemma RenewalBeginsExactly(s: State, i: nat, next: int)
    requires i < |s.leases| && s.leases[i].Held? && s.leases[i].nextTick + 50_000 <= next <= s.now + 50_000
    ensures var h, t := s.leases[i], Apply(s, TimerTick(i, next));
      && t.entry == s.entry && t.version == s.version && |t.leases| == |s.leases| && t.leases[i].Held?
      && (t.leases[i].renewal != h.renewal <==>
            h.release.Open? && s.now >= h.nextTick && !h.lost && h.renewal.Idle?)
      && (t.leases[i].renewal != h.renewal ==> t.leases[i].renewal == Begun(h.nextTick))
      && (h.release.Open? && s.now >= h.nextTick ==> t.leases[i].nextTick == next)
    ensures s.now < s.leases[i].nextTick ==> Apply(s, TimerTick(i, next)) == s
  {
  }

  /** No lease is in the commands of a release while it is in those of a renewal. */
  predicate OneAtATime(s: State) {
    forall p | p in s.leases && p.Held? && (p.release.ReleaseWatched? || p.release.ReleaseOwn?) :: p.renewal.Idle?
  }

  lemma StepStaysOneAtATime(s: State, a: Action)
    requires OneAtATime(s)
    ensures OneAtATime(Apply(s, a))
  {
    if IsRenewal(a) && a.i < |s.leases| { assert s.leases[a.i] in s.leases; }
    if IsRelease(a) && a.i < |s.leases| { assert s.leases[a.i] in s.leases; }
  }

  /** In every execution a release waits for the renewal under way, and no renewal begins after it. */
  lemma {:induction false} ReleaseAwaitsRenewal(s: State, actions: seq<Action>)
    requires OneAtATime(s)
    ensures OneAtATime(Run(s, actions))
    decreases |actions|
  {
    if actions != [] {
      StepStaysOneAtATime(s, actions[0]);
      hide Apply, OneAtATime;
      ReleaseAwaitsRenewal(Apply(s, actions[0]), actions[1..]);
    }
  }

  // ---------- timely runs: a passing check means an unexpired key ----------

  /**
   The latest time by which a lease's next reply arrives: the acquire reply within the acquire
   latency of its execution, and a renewal settled within the renewal latency of its due time.
   */
  function Deadline(p: Phase, acquireMs: int, renewalMs: int): Option<int> {
    match p
    case Acquired(executedAt) => Some(executedAt + acquireMs)
    case Held(nextTick, renewal, lost, release) =>
      if lost || !release.Open? then None
      else if renewal.Idle? then Some(nextTick + renewalMs)
      else Some(renewal.due + renewalMs)
    case _ => None
  }

  predicate InTime(s: State, p: Phase, acquireMs: int, renewalMs: int) {
    var d := Deadline(p, acquireMs, renewalMs);
    d.Some? ==> s.now <= d.value
  }

  predicate Timely(s: State, acquireMs: int, renewalMs: int) {
    forall p | p in s.leases :: InTime(s, p, acquireMs, renewalMs)
  }

  /** Replies arrive in time; `strays` says whether an EXEC without its WATCH may meet another lease's key. */
  predicate TimedRun(s: State, actions: seq<Action>, acquireMs: int, renewalMs: int, strays: bool)
    decreases |actions|
  {
    && Timely(s, acquireMs, renewalMs)
    && (actions != [] ==>
          && (strays || !Stray(s, actions[0]))
          && TimedRun(Apply(s, actions[0]), actions[1..], acquireMs, renewalMs, strays))
  }

  /** The lease believes in its lock, or is about to. */
  predicate Believes(p: Phase) {
    p.Acquired? || (p.Held? && !p.lost && p.release.Open?)
  }

  /** The expiry lies after everything that the lease still has to do before the next extension. */
  predicate Secure(s: State, i: nat, acquireMs: int, renewalMs: int)
    requires i < |s.leases|
  {
    var p := s.leases[i];
    Believes(p) ==>
      && s.entry.Some? && s.entry.value.token == i
      && var expiry := s.entry.value.expiresAt;
      match p
      case Acquired(executedAt) => expiry == executedAt + LOCK_MS
      case Held(nextTick, renewal, _, _) =>
        (match renewal
         case Idle => nextTick + renewalMs < expiry
         case Begun(due) => due + renewalMs < expiry && due + RENEW_MS <= nextTick <= s.now + RENEW_MS
         case Watched(due, watch) =>
           && due + renewalMs < expiry && due + RENEW_MS <= nextTick <= s.now + RENEW_MS
           && (watch.Some? ==> watch.value == s.version)
         case Own(due, watch) =>
           && due + renewalMs < expiry && due + RENEW_MS <= nextTick <= s.now + RENEW_MS
           && (watch.Some? ==> watch.value == s.version)
         case Executed(due, renewed) =>
           && due + renewalMs < expiry && due + RENEW_MS <= nextTick <= s.now + RENEW_MS
           && (renewed ==> nextTick + renewalMs < expiry))
  }

  predicate AllSecure(s: State, acquireMs: int, renewalMs: int) {
    forall i | 0 <= i < |s.leases| :: Secure(s, i, acquireMs, renewalMs)
  }

  predicate Latencies(acquireMs: int, renewalMs: int) {
    0 <= acquireMs && 0 <= renewalMs && acquireMs + renewalMs < LOCK_MS - RENEW_MS
  }

  lemma SecureIsLive(s: State, i: nat, acquireMs: int, renewalMs: int)
    requires Latencies(acquireMs, renewalMs) && i < |s.leases| && Believes(s.leases[i])
    requires Secure(s, i, acquireMs, renewalMs) && Timely(s, acquireMs, renewalMs)
    ensures OwnedBy(s, i)
  {
    assert InTime(s, s.leases[i], acquireMs, renewalMs);
  }

  /** While some lease is secure, another lease's step leaves the key alone. */
  lemma OthersKeepTheKey(s: State, a: Action, i: nat, acquireMs: int, renewalMs: int)
    requires Latencies(acquireMs, renewalMs) && Inv(s) && i < |s.leases| && Believes(s.leases[i])
    requires Secure(s, i, acquireMs, renewalMs) && Timely(s, acquireMs, renewalMs)
    requires a.Call? || a.Advance? || (!a.LateExec? && a.i != i && !Stray(s, a))
    ensures Apply(s, a).entry == s.entry && Apply(s, a).version == s.version
    ensures i < |Apply(s, a).leases| && Apply(s, a).leases[i] == s.leases[i]
  {
    SecureIsLive(s, i, acquireMs, renewalMs);
    if !a.Call? && !a.Advance? && a.i < |s.leases| { assert SawOwn(s, a.i); }
  }

  lemma OwnStepStaysSecure(s: State, a: Action, acquireMs: int, renewalMs: int)
    requires Latencies(acquireMs, renewalMs) && Inv(s) && AllSecure(s, acquireMs, renewalMs)
    requires Timely(s, acquireMs, renewalMs)
    requires !a.Call? && !a.Advance? && !a.LateExec? && a.i < |s.leases|
    ensures a.i < |Apply(s, a).leases| && Secure(Apply(s, a), a.i, acquireMs, renewalMs)
  {
    var i := a.i;
    assert Secure(s, i, acquireMs, renewalMs) && InTime(s, s.leases[i], acquireMs, renewalMs);
    if Believes(s.leases[i]) { SecureIsLive(s, i, acquireMs, renewalMs); }
  }

  /** A late EXEC can only meet the key of a lease that has given up, and then only prolong it. */
  lemma LateExecStaysSecure(s: State, a: Action, i: nat, acquireMs: int, renewalMs: int)
    requires Latencies(acquireMs, renewalMs) && Inv(s) && AllSecure(s, acquireMs, renewalMs)
    requires Timely(s, acquireMs, renewalMs) && a.LateExec? && !Stray(s, a) && i < |s.leases|
    ensures Secure(Apply(s, a), i, acquireMs, renewalMs)
  {
    assert Secure(s, i, acquireMs, renewalMs) && SawOwn(s, i);
    if a.late < |s.late| { assert LateOk(s, s.late[a.late]); }
  }

  lemma StepStaysSecure(s: State, a: Action, acquireMs: int, renewalMs: int)
    requires Latencies(acquireMs, renewalMs) && Inv(s) && AllSecure(s, acquireMs, renewalMs)
    requires Timely(s, acquireMs, renewalMs) && !Stray(s, a)
    ensures AllSecure(Apply(s, a), acquireMs, renewalMs)
  {
    var t := Apply(s, a);
    forall i | 0 <= i < |t.leases| ensures Secure(t, i, acquireMs, renewalMs) {
      if a.LateExec? {
        LateExecStaysSecure(s, a, i, acquireMs, renewalMs);
      } else if !a.Call? && !a.Advance? && a.i == i {
        OwnStepStaysSecure(s, a, acquireMs, renewalMs);
      } else if i < |s.leases| {
        assert Secure(s, i, acquireMs, renewalMs);
        if Believes(s.leases[i]) { OthersKeepTheKey(s, a, i, acquireMs, renewalMs); }
        else { assert t.leases[i] == s.leases[i]; }
      }
    }
  }

  lemma {:induction false} TimedRunStaysSecure(s: State, actions: seq<Action>, acquireMs: int, renewalMs: int)
    requires Latencies(acquireMs, renewalMs) && Inv(s) && AllSecure(s, acquireMs, renewalMs)
    requires TimedRun(s, actions, acquireMs, renewalMs, false)
    ensures var t := Run(s, actions); AllSecure(t, acquireMs, renewalMs) && Timely(t, acquireMs, renewalMs)
    decreases |actions|
  {
    if actions != [] {
      StepKeepsInv(s, actions[0]);
      StepStaysSecure(s, actions[0], acquireMs, renewalMs);
      TimedRunStaysSecure(Apply(s, actions[0]), actions[1..], acquireMs, renewalMs);
    }
  }

  /**
   With acquire and renewal latency together below five seconds and no stray EXEC, a check that
   passes means that the key holds this lease's token and has not expired; so no two leases pass at one instant.
   */
  lemma PassingMeansOwning(actions: seq<Action>, acquireMs: int, renewalMs: int, i: nat, j: nat)
    requires Latencies(acquireMs, renewalMs) && TimedRun(Initial, actions, acquireMs, renewalMs, false)
    requires Passes(Run(Initial, actions), i)
    ensures OwnedBy(Run(Initial, actions), i)
    ensures Passes(Run(Initial, actions), j) ==> i == j
  {
    TimedRunStaysSecure(Initial, actions, acquireMs, renewalMs);
    var s := Run(Initial, actions);
    assert Secure(s, i, acquireMs, renewalMs);
    SecureIsLive(s, i, acquireMs, renewalMs);
    if Passes(s, j) {
      assert Secure(s, j, acquireMs, renewalMs);
      SecureIsLive(s, j, acquireMs, renewalMs);
    }
  }

  // ---------- five seconds is the exact margin ----------

  ghost predicate Exclusive(acquireMs: int, renewalMs: int, strays: bool) {
    forall actions, i: nat, j: nat |
      TimedRun(Initial, actions, acquireMs, renewalMs, strays)
      && Passes(Run(Initial, actions), i) && Passes(Run(Initial, actions), j) :: i == j
  }

  lemma {:induction false} TimedRunThen(s: State, actions: seq<Action>, a: Action, acquireMs: int, renewalMs: int, strays: bool)
    requires TimedRun(s, actions, acquireMs, renewalMs, strays)
    requires Timely(Apply(Run(s, actions), a), acquireMs, renewalMs) && (strays || !Stray(Run(s, actions), a))
    ensures Run(s, actions + [a]) == Apply(Run(s, actions), a)
    ensures TimedRun(s, actions + [a], acquireMs, renewalMs, strays)
    decreases |actions|
  {
    if actions == [] {
      assert [a][1..] == [] && [] + [a] == [a];
    } else {
      assert (actions + [a])[1..] == actions[1..] + [a];
      TimedRunThen(Apply(s, actions[0]), actions[1..], a, acquireMs, renewalMs, strays);
    }
  }

  /** Slower replies let two leases pass at once: the first reply comes late and the key expires before the first tick. */
  lemma SlowRepliesShareTheLock(acquireMs: nat, renewalMs: nat, strays: bool) returns (actions: seq<Action>)
    requires acquireMs + renewalMs >= LOCK_MS - RENEW_MS
    ensures TimedRun(Initial, actions, acquireMs, renewalMs, strays)
    ensures Passes(Run(Initial, actions), 0) && Passes(Run(Initial, actions), 1)
  {
    var first := Held(acquireMs + RENEW_MS, Idle, false, Open);
    var later;
    actions, later := KeyRunsOut(acquireMs, renewalMs, strays);
    TimedRunThen(Initial, actions, SetNx(1, false), acquireMs, renewalMs, strays);
    actions := actions + [SetNx(1, false)];
    assert Run(Initial, actions).leases == [first, Acquired(later)];
    TimedRunThen(Initial, actions, AcquireReply(1), acquireMs, renewalMs, strays);
    actions := actions + [AcquireReply(1)];
  }

  /** The first lease is held in time, its key has expired and a second one calls. */
  lemma KeyRunsOut(acquireMs: nat, renewalMs: nat, strays: bool) returns (actions: seq<Action>, later: int)
    requires acquireMs + renewalMs >= LOCK_MS - RENEW_MS
    ensures TimedRun(Initial, actions, acquireMs, renewalMs, strays)
    ensures later >= LOCK_MS && later >= acquireMs && later <= acquireMs + RENEW_MS + renewalMs
    ensures Run(Initial, actions)
         == State(later, Some(Entry(0, LOCK_MS)), 1, [Held(acquireMs + RENEW_MS, Idle, false, Open), Calling], [])
  {
    var wait: nat := if acquireMs < LOCK_MS then LOCK_MS - acquireMs else 0;
    later := acquireMs + wait;
    actions := LateReply(acquireMs, renewalMs, strays);
    TimedRunThen(Initial, actions, Advance(wait), acquireMs, renewalMs, strays);
    actions := actions + [Advance(wait)];
    TimedRunThen(Initial, actions, Call, acquireMs, renewalMs, strays);
    actions := actions + [Call];
  }

  lemma LateReply(acquireMs: nat, renewalMs: nat, strays: bool) returns (actions: seq<Action>)
    ensures TimedRun(Initial, actions, acquireMs, renewalMs, strays)
    ensures Run(Initial, actions)
         == State(acquireMs, Some(Entry(0, LOCK_MS)), 1, [Held(acquireMs + RENEW_MS, Idle, false, Open)], [])
  {
    TimedRunThen(Initial, [], Call, acquireMs, renewalMs, strays);
    actions := [] + [Call];
    assert Run(Initial, actions) == State(0, None, 0, [Calling], []);
    TimedRunThen(Initial, actions, SetNx(0, false), acquireMs, renewalMs, strays);
    actions := actions + [SetNx(0, false)];
    assert Run(Initial, actions) == State(0, Some(Entry(0, LOCK_MS)), 1, [Acquired(0)], []);
    TimedRunThen(Initial, actions, Advance(acquireMs), acquireMs, renewalMs, strays);
    actions := actions + [Advance(acquireMs)];
    TimedRunThen(Initial, actions, AcquireReply(0), acquireMs, renewalMs, strays);
    actions := actions + [AcquireReply(0)];
    assert Run(Initial, actions).leases == [Held(acquireMs + RENEW_MS, Idle, false, Open)];
  }

  /** A lease at its release whose WATCH is gone, and whose key has run out for the next one. */
  const Forgotten := State(LOCK_MS, Some(Entry(1, 2 * LOCK_MS)), 2,
    [Held(RENEW_MS, Idle, false, ReleaseOwn(None)), Acquired(LOCK_MS)], [])

  lemma ReleaseBegins(acquireMs: nat, renewalMs: nat) returns (actions: seq<Action>)
    ensures TimedRun(Initial, actions, acquireMs, renewalMs, true)
    ensures Run(Initial, actions) == State(0, Some(Entry(0, LOCK_MS)), 1, [Held(RENEW_MS, Idle, false, Closing)], [])
  {
    TimedRunThen(Initial, [], Call, acquireMs, renewalMs, true);
    actions := [] + [Call];
    TimedRunThen(Initial, actions, SetNx(0, false), acquireMs, renewalMs, true);
    actions := actions + [SetNx(0, false)];
    assert Run(Initial, actions) == State(0, Some(Entry(0, LOCK_MS)), 1, [Acquired(0)], []);
    TimedRunThen(Initial, actions, AcquireReply(0), acquireMs, renewalMs, true);
    actions := actions + [AcquireReply(0)];
    TimedRunThen(Initial, actions, BeginRelease(0), acquireMs, renewalMs, true);
    actions := actions + [BeginRelease(0)];
  }

  lemma ReleaseForgets(acquireMs: nat, renewalMs: nat) returns (actions: seq<Action>)
    ensures TimedRun(Initial, actions, acquireMs, renewalMs, true)
    ensures Run(Initial, actions)
         == State(0, Some(Entry(0, LOCK_MS)), 1, [Held(RENEW_MS, Idle, false, ReleaseOwn(None))], [])
  {
    actions := ReleaseBegins(acquireMs, renewalMs);
    TimedRunThen(Initial, actions, ReleaseWatch(0), acquireMs, renewalMs, true);
    actions := actions + [ReleaseWatch(0)];
    TimedRunThen(Initial, actions, ReleaseGet(0), acquireMs, renewalMs, true);
    actions := actions + [ReleaseGet(0)];
    TimedRunThen(Initial, actions, ReleaseReconnect(0), acquireMs, renewalMs, true);
    actions := actions + [ReleaseReconnect(0)];
  }

  lemma NextLeaseTakesOver(acquireMs: nat, renewalMs: nat) returns (actions: seq<Action>)
    ensures TimedRun(Initial, actions, acquireMs, renewalMs, true)
    ensures Run(Initial, actions) == Forgotten
  {
    actions := ReleaseForgets(acquireMs, renewalMs);
    TimedRunThen(Initial, actions, Advance(LOCK_MS), acquireMs, renewalMs, true);
    actions := actions + [Advance(LOCK_MS)];
    TimedRunThen(Initial, actions, Call, acquireMs, renewalMs, true);
    actions := actions + [Call];
    TimedRunThen(Initial, actions, SetNx(1, false), acquireMs, renewalMs, true);
    actions := actions + [SetNx(1, false)];
  }

  /** Without its WATCH a release deletes the next lease's key, and two later leases pass at once. */
  lemma StrayReleaseSharesTheLock(acquireMs: nat, renewalMs: nat) returns (actions: seq<Action>)
    ensures TimedRun(Initial, actions, acquireMs, renewalMs, true)
    ensures Passes(Run(Initial, actions), 1) && Passes(Run(Initial, actions), 2)
  {
    actions := NextLeaseTakesOver(acquireMs, renewalMs);
    TimedRunThen(Initial, actions, AcquireReply(1), acquireMs, renewalMs, true);
    actions := actions + [AcquireReply(1)];
    TimedRunThen(Initial, actions, ReleaseExec(0, false), acquireMs, renewalMs, true);
    actions := actions + [ReleaseExec(0, false)];
    assert Run(Initial, actions) == State(LOCK_MS, None, 3, [Closed, Held(LOCK_MS + RENEW_MS, Idle, false, Open)], []);
    TimedRunThen(Initial, actions, Call, acquireMs, renewalMs, true);
    actions := actions + [Call];
    TimedRunThen(Initial, actions, SetNx(2, false), acquireMs, renewalMs, true);
    actions := actions + [SetNx(2, false)];
    TimedRunThen(Initial, actions, AcquireReply(2), acquireMs, renewalMs, true);
    actions := actions + [AcquireReply(2)];
  }

  /**
   Mutual exclusion holds in all timely runs exactly when the two latencies stay under five seconds
   and no EXEC whose WATCH is gone meets another lease's key.
   */
  lemma ExclusiveExactly(acquireMs: nat, renewalMs: nat, strays: bool)
    ensures Exclusive(acquireMs, renewalMs, strays) <==> acquireMs + renewalMs < 5_000 && !strays
  {
    if acquireMs + renewalMs >= LOCK_MS - RENEW_MS {
      var actions := SlowRepliesShareTheLock(acquireMs, renewalMs, strays);
    } else if strays {
      var actions := StrayReleaseSharesTheLock(acquireMs, renewalMs);
    } else {
      forall actions, i: nat, j: nat |
        TimedRun(Initial, actions, acquireMs, renewalMs, false)
        && Passes(Run(Initial, actions), i) && Passes(Run(Initial, actions), j)
        ensures i == j
      {
        PassingMeansOwning(actions, acquireMs, renewalMs, i, j);
      }
    }
  }
}
