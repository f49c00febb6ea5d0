/**
 The lease object itself: its fields, and its methods as runs of the steps in `Lease`.

 Between any two of its commands other leases may take any steps; these are parameters. A
 connection may break at any command, or be replaced by one that has forgotten the WATCH. What is proved of all runs in `Lease` therefore holds of
 these methods.
 */
module LeaseClient {
  import opened Wrappers
  import opened Lease

  /** Steps of other leases, commands that land late, or the passing of time. */
  predicate Foreign(actions: seq<Action>, i: nat) {
    forall a | a in actions :: a.Call? || a.Advance? || a.LateExec? || a.i != i
  }

  /** As `Foreign`, mixed with the rest of a renewal of lease `i`. */
  predicate ForeignOrRenewal(actions: seq<Action>, i: nat) {
    forall a | a in actions ::
      a.Call? || a.Advance? || a.LateExec? || a.i != i || (IsRenewal(a) && !a.TimerTick?)
  }

  lemma {:induction false} RunAppend(s: State, a: seq<Action>, b: seq<Action>)
    ensures Run(s, a + b) == Run(Run(s, a), b)
    decreases |a|
  {
    hide Apply;
    if a == [] {
      assert a + b == b;
    } else {
      assert (a + b)[1..] == a[1..] + b;
      RunAppend(Apply(s, a[0]), a[1..], b);
    }
  }

  lemma ForeignStep(s: State, a: Action, i: nat)
    requires i < |s.leases| && (a.Call? || a.Advance? || a.LateExec? || a.i != i)
    ensures i < |Apply(s, a).leases| && Apply(s, a).leases[i] == s.leases[i]
  {
  }

  /** Other leases leave this one's phase alone. */
  lemma {:induction false} ForeignRun(s: State, actions: seq<Action>, i: nat)
    requires i < |s.leases| && Foreign(actions, i)
    ensures i < |Run(s, actions).leases| && Run(s, actions).leases[i] == s.leases[i]
    decreases |actions|
  {
    hide Apply;
    if actions != [] {
      assert actions[0] in actions;
      ForeignStep(s, actions[0], i);
      ForeignRun(Apply(s, actions[0]), actions[1..], i);
    }
  }

  lemma RenewalStep(s: State, a: Action, i: nat)
    requires i < |s.leases| && s.leases[i].Held?
    requires a.Call? || a.Advance? || a.LateExec? || a.i != i || (IsRenewal(a) && !a.TimerTick?)
    ensures var p := Apply(s, a).leases; i < |p| && p[i].Held? && p[i].release == s.leases[i].release
  {
  }

  /** The rest of a renewal keeps the lease held and its release where it was. */
  lemma {:induction false} RenewalRun(s: State, actions: seq<Action>, i: nat)
    requires i < |s.leases| && s.leases[i].Held? && ForeignOrRenewal(actions, i)
    ensures var p := Run(s, actions).leases; i < |p| && p[i].Held? && p[i].release == s.leases[i].release
    decreases |actions|
  {
    hide Apply;
    if actions != [] {
      assert actions[0] in actions;
      RenewalStep(s, actions[0], i);
      RenewalRun(Apply(s, actions[0]), actions[1..], i);
    }
  }

  /** The Redis server with everything that its clients are doing. */
  class Server {
    var state: State

    constructor ()
      ensures state == Initial
    {
      state := Initial;
    }

    method Pass(others: seq<Action>, ghost i: nat)
      requires i < |state.leases| && Foreign(others, i)
      modifies this
      ensures state == Run(old(state), others)
      ensures i < |state.leases| && state.leases[i] == old(state.leases)[i]
    {
      ForeignRun(state, others, i);
      state := Run(state, others);
    }

    /** The token stored under the lock, if any. */
    method GetKey() returns (token: Option<nat>)
      ensures token == if Live(state) then Some(state.entry.value.token) else None
    {
      token := if Live(state) then Some(state.entry.value.token) else None;
    }
  }

  /** How a SET NX ends for its caller. */
  datatype Reply = Answered | ReplyLost | NotSent

  /** The lock as a successful caller leaves it: its token, for the full time. */
  function Taken(s: State, i: nat): State {
    State(s.now, Some(Entry(i, s.now + LOCK_MS)), s.version + 1, if i < |s.leases| then s.leases[i := Acquired(s.now)] else s.leases,
          s.late)
  }

  /** Try to take the lock; `before` and `after` are what others do before SET NX and before its reply. */
  method Acquire(server: Server, before: seq<Action>, after: seq<Action>, reply: Reply)
    returns (lease: Option<ReconciliationLease>, ghost steps: seq<Action>)
    requires Foreign(before, |server.state.leases|) && Foreign(after, |server.state.leases|)
    modifies server
    ensures server.state == Run(old(server.state), steps)
    ensures lease.Some? ==> fresh(lease.value) && lease.value.server == server && lease.value.Valid()
                            && Passes(server.state, lease.value.token)
    ensures var i := |old(server.state.leases)|;
      i < |server.state.leases| && (lease.None? ==> server.state.leases[i].Closed?)
    ensures var asked := Run(Apply(old(server.state), Call), before);
      && (lease.Some? <==> reply.Answered? && !Live(asked))
      && (lease.Some? ==> lease.value.token == |old(server.state.leases)|)
      && (Live(asked) || reply.NotSent? ==> server.state.entry == asked.entry)
      && (!Live(asked) && reply.ReplyLost? ==> server.state.entry == Some(Entry(|old(server.state.leases)|, asked.now + LOCK_MS)))
      && (lease.Some? ==> SameKey(Run(Taken(asked, lease.value.token), after), server.state))
  {
    hide Run, Foreign;
    ghost var s0 := server.state;
    var token := |server.state.leases|;
    server.state := Apply(server.state, Call);
    RunOne(s0, Call);
    RunAppend(s0, [Call], before);
    steps := [Call] + before;
    server.Pass(before, token);
    var taken := Live(server.state);
    var attempt := if reply.NotSent? then SetNotSent(token) else SetNx(token, reply.ReplyLost?);
    RunOne(server.state, attempt);
    RunAppend(s0, steps, [attempt]);
    steps := steps + [attempt];
    server.state := Apply(server.state, attempt);
    if reply.NotSent? || reply.ReplyLost? || taken { return None, steps; }
    RunAppend(s0, steps, after);
    steps := steps + after;
    server.Pass(after, token);
    RunOne(server.state, AcquireReply(token));
    RunAppend(s0, steps, [AcquireReply(token)]);
    steps := steps + [AcquireReply(token)];
    server.state := Apply(server.state, AcquireReply(token));
    var held := new ReconciliationLease(server, token);
    lease := Some(held);
  }

  lemma RunOne(s: State, a: Action)
    ensures Run(s, [a]) == Apply(s, a)
  {
    assert [a][1..] == [];
    assert Run(Apply(s, a), []) == Apply(s, a);
  }

  lemma Nothing(s: State)
    ensures Run(s, []) == s
  {
  }

  /** What the commands of a renewal do to the lease's own phase. */
  lemma RenewalEffects(s: State, i: nat, expiryAborts: bool)
    requires i < |s.leases| && s.leases[i].Held?
    ensures forall a | a in {Watch(i), Get(i), Exec(i, expiryAborts), Lease.Break(i), Reconnect(i)} :: |Apply(s, a).leases| == |s.leases|
    ensures var h := s.leases[i];
      && (h.renewal.Begun? ==>
            Apply(s, Watch(i)).leases[i] == h.(renewal := Watched(h.renewal.due, Some(s.version))))
      && (h.renewal.Watched? ==>
            Apply(s, Get(i)).leases[i]
            == h.(renewal := if OwnedBy(s, i) then Own(h.renewal.due, h.renewal.watch) else Executed(h.renewal.due, false)))
      && (h.renewal.Own? ==>
            Apply(s, Exec(i, expiryAborts)).leases[i]
            == h.(renewal := Executed(h.renewal.due, ExecRuns(s, h.renewal.watch, expiryAborts))))
      && (!h.renewal.Idle? ==>
            Apply(s, Lease.Break(i)).leases[i] == h.(renewal := Executed(h.renewal.due, false)))
      && (h.renewal.Watched? || h.renewal.Own? ==>
            Apply(s, Reconnect(i)).leases[i] == h.(renewal := h.renewal.(watch := None)))
  {
  }

  /** What the steps of a release do to the lease's own phase. */
  lemma ReleaseEffects(s: State, i: nat, expiryAborts: bool)
    requires i < |s.leases| && s.leases[i].Held?
    ensures forall a | a in {BeginRelease(i), ReleaseWatch(i), ReleaseGet(i), ReleaseExec(i, expiryAborts),
                        ReleaseBreak(i), ReleaseReconnect(i)} ::
      |Apply(s, a).leases| == |s.leases|
    ensures var h := s.leases[i];
      && (h.release.Open? ==> Apply(s, BeginRelease(i)).leases[i] == h.(release := Closing))
      && (h.release.Closing? && h.renewal.Idle? ==>
            Apply(s, ReleaseWatch(i)).leases[i] == h.(release := ReleaseWatched(Some(s.version))))
      && (h.release.ReleaseWatched? ==>
            Apply(s, ReleaseGet(i)).leases[i] == if OwnedBy(s, i) then h.(release := ReleaseOwn(h.release.watch)) else Closed)
      && (h.release.ReleaseOwn? ==> Apply(s, ReleaseExec(i, expiryAborts)).leases[i].Closed?)
      && (!h.release.Open? ==> Apply(s, ReleaseBreak(i)).leases[i].Closed?)
      && (h.release.ReleaseWatched? || h.release.ReleaseOwn? ==>
            Apply(s, ReleaseReconnect(i)).leases[i] == h.(release := h.release.(watch := None)))
  {
  }

  /** What the commands of a lease that holds its lock, or took it, do to the key. */
  lemma KeyEffects(s: State, i: nat, expiryAborts: bool)
    requires i < |s.leases| && s.leases[i].Held?
    ensures var h := s.leases[i]; var t := Apply(s, Exec(i, expiryAborts));
      h.renewal.Own? ==> t.entry == if ExecRuns(s, h.renewal.watch, expiryAborts) && Live(s)
                                    then Some(Entry(s.entry.value.token, s.now + LOCK_MS)) else s.entry
    ensures var h := s.leases[i]; var t := Apply(s, ReleaseExec(i, expiryAborts));
      h.release.ReleaseOwn? ==> t.entry == if ExecRuns(s, h.release.watch, expiryAborts) && Live(s) then None else s.entry
    ensures forall a | a in {Watch(i), Get(i), BeginRelease(i), ReleaseWatch(i), ReleaseGet(i)} :: SameKey(s, Apply(s, a))
  {
  }

  /** The key, its writes and the time are as they were. */
  predicate SameKey(s: State, t: State) {
    t.entry == s.entry && t.version == s.version && t.now == s.now
  }

  /** Where a connection breaks: before a command, or after the last one. */
  datatype Break = AtWatch | AtGet | AtExec | AtReply | Never

  /** Before which commands after the WATCH the connection is replaced. */
  datatype Drops = Drops(beforeGet: bool, beforeExec: bool)

  const NoDrops := Drops(false, false)

  /** The server as the GET of a renewal finds it, with what others do before each command. */
  ghost function BeforeGet(s: State, i: nat, w: seq<Action>, g: seq<Action>, drops: Drops): State {
    var t := Run(Apply(Run(s, w), Lease.Watch(i)), g);
    if drops.beforeGet then Apply(t, Reconnect(i)) else t
  }

  /** As the EXEC that follows finds it. */
  ghost function BeforeExec(s: State, i: nat, x: seq<Action>, drops: Drops): State {
    var t := Run(s, x);
    if drops.beforeExec then Apply(t, Reconnect(i)) else t
  }

  /** The same for a release. */
  ghost function BeforeReleaseGet(s: State, i: nat, w: seq<Action>, g: seq<Action>, drops: Drops): State {
    var t := Run(Apply(Run(s, w), ReleaseWatch(i)), g);
    if drops.beforeGet then Apply(t, ReleaseReconnect(i)) else t
  }

  ghost function BeforeReleaseExec(s: State, i: nat, x: seq<Action>, drops: Drops): State {
    var t := Run(s, x);
    if drops.beforeExec then Apply(t, ReleaseReconnect(i)) else t
  }

  /**
   A renewal that no broken connection stops succeeds exactly when its GET sees the own token and
   nothing was written since its WATCH, or that is gone; an expiry counts if the server reports it.
   */
  ghost predicate Renews(s: State, i: nat, w: seq<Action>, g: seq<Action>, x: seq<Action>, expiryAborts: bool, drops: Drops) {
    var seen := BeforeGet(s, i, w, g, drops);
    var t := BeforeExec(Apply(seen, Lease.Get(i)), i, x, drops);
    OwnedBy(seen, i) && (drops != NoDrops || (t.version == Run(s, w).version && (Live(t) || !expiryAborts)))
  }

  ghost function KeyAfterRenewal(s: State, i: nat, w: seq<Action>, g: seq<Action>, x: seq<Action>, expiryAborts: bool, drops: Drops)
    : Option<Entry>
  {
    var seen := BeforeGet(s, i, w, g, drops);
    var t := BeforeExec(Apply(seen, Lease.Get(i)), i, x, drops);
    if !OwnedBy(seen, i) then seen.entry
    else if Renews(s, i, w, g, x, expiryAborts, drops) && Live(t) then Some(Entry(t.entry.value.token, t.now + LOCK_MS))
    else t.entry
  }

  /**
   A release that no broken connection stops leaves the key deleted exactly when its GET sees the
   own token, the key is live at its EXEC, and nothing was written since its WATCH or that is gone.
   */
  ghost predicate Deletes(s: State, after: State, i: nat, w: seq<Action>, g: seq<Action>, x: seq<Action>,
                          expiryAborts: bool, drops: Drops)
  {
    var seen := BeforeReleaseGet(s, i, w, g, drops);
    var t := BeforeReleaseExec(Apply(seen, ReleaseGet(i)), i, x, drops);
    if !OwnedBy(seen, i) then after.entry == seen.entry
    else if Live(t) && (drops != NoDrops || t.version == Run(s, w).version) then after.entry == None
    else after.entry == t.entry
  }

  class ReconciliationLease {
    const server: Server
    const token: nat
    var lost: bool
    var renewing: bool
    var timerOn: bool

    ghost predicate Valid() reads this, server {
      && token < |server.state.leases| && server.state.leases[token].Held?
      && var h := server.state.leases[token];
         h.lost == lost && (h.renewal.Idle? <==> !renewing) && (h.release.Open? <==> timerOn)
    }

    constructor (server: Server, token: nat)
      requires token < |server.state.leases|
      requires server.state.leases[token] == Held(server.state.now + RENEW_MS, Idle, false, Open)
      ensures Valid() && this.server == server && this.token == token && !lost && timerOn && !renewing
    {
      this.server, this.token, lost, renewing, timerOn := server, token, false, false, true;
    }

    /** The check that guards every mutation of a sweep. */
    method AssertOwned() returns (ok: bool)
      requires Valid() && timerOn
      ensures ok <==> Passes(server.state, token)
    {
      ok := !lost;
    }

    /**
     Extend the key under WATCH if it still holds the own token. `w`, `g` and `x` are what others
     do before each command.
     */
    method RenewOwned(w: seq<Action>, g: seq<Action>, x: seq<Action>, expiryAborts: bool, breaks: Break, drops: Drops)
      returns (renewed: bool, ghost steps: seq<Action>)
      requires Valid() && renewing && server.state.leases[token].renewal.Begun?
      requires Foreign(w, token) && Foreign(g, token) && Foreign(x, token)
      modifies server
      ensures Valid() && server.state == Run(old(server.state), steps)
      ensures server.state.leases[token]
           == old(server.state.leases)[token].(renewal := Executed(old(server.state.leases)[token].renewal.due, renewed))
      ensures !breaks.Never? ==> !renewed
      ensures breaks.Never? ==>
        && renewed == Renews(old(server.state), token, w, g, x, expiryAborts, drops)
        && server.state.entry == KeyAfterRenewal(old(server.state), token, w, g, x, expiryAborts, drops)
    {
      hide Run, Foreign, Apply;
      ghost var s0 := server.state;
      steps := w;
      server.Pass(w, token);
      RenewalEffects(server.state, token, expiryAborts);
      if breaks.AtWatch? { steps := Do(s0, steps, Lease.Break(token)); return false, steps; }
      var watch := Some(server.state.version);
      steps := Do(s0, steps, Lease.Watch(token));
      steps := Others(s0, steps, g);
      RenewalEffects(server.state, token, expiryAborts);
      if drops.beforeGet {
        steps := Do(s0, steps, Reconnect(token));
        watch := None;
        RenewalEffects(server.state, token, expiryAborts);
      }
      KeyEffects(server.state, token, expiryAborts);
      if breaks.AtGet? { steps := Do(s0, steps, Lease.Break(token)); return false, steps; }
      var holder := server.GetKey();
      steps := Do(s0, steps, Lease.Get(token));
      if holder != Some(token) { return false, steps; }
      renewed, steps := Extend(s0, steps, watch, x, expiryAborts, breaks, drops);
    }

    /** The transaction of a renewal, after the GET that saw the own token. */
    method Extend(ghost s0: State, ghost sofar: seq<Action>, watched: Option<nat>, x: seq<Action>, expiryAborts: bool,
                  breaks: Break, drops: Drops)
      returns (renewed: bool, ghost steps: seq<Action>)
      requires Valid() && renewing && server.state == Run(s0, sofar) && Foreign(x, token)
      requires server.state.leases[token].renewal.Own? && server.state.leases[token].renewal.watch == watched
      modifies server
      ensures Valid() && server.state == Run(s0, steps)
      ensures server.state.leases[token]
           == old(server.state.leases)[token].(renewal := Executed(old(server.state.leases)[token].renewal.due, renewed))
      ensures !breaks.Never? && !breaks.AtWatch? && !breaks.AtGet? ==> !renewed
      ensures breaks.Never? ==>
        var t := BeforeExec(old(server.state), token, x, drops);
        && (renewed <==> ExecRuns(t, if drops.beforeExec then None else watched, expiryAborts))
        && server.state.entry == if renewed && Live(t) then Some(Entry(t.entry.value.token, t.now + LOCK_MS)) else t.entry
    {
      hide Run, Foreign, Apply, ExecRuns;
      var watch := watched;
      steps := Others(s0, sofar, x);
      RenewalEffects(server.state, token, expiryAborts);
      if drops.beforeExec {
        steps := Do(s0, steps, Reconnect(token));
        watch := None;
        RenewalEffects(server.state, token, expiryAborts);
      }
      if breaks.AtExec? { steps := Do(s0, steps, Lease.Break(token)); return false, steps; }
      KeyEffects(server.state, token, expiryAborts);
      renewed := ExecRuns(server.state, watch, expiryAborts);
      steps := Do(s0, steps, Lease.Exec(token, expiryAborts));
      RenewalEffects(server.state, token, expiryAborts);
      if breaks.AtReply? { steps := Do(s0, steps, Lease.Break(token)); return false, steps; }
    }

    /**
     The interval callback with the renewal it starts; `next` is when the timer fires again, and
     `after` what others do before the reply is handled.
     */
    method Tick(next: int, w: seq<Action>, g: seq<Action>, x: seq<Action>, after: seq<Action>, expiryAborts: bool, breaks: Break, drops: Drops)
      returns (ghost steps: seq<Action>)
      requires Valid() && timerOn
      requires var due := server.state.leases[token].nextTick;
        due <= server.state.now && due + RENEW_MS <= next <= server.state.now + RENEW_MS
      requires Foreign(w, token) && Foreign(g, token) && Foreign(x, token) && Foreign(after, token)
      modifies this, server
      ensures Valid() && timerOn && server.state == Run(old(server.state), steps)
      ensures old(lost) ==> lost
      ensures !old(renewing) && !old(lost) ==>
        && !renewing
        && (lost <==> !(breaks.Never?
                        && Renews(Apply(old(server.state), TimerTick(token, next)), token, w, g, x, expiryAborts, drops)))
      ensures old(renewing) || old(lost) ==> server.state.entry == old(server.state).entry
    {
      hide Run, Foreign;
      ghost var s0 := server.state;
      Nothing(s0);
      steps := Do(s0, [], TimerTick(token, next));
      if renewing || lost { return; }
      renewing := true;
      ghost var s1, started := server.state, steps;
      var renewed, renewal := RenewOwned(w, g, x, expiryAborts, breaks, drops);
      RunAppend(s0, started, renewal);
      steps := Others(s0, started + renewal, after);
      steps := Do(s0, steps, Settle(token));
      if !renewed { lost := true; }
      renewing := false;
    }

    /** Is the renewal over once these steps are taken after the timer is stopped? */
    ghost predicate Settles(pending: seq<Action>)
      requires Valid()
      reads this, server
    {
      var t := Run(Apply(server.state, BeginRelease(token)), pending);
      token < |t.leases| && t.leases[token].Held? && t.leases[token].renewal.Idle?
    }

    /**
     Stop the timer, wait for a renewal under way, and delete the key under WATCH if it still
     holds the own token. `pending` is what happens until that renewal is over.
     */
    method Release(pending: seq<Action>, w: seq<Action>, g: seq<Action>, x: seq<Action>, expiryAborts: bool, breaks: Break, drops: Drops)
      returns (ghost steps: seq<Action>)
      requires Valid() && timerOn && ForeignOrRenewal(pending, token) && Settles(pending)
      requires Foreign(w, token) && Foreign(g, token) && Foreign(x, token)
      modifies this, server
      ensures server.state == Run(old(server.state), steps) && !timerOn && !renewing
      ensures token < |server.state.leases| && server.state.leases[token].Closed?
      ensures breaks.Never? || breaks.AtReply? ==>
        var idle := Run(Apply(old(server.state), BeginRelease(token)), pending);
        Deletes(idle, server.state, token, w, g, x, expiryAborts, drops)
    {
      hide Run, Foreign, ForeignOrRenewal, Apply;
      ghost var s0 := server.state;
      Nothing(s0);
      timerOn := false;
      ReleaseEffects(server.state, token, expiryAborts);
      steps := Do(s0, [], BeginRelease(token));
      RenewalRun(server.state, pending, token);
      RunAppend(s0, steps, pending);
      steps := steps + pending;
      server.state := Run(server.state, pending);
      renewing, lost := false, server.state.leases[token].lost;
      steps := Delete(s0, steps, w, g, x, expiryAborts, breaks, drops);
    }

    /** The commands of a release, once no renewal is under way. */
    method Delete(ghost s0: State, ghost sofar: seq<Action>, w: seq<Action>, g: seq<Action>, x: seq<Action>,
                  expiryAborts: bool, breaks: Break, drops: Drops)
      returns (ghost steps: seq<Action>)
      requires Valid() && server.state == Run(s0, sofar)
      requires server.state.leases[token].release.Closing? && server.state.leases[token].renewal.Idle?
      requires Foreign(w, token) && Foreign(g, token) && Foreign(x, token)
      modifies server
      ensures server.state == Run(s0, steps)
      ensures token < |server.state.leases| && server.state.leases[token].Closed?
      ensures breaks.Never? || breaks.AtReply? ==>
        Deletes(old(server.state), server.state, token, w, g, x, expiryAborts, drops)
    {
      hide Run, Foreign, Apply;
      steps := Others(s0, sofar, w);
      ReleaseEffects(server.state, token, expiryAborts);
      if breaks.AtWatch? { steps := Do(s0, steps, ReleaseBreak(token)); return; }
      steps := Do(s0, steps, ReleaseWatch(token));
      steps := Others(s0, steps, g);
      ReleaseEffects(server.state, token, expiryAborts);
      if drops.beforeGet {
        steps := Do(s0, steps, ReleaseReconnect(token));
        ReleaseEffects(server.state, token, expiryAborts);
      }
      KeyEffects(server.state, token, expiryAborts);
      if breaks.AtGet? { steps := Do(s0, steps, ReleaseBreak(token)); return; }
      var holder := server.GetKey();
      steps := Do(s0, steps, ReleaseGet(token));
      if holder != Some(token) { return; }
      steps := DeleteOwned(s0, steps, x, expiryAborts, breaks, drops);
    }

    /** The transaction of a release, after the GET that saw the own token. */
    method DeleteOwned(ghost s0: State, ghost sofar: seq<Action>, x: seq<Action>, expiryAborts: bool, breaks: Break, drops: Drops)
      returns (ghost steps: seq<Action>)
      requires server.state == Run(s0, sofar) && Foreign(x, token)
      requires token < |server.state.leases| && server.state.leases[token].Held?
      requires server.state.leases[token].release.ReleaseOwn?
      modifies server
      ensures server.state == Run(s0, steps)
      ensures token < |server.state.leases| && server.state.leases[token].Closed?
      ensures !breaks.AtExec? ==>
        var watch := if drops.beforeExec then None else old(server.state.leases)[token].release.watch;
        var t := BeforeReleaseExec(old(server.state), token, x, drops);
        server.state.entry == if ExecRuns(t, watch, expiryAborts) && Live(t) then None else t.entry
    {
      hide Run, Foreign, Apply, ExecRuns;
      steps := Others(s0, sofar, x);
      ReleaseEffects(server.state, token, expiryAborts);
      if drops.beforeExec {
        steps := Do(s0, steps, ReleaseReconnect(token));
        ReleaseEffects(server.state, token, expiryAborts);
      }
      if breaks.AtExec? { steps := Do(s0, steps, ReleaseBreak(token)); return; }
      KeyEffects(server.state, token, expiryAborts);
      steps := Do(s0, steps, ReleaseExec(token, expiryAborts));
    }

    /** One own step. */
    method Do(ghost s0: State, ghost steps: seq<Action>, a: Action) returns (ghost more: seq<Action>)
      requires server.state == Run(s0, steps)
      modifies server
      ensures server.state == Apply(old(server.state), a) == Run(s0, more)
    {
      RunAppend(s0, steps, [a]);
      RunOne(server.state, a);
      more := steps + [a];
      server.state := Apply(server.state, a);
    }

    /** Steps of others. */
    method Others(ghost s0: State, ghost steps: seq<Action>, others: seq<Action>) returns (ghost more: seq<Action>)
      requires server.state == Run(s0, steps) && token < |server.state.leases| && Foreign(others, token)
      modifies server
      ensures server.state == Run(old(server.state), others) == Run(s0, more)
      ensures token < |server.state.leases| && server.state.leases[token] == old(server.state.leases)[token]
    {
      RunAppend(s0, steps, others);
      more := steps + others;
      server.Pass(others, token);
    }
  }

  // ---------- undisturbed commands ----------

  /** The step does not write a live key. */
  predicate Meek(a: Action) { !a.Exec? && !a.ReleaseExec? && !a.LateExec? }

  lemma {:induction false} MeekRun(s: State, actions: seq<Action>)
    requires forall a | a in actions :: Meek(a)
    ensures s.now <= Run(s, actions).now
    ensures s.entry.Some? && Run(s, actions).now < s.entry.value.expiresAt ==>
      Run(s, actions).entry == s.entry && Run(s, actions).version == s.version
    decreases |actions|
  {
    if actions != [] {
      assert actions[0] in actions && forall a | a in actions[1..] :: a in actions;
      MeekRun(Apply(s, actions[0]), actions[1..]);
    }
  }

  lemma ReadsKeepKey(s: State, i: nat)
    ensures SameKey(s, Apply(s, Lease.Watch(i))) && SameKey(s, Apply(s, Lease.Get(i)))
    ensures SameKey(s, Apply(s, ReleaseWatch(i))) && SameKey(s, Apply(s, ReleaseGet(i)))
    ensures SameKey(s, Apply(s, BeginRelease(i))) && SameKey(s, Apply(s, Call))
  {
  }

  /** While no EXEC comes in between and the key does not run out, a renewal meets it as it was. */
  lemma UndisturbedRenewal(s: State, i: nat, w: seq<Action>, g: seq<Action>, x: seq<Action>)
    requires (forall a | a in w :: Meek(a)) && (forall a | a in g :: Meek(a)) && (forall a | a in x :: Meek(a))
    requires s.entry.Some? && s.entry.value.token == i
    ensures var seen := BeforeGet(s, i, w, g, NoDrops);
      var t := BeforeExec(Apply(seen, Lease.Get(i)), i, x, NoDrops);
      t.now < s.entry.value.expiresAt ==> OwnedBy(seen, i) && OwnedBy(t, i) && t.version == Run(s, w).version
  {
    hide Run, Meek, Apply;
    MeekRun(s, w);
    ReadsKeepKey(Run(s, w), i);
    MeekRun(Apply(Run(s, w), Lease.Watch(i)), g);
    var seen := BeforeGet(s, i, w, g, NoDrops);
    ReadsKeepKey(seen, i);
    MeekRun(Apply(seen, Lease.Get(i)), x);
  }

  /** So does a release. */
  lemma UndisturbedRelease(s: State, i: nat, w: seq<Action>, g: seq<Action>, x: seq<Action>)
    requires (forall a | a in w :: Meek(a)) && (forall a | a in g :: Meek(a)) && (forall a | a in x :: Meek(a))
    requires s.entry.Some? && s.entry.value.token == i
    ensures var seen := BeforeReleaseGet(s, i, w, g, NoDrops);
      var t := BeforeReleaseExec(Apply(seen, ReleaseGet(i)), i, x, NoDrops);
      t.now < s.entry.value.expiresAt ==> OwnedBy(seen, i) && OwnedBy(t, i) && t.version == Run(s, w).version
  {
    hide Run, Meek, Apply;
    MeekRun(s, w);
    ReadsKeepKey(Run(s, w), i);
    MeekRun(Apply(Run(s, w), ReleaseWatch(i)), g);
    var seen := BeforeReleaseGet(s, i, w, g, NoDrops);
    ReadsKeepKey(seen, i);
    MeekRun(Apply(seen, ReleaseGet(i)), x);
  }

  /**
   A lease that still holds its key is renewed for the full time when no command breaks, no
   connection is replaced and no one else's EXEC comes in between.
   */
  method RenewUndisturbed(lease: ReconciliationLease, w: seq<Action>, g: seq<Action>, x: seq<Action>, expiryAborts: bool)
    returns (renewed: bool)
    requires lease.Valid() && lease.renewing && lease.server.state.leases[lease.token].renewal.Begun?
    requires Foreign(w, lease.token) && Foreign(g, lease.token) && Foreign(x, lease.token)
    requires (forall a | a in w :: Meek(a)) && (forall a | a in g :: Meek(a)) && (forall a | a in x :: Meek(a))
    requires var e := lease.server.state.entry; e.Some? && e.value.token == lease.token
    modifies lease.server
    ensures var before := BeforeGet(old(lease.server.state), lease.token, w, g, NoDrops);
      var t := BeforeExec(Apply(before, Lease.Get(lease.token)), lease.token, x, NoDrops);
      t.now < old(lease.server.state.entry.value.expiresAt) ==>
        renewed && lease.server.state.entry == Some(Entry(lease.token, t.now + 55_000))
  {
    UndisturbedRenewal(lease.server.state, lease.token, w, g, x);
    hide Run, Foreign, Apply, BeforeGet, BeforeExec;
    ghost var steps;
    renewed, steps := lease.RenewOwned(w, g, x, expiryAborts, Never, NoDrops);
  }

  /** Nothing disturbs the release: the renewal ends, no EXEC comes in between, and the key lasts until its own. */
  ghost predicate Undisturbed(lease: ReconciliationLease, pending: seq<Action>, w: seq<Action>, g: seq<Action>, x: seq<Action>)
    requires lease.Valid()
    reads lease, lease.server
  {
    var i := lease.token;
    var idle := Run(Apply(lease.server.state, BeginRelease(i)), pending);
    && ForeignOrRenewal(pending, i) && lease.Settles(pending) && Foreign(w, i) && Foreign(g, i) && Foreign(x, i)
    && (forall a | a in w :: Meek(a)) && (forall a | a in g :: Meek(a)) && (forall a | a in x :: Meek(a))
    && idle.entry.Some? && idle.entry.value.token == i
    && BeforeReleaseExec(Apply(BeforeReleaseGet(idle, i, w, g, NoDrops), ReleaseGet(i)), i, x, NoDrops).now
       < idle.entry.value.expiresAt
  }

  /** A release that nothing disturbs deletes the key. */
  method ReleaseUndisturbed(lease: ReconciliationLease, pending: seq<Action>, w: seq<Action>, g: seq<Action>, x: seq<Action>,
                            expiryAborts: bool)
    requires lease.Valid() && lease.timerOn && Undisturbed(lease, pending, w, g, x)
    modifies lease, lease.server
    ensures lease.server.state.entry == None
  {
    UndisturbedRelease(Run(Apply(lease.server.state, BeginRelease(lease.token)), pending), lease.token, w, g, x);
    hide Run, Foreign, Apply, ForeignOrRenewal, BeforeReleaseGet, BeforeReleaseExec, Meek;
    ghost var steps := lease.Release(pending, w, g, x, expiryAborts, Never, NoDrops);
  }

  /** It frees the lock: the next caller, however much later it asks, holds it for the full time. */
  method HandOver(lease: ReconciliationLease, pending: seq<Action>, w: seq<Action>, g: seq<Action>, x: seq<Action>,
                  wait: nat, expiryAborts: bool)
    returns (next: Option<ReconciliationLease>)
    requires lease.Valid() && lease.timerOn && Undisturbed(lease, pending, w, g, x)
    modifies lease, lease.server
    ensures next.Some?
    ensures lease.server.state.entry == Some(Entry(next.value.token, lease.server.state.now + 55_000))
  {
    hide Run, Foreign, Apply, Undisturbed;
    ReleaseUndisturbed(lease, pending, w, g, x, expiryAborts);
    WaitKeepsKey(lease.server.state, wait);
    ghost var steps;
    next, steps := Acquire(lease.server, [Advance(wait)], [], Answered);
  }

  /** The caller's request and the passing of time leave a deleted key deleted. */
  lemma WaitKeepsKey(s: State, wait: nat)
    ensures Run(Apply(s, Call), [Advance(wait)]).entry == s.entry
    ensures Foreign([Advance(wait)], |s.leases|) && Foreign([], |s.leases|)
    ensures forall t: State :: Run(t, []) == t
  {
    RunOne(Apply(s, Call), Advance(wait));
  }
}
