/**
 When a retrieval can return a licence key, decided from the key's row and the calls in flight.

 A return needs the used flag cleared and a retrieval past its read. Both are conditions on the
 current state; neither can come back once it is gone, and while both hold a run that ends in a
 return is constructed step by step.
 It also says which tokens a retrieval can read with, over every run.
 */
module LicenseReturns {
  import opened Wrappers
  import opened License

  /** Does some continuation return key `k`? */
  ghost predicate CanReturn(s: State, k: nat) {
    exists actions :: Returns(s, actions, k)
  }

  ghost predicate Returns(s: State, actions: seq<Action>, k: nat) {
    exists m :: |s.log| <= m < |Run(s, actions).log| && Run(s, actions).log[m].KeyReturned? && Run(s, actions).log[m].k == k
  }

  /** The issuer is about to take the delivery of `k` back to a status other than delivered, or to retry it. */
  predicate Unsettles(pc: IssuerPc, k: nat) {
    match pc
    case SigningNew(j) => j == k
    case MarkingNew(j) => j == k
    case Sending(j) => j == k
    case MarkingFailed(j) => j == k
    case RetrySigning(j) => j == k
    case RetrySending(j) => j == k
    case RetryMarkingSent(j) => j == k
    case _ => false
  }

  /** The used flag of `k` is clear, or a delivery retry may still clear it. */
  predicate Clearable(s: State, k: nat)
    requires k < |s.keys| && k < |s.licences|
  {
    || !s.keys[k].used
    || (exists p :: p in s.issuers && p.pc == RetryMarking(k))
    || (!s.licences[k].revoked && (s.keys[k].status != Delivered || exists p :: p in s.issuers && Unsettles(p.pc, k)))
  }

  /** A retrieval has read the key and can get past the signature. */
  predicate ReadsPast(pc: RetrieverPc, k: nat, revoked: bool) {
    || (pc.Consuming? && pc.k == k)
    || (pc.Reading? && pc.k == k && (pc.unsigned ==> !revoked))
  }

  /** A retrieval holds the key, or one that starts now can still read it. */
  predicate Readable(s: State, k: nat)
    requires k < |s.keys| && k < |s.licences|
  {
    || (exists p :: p in s.retrievers && ReadsPast(p.pc, k, s.licences[k].revoked))
    || (s.keys[k].rawKey.Some? && (s.licences[k].signed || !s.licences[k].revoked))
  }

  // ---------- what is gone stays gone ----------

  predicate HasRow(s: State, k: nat) {
    |s.licences| == |s.keys| && k < |s.keys| && forall j | 0 <= j < |s.keys| :: s.keys[j].licence == j
  }

  lemma InvHasRow(s: State, k: nat)
    requires Inv(s) && k < |s.keys|
    ensures HasRow(s, k)
  {
  }

  predicate Calm(pc: IssuerPc, k: nat, revoked: bool) {
    pc != RetryMarking(k) && (Unsettles(pc, k) ==> revoked)
  }

  /** The row of `k` is used, and its delivery is over or cannot be retried. */
  predicate Spent(s: State, k: nat)
    requires k < |s.keys| && k < |s.licences|
  {
    s.keys[k].used && (s.licences[k].revoked || s.keys[k].status.Delivered?)
  }

  lemma UnclearableMeans(s: State, k: nat)
    requires k < |s.keys| && k < |s.licences|
    ensures !Clearable(s, k) <==> Spent(s, k) && forall p | p in s.issuers :: Calm(p.pc, k, s.licences[k].revoked)
  {
  }

  /** What one issuer's step leaves of a spent row. */
  lemma IssuerStepIsCalm(s: State, i: nat, o: Outcome, k: nat)
    requires HasRow(s, k) && Spent(s, k) && i < |s.issuers| && Calm(s.issuers[i].pc, k, s.licences[k].revoked)
    ensures var t := StepIssuer(s, i, o);
      && k < |t.keys| && k < |t.licences| && Spent(t, k) && t.licences[k].revoked == s.licences[k].revoked
      && |t.issuers| == |s.issuers| && t.issuers == s.issuers[i := t.issuers[i]]
      && Calm(t.issuers[i].pc, k, s.licences[k].revoked)
  {
    var pc := s.issuers[i].pc;
    if IsRetryPath(pc) { RetryIsCalm(s, i, o, k); }
    else if IsNewPath(pc) { DeliveryIsCalm(s, i, o, k); }
  }

  lemma RetryIsCalm(s: State, i: nat, o: Outcome, k: nat)
    requires HasRow(s, k) && Spent(s, k) && i < |s.issuers| && Calm(s.issuers[i].pc, k, s.licences[k].revoked)
    requires IsRetryPath(s.issuers[i].pc)
    ensures var t := StepIssuer(s, i, o);
      && k < |t.keys| && k < |t.licences| && Spent(t, k) && t.licences[k].revoked == s.licences[k].revoked
      && |t.issuers| == |s.issuers| && t.issuers == s.issuers[i := t.issuers[i]]
      && Calm(t.issuers[i].pc, k, s.licences[k].revoked)
  {
    hide FindOrder;
  }

  lemma DeliveryIsCalm(s: State, i: nat, o: Outcome, k: nat)
    requires HasRow(s, k) && Spent(s, k) && i < |s.issuers| && Calm(s.issuers[i].pc, k, s.licences[k].revoked)
    requires IsNewPath(s.issuers[i].pc)
    ensures var t := StepIssuer(s, i, o);
      && k < |t.keys| && k < |t.licences| && Spent(t, k) && t.licences[k].revoked == s.licences[k].revoked
      && |t.issuers| == |s.issuers| && t.issuers == s.issuers[i := t.issuers[i]]
      && Calm(t.issuers[i].pc, k, s.licences[k].revoked)
  {
    hide FindOrder;
  }

  /** Steps other than an issuer's leave the issuers alone, or add one. */
  lemma OtherStepIsCalm(s: State, a: Action, k: nat)
    requires HasRow(s, k) && Spent(s, k) && !a.IssuerStep?
    ensures var t := Apply(s, a);
      && k < |t.keys| && k < |t.licences| && Spent(t, k) && (s.licences[k].revoked ==> t.licences[k].revoked)
      && (t.issuers == s.issuers || (a.Issue? && t.issuers == s.issuers + [Issuer(a.order, Creating)]))
  {
  }

  lemma StaysUnclearable(s: State, a: Action, k: nat)
    requires HasRow(s, k) && !Clearable(s, k)
    ensures k < |Apply(s, a).keys| && k < |Apply(s, a).licences| && !Clearable(Apply(s, a), k)
  {
    UnclearableMeans(s, k);
    if a.IssuerStep? && a.i < |s.issuers| {
      IssuerStepIsCalm(s, a.i, a.outcome, k);
    } else if !a.IssuerStep? {
      OtherStepIsCalm(s, a, k);
    }
    var t := Apply(s, a);
    UnclearableMeans(t, k);
    hide StepIssuer, StepRetriever, Apply, Spent, Clearable;
  }

  /** Progress on the delivery of `k` that leaves the retrievals and the key alone. */
  predicate Kept(s: State, t: State, k: nat) { Inv(t) && SameRow(s, t, k) }

  predicate SameRow(s: State, t: State, k: nat) {
    && k < |s.keys| && k < |s.licences| && k < |t.keys| && k < |t.licences|
    && t.retrievers == s.retrievers && s.log <= t.log
    && t.keys[k].order == s.keys[k].order && t.keys[k].rawKey == s.keys[k].rawKey
    && t.licences[k].revoked == s.licences[k].revoked && (s.licences[k].signed ==> t.licences[k].signed)
  }

  /** An issuer's step keeps a row's key, and signs only a licence that is not revoked. */
  lemma IssuerStepRow(s: State, i: nat, o: Outcome, k: nat)
    requires HasRow(s, k) && i < |s.issuers|
    ensures SameRow(s, StepIssuer(s, i, o), k)
    ensures StepIssuer(s, i, o).licences[k].signed ==> s.licences[k].signed || !s.licences[k].revoked
  {
    var pc := s.issuers[i].pc;
    if pc.Creating? {
      CreatingRow(s, i, o, k);
    } else if IsRetryPath(pc) {
      RetryRow(s, i, o, k);
    } else {
      hide FindOrder;
    }
  }

  lemma CreatingRow(s: State, i: nat, o: Outcome, k: nat)
    requires HasRow(s, k) && i < |s.issuers| && s.issuers[i].pc.Creating?
    ensures SameRow(s, StepIssuer(s, i, o), k) && StepIssuer(s, i, o).licences[k] == s.licences[k]
  {
  }

  lemma RetryRow(s: State, i: nat, o: Outcome, k: nat)
    requires HasRow(s, k) && i < |s.issuers| && IsRetryPath(s.issuers[i].pc)
    ensures SameRow(s, StepIssuer(s, i, o), k)
    ensures StepIssuer(s, i, o).licences[k].signed ==> s.licences[k].signed || !s.licences[k].revoked
  {
    hide FindOrder;
  }

  /** No retrieval that starts now can read the key and get past the signature. */
  predicate Shut(s: State, k: nat)
    requires k < |s.keys| && k < |s.licences|
  {
    s.keys[k].rawKey.None? || (!s.licences[k].signed && s.licences[k].revoked)
  }

  lemma UnreadableMeans(s: State, k: nat)
    requires k < |s.keys| && k < |s.licences|
    ensures !Readable(s, k) <==> Shut(s, k) && forall p | p in s.retrievers :: !ReadsPast(p.pc, k, s.licences[k].revoked)
  {
  }

  lemma RetrieverStepStaysShut(s: State, r: nat, o: Outcome, expired: bool, k: nat)
    requires HasRow(s, k) && Shut(s, k) && r < |s.retrievers|
    requires !ReadsPast(s.retrievers[r].pc, k, s.licences[k].revoked)
    ensures var t := StepRetriever(s, r, o, expired);
      && k < |t.keys| && k < |t.licences| && Shut(t, k) && t.licences[k].revoked == s.licences[k].revoked
      && |t.retrievers| == |s.retrievers| && t.retrievers == s.retrievers[r := t.retrievers[r]]
      && !ReadsPast(t.retrievers[r].pc, k, s.licences[k].revoked)
  {
  }

  lemma IssuerStepStaysShut(s: State, i: nat, o: Outcome, k: nat)
    requires HasRow(s, k) && Shut(s, k) && i < |s.issuers|
    ensures var t := StepIssuer(s, i, o);
      && k < |t.keys| && k < |t.licences| && Shut(t, k) && t.licences[k].revoked == s.licences[k].revoked
      && t.retrievers == s.retrievers
  {
    IssuerStepRow(s, i, o, k);
    hide StepIssuer, HasRow;
  }

  lemma OtherStepStaysShut(s: State, a: Action, k: nat)
    requires HasRow(s, k) && Shut(s, k) && !a.RetrieverStep?
    ensures var t := Apply(s, a);
      && k < |t.keys| && k < |t.licences| && Shut(t, k) && (s.licences[k].revoked ==> t.licences[k].revoked)
      && (t.retrievers == s.retrievers || (a.Present? && t.retrievers == s.retrievers + [Retriever(a.token, Presenting)]))
  {
    if a.IssuerStep? && a.i < |s.issuers| {
      hide StepIssuer, HasRow, Shut;
      IssuerStepStaysShut(s, a.i, a.outcome, k);
    }
  }

  lemma StaysUnreadable(s: State, a: Action, k: nat)
    requires HasRow(s, k) && !Readable(s, k)
    ensures k < |Apply(s, a).keys| && k < |Apply(s, a).licences| && !Readable(Apply(s, a), k)
  {
    UnreadableMeans(s, k);
    if a.RetrieverStep? && a.r < |s.retrievers| {
      RetrieverStepStaysShut(s, a.r, a.outcome, a.expired, k);
    } else if !a.RetrieverStep? {
      OtherStepStaysShut(s, a, k);
    }
    var t := Apply(s, a);
    UnreadableMeans(t, k);
    hide StepIssuer, StepRetriever, Apply, Shut, Readable;
  }

  /** The log only grows, and a return needs a cleared flag and a retrieval past its read. */
  lemma StepReturns(s: State, a: Action, k: nat)
    requires HasRow(s, k)
    ensures s.log <= Apply(s, a).log
    ensures forall m | |s.log| <= m < |Apply(s, a).log| && Apply(s, a).log[m].KeyReturned? && Apply(s, a).log[m].k == k ::
      Clearable(s, k) && Readable(s, k)
  {
    if a.RetrieverStep? && a.r < |s.retrievers| { assert s.retrievers[a.r] in s.retrievers; }
  }

  lemma {:induction false} NeverReturns(s: State, actions: seq<Action>, k: nat)
    requires Inv(s) && k < |s.keys| && !(Clearable(s, k) && Readable(s, k))
    ensures s.log <= Run(s, actions).log && !Returns(s, actions, k)
    decreases |actions|
  {
    if actions != [] {
      var t := Apply(s, actions[0]);
      StepKeepsInv(s, actions[0]);
      InvHasRow(s, k);
      StepReturns(s, actions[0], k);
      hide Inv, HasRow, Clearable, Readable, Apply;
      if !Clearable(s, k) { StaysUnclearable(s, actions[0], k); } else { StaysUnreadable(s, actions[0], k); }
      NeverReturns(t, actions[1..], k);
      forall m | |s.log| <= m < |Run(s, actions).log| && Run(s, actions).log[m].KeyReturned?
        ensures Run(s, actions).log[m].k != k
      {
        if m < |t.log| { assert Run(s, actions).log[m] == t.log[m]; }
      }
    }
  }

  // ---------- what is still there leads to a return ----------

  predicate Cleared(s: State, t: State, k: nat) {
    Kept(s, t, k) && !t.keys[k].used
  }

  lemma IssuerStepKept(s: State, i: nat, o: Outcome, k: nat)
    requires Inv(s) && HasRow(s, k) && i < |s.issuers|
    ensures Kept(s, Apply(s, IssuerStep(i, o)), k)
  {
    hide Inv, SameRow;
    StepKeepsInv(s, IssuerStep(i, o));
    IssuerStepRow(s, i, o, k);
  }

  lemma Prepend(s: State, a: Action, rest: seq<Action>, k: nat)
    requires Kept(s, Apply(s, a), k) && Cleared(Apply(s, a), Run(Apply(s, a), rest), k)
    ensures Cleared(s, Run(s, [a] + rest), k)
  {
    assert ([a] + rest)[1..] == rest;
    hide Inv, Apply;
  }

  /** An issuer in the delivery retry resets the token. */
  lemma RetryClears(s: State, k: nat, i: nat) returns (actions: seq<Action>)
    requires Inv(s) && k < |s.keys| && i < |s.issuers|
    requires s.issuers[i].pc == RetryMarking(k) || (s.issuers[i].pc == RetrySigning(k) && !s.licences[k].revoked)
    ensures Cleared(s, Run(s, actions), k)
    decreases s.issuers[i].pc.RetrySigning?
  {
    InvHasRow(s, k);
    IssuerStepKept(s, i, Success, k);
    var t := Apply(s, IssuerStep(i, Success));
    hide Inv;
    actions := [];
    if s.issuers[i].pc.RetrySigning? { actions := RetryClears(t, k, i); }
    hide Apply;
    Prepend(s, IssuerStep(i, Success), actions, k);
    actions := [IssuerStep(i, Success)] + actions;
  }

  /** A new issue of the order finds the row not delivered and retries. */
  lemma NewIssuerRetries(s: State, k: nat) returns (actions: seq<Action>)
    requires Inv(s) && k < |s.keys| && k < |s.licences| && !s.licences[k].revoked && s.keys[k].status != Delivered
    ensures Cleared(s, Run(s, actions), k)
  {
    var i, order := |s.issuers|, s.keys[k].order;
    InvHasRow(s, k);
    RowIsFound(s, k);
    StepKeepsInv(s, Issue(order));
    var t0 := Apply(s, Issue(order));
    hide Inv;
    IssuerStepKept(t0, i, Success, k);
    var t1 := Apply(t0, IssuerStep(i, Success));
    IssuerStepKept(t1, i, Success, k);
    var t2 := Apply(t1, IssuerStep(i, Success));
    actions := RetryClears(t2, k, i);
    hide Apply;
    Prepend(t1, IssuerStep(i, Success), actions, k);
    Prepend(t0, IssuerStep(i, Success), [IssuerStep(i, Success)] + actions, k);
    Prepend(s, Issue(order), [IssuerStep(i, Success)] + ([IssuerStep(i, Success)] + actions), k);
    actions := [Issue(order)] + ([IssuerStep(i, Success)] + ([IssuerStep(i, Success)] + actions));
  }

  lemma RowIsFound(s: State, k: nat)
    requires RowsOk(s) && k < |s.keys|
    ensures FindOrder(s.keys, s.keys[k].order) == Some(k)
    ensures FindToken(s.keys, s.keys[k].token) == Some(k)
  {
    hide FindOrder, FindToken;
  }

  /** How many steps an unsettling issuer takes until the row is not delivered, or a retry is under way. */
  function Steps(pc: IssuerPc): nat {
    if pc.SigningNew? || pc.Sending? || pc.RetrySending? || pc.RetryMarkingSent? then 2 else 1
  }

  /** The outcome that takes the issuer away from a delivered row. */
  function Unsettling(pc: IssuerPc): Outcome {
    if pc.Sending? || pc.RetrySending? || pc.RetryMarkingSent? then Failure else Success
  }

  lemma UnsettlingStep(s: State, k: nat, i: nat)
    requires HasRow(s, k) && i < |s.issuers| && !s.licences[k].revoked
    requires Unsettles(s.issuers[i].pc, k) && !s.issuers[i].pc.RetrySigning?
    ensures var pc, t := s.issuers[i].pc, StepIssuer(s, i, Unsettling(s.issuers[i].pc));
      && |t.issuers| == |s.issuers| && k < |t.keys|
      && (Steps(pc) == 1 ==> t.keys[k].status != Delivered)
      && (Steps(pc) == 2 ==> Unsettles(t.issuers[i].pc, k) && Steps(t.issuers[i].pc) == 1 && !t.issuers[i].pc.RetrySigning?)
  {
  }

  lemma UnsettledClears(s: State, k: nat, i: nat) returns (actions: seq<Action>)
    requires Inv(s) && k < |s.keys| && k < |s.licences| && i < |s.issuers| && !s.licences[k].revoked
    requires Unsettles(s.issuers[i].pc, k)
    ensures Cleared(s, Run(s, actions), k)
    decreases Steps(s.issuers[i].pc)
  {
    InvHasRow(s, k);
    hide Inv;
    var pc := s.issuers[i].pc;
    if pc.RetrySigning? { actions := RetryClears(s, k, i); return; }
    var o := Unsettling(pc);
    IssuerStepKept(s, i, o, k);
    UnsettlingStep(s, k, i);
    var t := Apply(s, IssuerStep(i, o));
    assert t == StepIssuer(s, i, o);
    hide Apply, StepIssuer, Unsettles;
    if Steps(pc) == 1 { actions := NewIssuerRetries(t, k); } else { actions := UnsettledClears(t, k, i); }
    Prepend(s, IssuerStep(i, o), actions, k);
    actions := [IssuerStep(i, o)] + actions;
  }

  lemma Clears(s: State, k: nat) returns (actions: seq<Action>)
    requires Inv(s) && k < |s.keys| && k < |s.licences| && Clearable(s, k)
    ensures Cleared(s, Run(s, actions), k)
  {
    if !s.keys[k].used { return []; }
    hide Inv;
    if i: nat :| i < |s.issuers| && s.issuers[i].pc == RetryMarking(k) {
      actions := RetryClears(s, k, i);
    } else if s.keys[k].status != Delivered {
      actions := NewIssuerRetries(s, k);
    } else {
      var i: nat :| i < |s.issuers| && Unsettles(s.issuers[i].pc, k);
      actions := UnsettledClears(s, k, i);
    }
  }

  /** A retrieval past its read returns the key once the flag is clear. */
  lemma ReaderReturns(s: State, k: nat, r: nat) returns (actions: seq<Action>)
    requires HasRow(s, k) && !s.keys[k].used && r < |s.retrievers|
    requires ReadsPast(s.retrievers[r].pc, k, s.licences[k].revoked)
    ensures Returns(s, actions, k)
    decreases s.retrievers[r].pc.Reading?
  {
    var a := RetrieverStep(r, Success, false);
    var t := Apply(s, a);
    if s.retrievers[r].pc.Consuming? {
      actions := [a];
      assert [a][1..] == [] && Run(t, []) == t;
      assert Run(s, actions).log[|s.log|] == KeyReturned(k, r);
    } else {
      actions := ReaderReturns(t, k, r);
      ReturnsLater(s, a, actions, k);
      actions := [a] + actions;
    }
  }

  lemma ReturnsLater(s: State, a: Action, rest: seq<Action>, k: nat)
    requires s.log <= Apply(s, a).log && Returns(Apply(s, a), rest, k)
    ensures Returns(s, [a] + rest, k)
  {
    assert ([a] + rest)[1..] == rest;
    var t := Apply(s, a);
    var m :| |t.log| <= m < |Run(t, rest).log| && Run(t, rest).log[m].KeyReturned? && Run(t, rest).log[m].k == k;
    assert Run(s, [a] + rest).log[m].k == k;
    hide Apply;
  }

  /** A retrieval that starts with the row's token reads the key while it is there. */
  lemma NewReaderReturns(s: State, k: nat) returns (actions: seq<Action>)
    requires Inv(s) && k < |s.keys| && k < |s.licences| && !s.keys[k].used
    requires s.keys[k].rawKey.Some? && (s.licences[k].signed || !s.licences[k].revoked)
    ensures Returns(s, actions, k)
  {
    var r, token := |s.retrievers|, s.keys[k].token;
    InvHasRow(s, k);
    RowIsFound(s, k);
    hide Inv;
    var t := Apply(s, Present(token));
    var u := Apply(t, RetrieverStep(r, Success, false));
    actions := ReaderReturns(u, k, r);
    hide Returns;
    ReturnsLater(t, RetrieverStep(r, Success, false), actions, k);
    ReturnsLater(s, Present(token), [RetrieverStep(r, Success, false)] + actions, k);
    actions := [Present(token)] + ([RetrieverStep(r, Success, false)] + actions);
  }

  lemma {:induction false} RunAppend(s: State, a: seq<Action>, b: seq<Action>)
    ensures Run(s, a + b) == Run(Run(s, a), b)
    decreases |a|
  {
    hide Apply;
    if a == [] {
      assert a + b == b;
    } else {
      assert (a + b)[1..] == a[1..] + b;
      RunAppend(Apply(s, a[0]), a[1..], b);
    }
  }

  lemma ReturnsInTheEnd(s: State, k: nat) returns (actions: seq<Action>)
    requires Inv(s) && k < |s.keys| && k < |s.licences| && Clearable(s, k) && Readable(s, k)
    ensures Returns(s, actions, k)
  {
    var first := Clears(s, k);
    var t := Run(s, first);
    assert Kept(s, t, k);
    hide Run, Clearable;
    InvHasRow(t, k);
    var second: seq<Action>;
    if r: nat :| r < |s.retrievers| && ReadsPast(s.retrievers[r].pc, k, s.licences[k].revoked) {
      second := ReaderReturns(t, k, r);
    } else {
      second := NewReaderReturns(t, k);
    }
    RunAppend(s, first, second);
    actions := first + second;
  }

  // ---------- the exact conditions ----------

  /**
   In every state that the invariant describes, some continuation returns the key exactly when the
   used flag is clear or may still be cleared, and a retrieval holds the key or may still read it.
   */
  lemma ReturnableExactly(s: State, k: nat)
    requires Inv(s) && k < |s.keys|
    ensures k < |s.licences| && (CanReturn(s, k) <==> Clearable(s, k) && Readable(s, k))
  {
    InvHasRow(s, k);
    hide Clearable, Readable, Returns, Inv;
    if Clearable(s, k) && Readable(s, k) {
      var actions := ReturnsInTheEnd(s, k);
    } else {
      forall actions ensures !Returns(s, actions, k) { NeverReturns(s, actions, k); }
    }
  }

  /** A key that was returned is returned again exactly when the flag can be cleared and a retrieval holds the key. */
  lemma ReturnedAgainExactly(actions: seq<Action>, k: nat)
    requires EverReturned(Run(Initial, actions).log, k)
    ensures var s := Run(Initial, actions);
      && k < |s.keys| && k < |s.licences|
      && (CanReturn(s, k) <==>
            Clearable(s, k) && exists p :: p in s.retrievers && ReadsPast(p.pc, k, s.licences[k].revoked))
  {
    RunKeepsInv(Initial, actions);
    var s := Run(Initial, actions);
    ReturnedRowIsEmpty(s, k);
    ReturnableExactly(s, k);
    hide Clearable, CanReturn, Inv, Run, ReadsPast;
  }

  lemma ReturnedRowIsEmpty(s: State, k: nat)
    requires Inv(s) && EverReturned(s.log, k)
    ensures k < |s.keys| && k < |s.licences| && s.keys[k].rawKey.None?
  {
  }

  /**
   Once a key was returned, its licence delivered and every call of its order over, no continuation
   returns it again, whatever is issued and presented later.
   */
  lemma SettledKeyIsReturnedOnce(actions: seq<Action>, k: nat)
    requires var s := Run(Initial, actions);
      && k < |s.keys| && s.keys[k].used && s.keys[k].status.Delivered?
      && forall p | p in s.issuers && p.order == s.keys[k].order :: p.pc.Returned? || p.pc.Thrown?
    ensures !CanReturn(Run(Initial, actions), k)
  {
    RunKeepsInv(Initial, actions);
    var s := Run(Initial, actions);
    ReturnableExactly(s, k);
    SettledIsUnclearable(s, k);
  }

  lemma SettledIsUnclearable(s: State, k: nat)
    requires Inv(s) && k < |s.keys| && k < |s.licences| && s.keys[k].used && s.keys[k].status.Delivered?
    requires forall p | p in s.issuers && p.order == s.keys[k].order :: p.pc.Returned? || p.pc.Thrown?
    ensures !Clearable(s, k)
  {
    assert forall p | p in s.issuers :: IssuerOk(s, p);
    hide Inv;
  }

  // ---------- presenting a token ----------

  /** The row that the presented token opens. */
  predicate Opens(s: State, k: nat, token: nat, expired: bool) {
    k < |s.keys| && s.keys[k].token == token && !s.keys[k].used && s.keys[k].rawKey.Some? && !expired
  }

  /**
   A presented token is read exactly when it is the current token of a row, not used and not
   expired, and the row's key is still stored; every other is refused and leaves no trace.
   */
  lemma TokenIsReadExactly(s: State, r: nat, o: Outcome, expired: bool)
    requires Inv(s) && r < |s.retrievers| && s.retrievers[r].pc.Presenting?
    ensures var t, token := Apply(s, RetrieverStep(r, o, expired)), s.retrievers[r].token;
      && t.keys == s.keys && t.licences == s.licences && |t.retrievers| == |s.retrievers|
      && (forall k: nat | Opens(s, k, token, expired) ::
            k < |s.licences| && t.retrievers[r].pc == Reading(k, s.keys[k].minted, !s.licences[k].signed)
            && t.log == s.log + [KeyRead(k, r)])
      && ((forall k: nat :: !Opens(s, k, token, expired)) ==> t.retrievers[r].pc == Refused && t.log == s.log)
  {
    forall k: nat | Opens(s, k, s.retrievers[r].token, expired) ensures FindToken(s.keys, s.retrievers[r].token) == Some(k) {
      RowIsFound(s, k);
    }
    InvRows(s);
    hide Inv, RowsOk, FindToken;
  }

  lemma InvRows(s: State)
    requires Inv(s)
    ensures |s.licences| == |s.keys|
    ensures forall k | 0 <= k < |s.keys| :: s.keys[k].licence == k
    ensures forall k | 0 <= k < |s.keys| && s.keys[k].rawKey.Some? :: s.keys[k].rawKey.value == s.keys[k].minted
  {
  }

  /** No event of the log is of this retrieval. */
  ghost predicate Traceless(s: State, r: nat) {
    forall e | e in s.log && !e.TokenReset? :: e.reader != r
  }

  /** A retrieval that has only presented its token has read and returned nothing. */
  ghost predicate PresentersAreTraceless(s: State) {
    forall e | e in s.log && !e.TokenReset? :: e.reader < |s.retrievers| && !s.retrievers[e.reader].pc.Presenting?
  }

  lemma StepKeepsPresenters(s: State, a: Action)
    requires PresentersAreTraceless(s)
    ensures PresentersAreTraceless(Apply(s, a))
  {
    if a.IssuerStep? && a.i < |s.issuers| { IssuerLeavesReaders(s, a.i, a.outcome); }
    hide StepIssuer;
  }

  lemma IssuerLeavesReaders(s: State, i: nat, o: Outcome)
    requires i < |s.issuers|
    ensures StepIssuer(s, i, o).retrievers == s.retrievers
    ensures forall e | e in StepIssuer(s, i, o).log && !e.TokenReset? :: e in s.log
  {
    hide FindOrder;
  }

  lemma {:induction false} RunKeepsPresenters(s: State, actions: seq<Action>)
    requires PresentersAreTraceless(s)
    ensures PresentersAreTraceless(Run(s, actions))
    decreases |actions|
  {
    if actions != [] {
      StepKeepsPresenters(s, actions[0]);
      hide Apply, PresentersAreTraceless;
      RunKeepsPresenters(Apply(s, actions[0]), actions[1..]);
    }
  }

  ghost predicate RefusedFor(s: State, r: nat) {
    r < |s.retrievers| && s.retrievers[r].pc == Refused && Traceless(s, r)
  }

  lemma StepStaysRefused(s: State, a: Action, r: nat)
    requires RefusedFor(s, r)
    ensures RefusedFor(Apply(s, a), r)
  {
    if a.IssuerStep? && a.i < |s.issuers| { IssuerLeavesReaders(s, a.i, a.outcome); }
    hide StepIssuer;
  }

  lemma {:induction false} RunStaysRefused(s: State, actions: seq<Action>, r: nat)
    requires RefusedFor(s, r)
    ensures RefusedFor(Run(s, actions), r)
    decreases |actions|
  {
    if actions != [] {
      StepStaysRefused(s, actions[0], r);
      hide Apply, RefusedFor;
      RunStaysRefused(Apply(s, actions[0]), actions[1..], r);
    }
  }

  /** A retrieval whose token has expired when it is looked up is refused for good and never reads or returns a key. */
  lemma ExpiredIsRefused(before: seq<Action>, r: nat, o: Outcome, after: seq<Action>)
    requires r < |Run(Initial, before).retrievers| && Run(Initial, before).retrievers[r].pc.Presenting?
    ensures RefusedFor(Run(Apply(Run(Initial, before), RetrieverStep(r, o, true)), after), r)
  {
    var s := Run(Initial, before);
    RunKeepsInv(Initial, before);
    RunKeepsPresenters(Initial, before);
    assert Traceless(s, r);
    TokenIsReadExactly(s, r, o, true);
    hide Inv, Run, Apply;
    RunStaysRefused(Apply(s, RetrieverStep(r, o, true)), after, r);
  }

  /** A delivery retry gives the row a token that no link had, so that earlier links open nothing. */
  lemma ResetReplacesToken(s: State, k: nat)
    requires Inv(s) && k < |s.keys|
    ensures var t := ResetToken(s, k);
      && (forall j: nat | j < |s.keys| :: t.keys[k].token != s.keys[j].token)
      && (forall expired, j: nat :: !Opens(t, j, s.keys[k].token, expired))
      && t.keys[k] == s.keys[k].(status := Delivering, token := t.keys[k].token, used := false)
  {
    hide LogOk, IssuerOk, RetrieverOk;
  }
}
