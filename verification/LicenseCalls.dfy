/**
 What one call does from its start to its end when nothing comes in between: a first issue, a
 repeated issue and a retrieval, with every step that can fail failing or not.
 */
module LicenseCalls {
  import opened Wrappers
  import opened License
  import opened LicenseReturns

  /** The steps of one issuer with the outcomes given; those after its end do nothing. */
  function Steps(i: nat, outcomes: seq<Outcome>): (r: seq<Action>)
    ensures |r| == |outcomes|
  {
    seq(|outcomes|, j requires 0 <= j < |outcomes| => IssuerStep(i, outcomes[j]))
  }

  /** An issue call alone. */
  function Issued(s: State, order: Order, outcomes: seq<Outcome>): State {
    Run(Apply(s, Issue(order)), Steps(|s.issuers|, outcomes))
  }

  lemma StepsUnfold(s: State, i: nat, outcomes: seq<Outcome>)
    requires outcomes != [] && i < |s.issuers|
    ensures Run(s, Steps(i, outcomes)) == Run(StepIssuer(s, i, outcomes[0]), Steps(i, outcomes[1..]))
  {
    assert Steps(i, outcomes)[1..] == Steps(i, outcomes[1..]);
    hide StepIssuer;
  }

  lemma IssuersStay(s: State, i: nat, o: Outcome)
    requires i < |s.issuers|
    ensures |StepIssuer(s, i, o).issuers| == |s.issuers|
  {
    hide FindOrder;
  }

  /** A call that has ended changes nothing more. */
  lemma {:induction false} EndedStays(s: State, i: nat, outcomes: seq<Outcome>)
    requires i < |s.issuers| && (s.issuers[i].pc.Thrown? || s.issuers[i].pc.Returned?)
    ensures Run(s, Steps(i, outcomes)) == s
    decreases |outcomes|
  {
    if outcomes != [] {
      StepsUnfold(s, i, outcomes);
      EndedStays(s, i, outcomes[1..]);
    }
  }

  // ---------- sending the link ----------

  /** The row and the call after the steps from the mail on. */
  lemma Sends(s: State, i: nat, k: nat, send: Outcome, note: Outcome)
    requires i < |s.issuers| && s.issuers[i].pc == Sending(k) && k < |s.keys|
    ensures var t, row := Run(s, Steps(i, [send, note])), s.keys[k];
      && t == (if note.Success? && send.Success?
               then SetIssuer(SetKey(s, k, row.(status := Delivered)), i, Returned(row.licence))
               else SetIssuer(if note.Success? then SetKey(s, k, row.(status := DeliveryFailed)) else s, i, Thrown))
  {
    StepsUnfold(s, i, [send, note]);
    var u := StepIssuer(s, i, send);
    assert [send, note][1..] == [note];
    StepsUnfold(u, i, [note]);
    EndedStays(StepIssuer(u, i, note), i, [note][1..]);
    assert u.issuers[i := u.issuers[i].(pc := Thrown)] == s.issuers[i := s.issuers[i].(pc := Thrown)];
    assert u.issuers[i := u.issuers[i].(pc := Returned(s.keys[k].licence))] == s.issuers[i := s.issuers[i].(pc := Returned(s.keys[k].licence))];
  }

  // ---------- a first issue ----------

  /** How far the delivery of a new licence got. */
  function FirstStatus(sign: Outcome, mark: Outcome, send: Outcome, note: Outcome): Status {
    if !sign.Success? || !mark.Success? then Minted
    else if !note.Success? then Delivering
    else if send.Success? then Delivered else DeliveryFailed
  }

  /**
   A first issue adds one licence and one row, with a new token and key. It returns the licence
   exactly when signing, marking, mailing and noting it all succeed; the row says how far it got.
   */
  lemma FirstIssue(s: State, order: Order, sign: Outcome, mark: Outcome, send: Outcome, note: Outcome)
    requires forall k | 0 <= k < |s.keys| :: s.keys[k].order != order
    ensures var t, i, id := Issued(s, order, [Success, sign, mark, send, note]), |s.issuers|, |s.licences|;
      var status := FirstStatus(sign, mark, send, note);
      && t.keys == s.keys + [KeyRow(order, id, status, s.unissued, false, Some(s.unissued + 1), s.unissued + 1)]
      && t.licences == s.licences + [Licence(sign.Success?, false)]
      && |t.issuers| == i + 1 && t.issuers[i].pc == (if status.Delivered? then Returned(id) else Thrown)
      && t.retrievers == s.retrievers && t.log == s.log
  {
    var s0, i := Apply(s, Issue(order)), |s.issuers|;
    StepsUnfold(s0, i, [Success, sign, mark, send, note]);
    var s1 := StepIssuer(s0, i, Success);
    assert [Success, sign, mark, send, note][1..] == [sign, mark, send, note];
    NewIsSigned(s1, i, |s.keys|, sign, mark, send, note);
  }

  lemma NewIsSigned(s: State, i: nat, k: nat, sign: Outcome, mark: Outcome, send: Outcome, note: Outcome)
    requires i < |s.issuers| && s.issuers[i].pc == SigningNew(k) && k < |s.keys|
    requires s.keys[k].licence < |s.licences| && !s.licences[s.keys[k].licence].revoked
    ensures var t, row := Run(s, Steps(i, [sign, mark, send, note])), s.keys[k];
      var status := FirstStatus(sign, mark, send, note);
      && t.keys == (if status.Minted? then s.keys else s.keys[k := row.(status := status)])
      && t.licences == (if sign.Success? then Sign(s, row.licence).licences else s.licences)
      && |t.issuers| == |s.issuers| && t.issuers[i].pc == (if status.Delivered? then Returned(row.licence) else Thrown)
      && t.retrievers == s.retrievers && t.log == s.log
  {
    StepsUnfold(s, i, [sign, mark, send, note]);
    assert [sign, mark, send, note][1..] == [mark, send, note];
    var s2 := StepIssuer(s, i, sign);
    if sign.Success? {
      hide StepIssuer, FirstStatus;
      NewIsMarked(s2, i, k, mark, send, note);
      SignedStatus(sign, mark, send, note);
    } else {
      EndedStays(s2, i, [mark, send, note]);
    }
  }

  lemma SignedStatus(sign: Outcome, mark: Outcome, send: Outcome, note: Outcome)
    requires sign.Success?
    ensures FirstStatus(sign, mark, send, note) == FirstStatus(Success, mark, send, note)
  {
  }

  lemma NewIsMarked(s: State, i: nat, k: nat, mark: Outcome, send: Outcome, note: Outcome)
    requires i < |s.issuers| && s.issuers[i].pc == MarkingNew(k) && k < |s.keys|
    ensures var t, row := Run(s, Steps(i, [mark, send, note])), s.keys[k];
      var status := FirstStatus(Success, mark, send, note);
      && t.keys == (if status.Minted? then s.keys else s.keys[k := row.(status := status)])
      && t.licences == s.licences
      && |t.issuers| == |s.issuers| && t.issuers[i].pc == (if status.Delivered? then Returned(row.licence) else Thrown)
      && t.retrievers == s.retrievers && t.log == s.log
  {
    StepsUnfold(s, i, [mark, send, note]);
    assert [mark, send, note][1..] == [send, note];
    var s1 := StepIssuer(s, i, mark);
    MarkStep(s, i, k, mark);
    hide StepIssuer;
    if mark.Success? { Sends(s1, i, k, send, note); } else { EndedStays(s1, i, [send, note]); }
  }

  lemma MarkStep(s: State, i: nat, k: nat, mark: Outcome)
    requires i < |s.issuers| && k < |s.keys|
    ensures s.issuers[i].pc == MarkingNew(k) ==>
      StepIssuer(s, i, mark) == if mark.Success? then SetIssuer(SetStatus(s, k, Delivering), i, Sending(k)) else SetIssuer(s, i, Thrown)
    ensures s.issuers[i].pc == RetryMarking(k) ==>
      StepIssuer(s, i, mark) == if mark.Success? then SetIssuer(ResetToken(s, k), i, RetrySending(k)) else SetIssuer(s, i, MarkingFailed(k))
  {
  }

  // ---------- a repeated issue ----------

  /** How far a delivery retry got; without its mark nothing was sent and the token is the old one. */
  function RetryStatus(was: Status, mark: Outcome, send: Outcome, note: Outcome, fail: Outcome): Status {
    if !mark.Success? then (if send.Success? then DeliveryFailed else was)
    else if send.Success? && note.Success? then Delivered
    else if (if send.Success? then fail else note).Success? then DeliveryFailed
    else Delivering
  }

  /**
   A repeated issue of a delivered order returns its licence and changes nothing. Otherwise it
   signs, replaces the token, clears the used flag and mails again, and returns the licence
   exactly when all of that succeeds; it stops at once when the licence cannot be signed.
   */
  lemma RepeatedIssue(s: State, k: nat, sign: Outcome, mark: Outcome, send: Outcome, note: Outcome, fail: Outcome)
    requires RowsOk(s) && k < |s.keys|
    ensures var t, i, row := Issued(s, s.keys[k].order, [Success, Success, sign, mark, send, note, fail]), |s.issuers|, s.keys[k];
      && |t.issuers| == i + 1 && t.retrievers == s.retrievers
      && if row.status.Delivered? then
           t.issuers[i].pc == Returned(k) && t.keys == s.keys && t.licences == s.licences && t.log == s.log
         else if !sign.Success? || s.licences[k].revoked then
           t.issuers[i].pc == Thrown && t.keys == s.keys && t.licences == s.licences && t.log == s.log
         else
           var status := RetryStatus(row.status, mark, send, note, fail);
           var sent := if mark.Success? then row.(token := s.unissued, used := false) else row;
           && t.licences == s.licences[k := s.licences[k].(signed := true)]
           && t.keys == s.keys[k := sent.(status := status)]
           && t.log == (if mark.Success? then s.log + [TokenReset(k)] else s.log)
           && t.issuers[i].pc == (if status.Delivered? && mark.Success? then Returned(k) else Thrown)
  {
    var s0, i, order := Apply(s, Issue(s.keys[k].order)), |s.issuers|, s.keys[k].order;
    RowIsFound(s, k);
    StepsUnfold(s0, i, [Success, Success, sign, mark, send, note, fail]);
    assert [Success, Success, sign, mark, send, note, fail][1..] == [Success, sign, mark, send, note, fail];
    var s1 := StepIssuer(s0, i, Success);
    StepsUnfold(s1, i, [Success, sign, mark, send, note, fail]);
    assert [Success, sign, mark, send, note, fail][1..] == [sign, mark, send, note, fail];
    var s2 := StepIssuer(s1, i, Success);
    if s.keys[k].status.Delivered? {
      EndedStays(s2, i, [sign, mark, send, note, fail]);
    } else {
      RetrySigns(s2, i, k, sign, mark, send, note, fail);
    }
  }

  lemma RetrySigns(s: State, i: nat, k: nat, sign: Outcome, mark: Outcome, send: Outcome, note: Outcome, fail: Outcome)
    requires HasRow(s, k) && i < |s.issuers| && s.issuers[i].pc == RetrySigning(k)
    ensures var t, row := Run(s, Steps(i, [sign, mark, send, note, fail])), s.keys[k];
      && |t.issuers| == |s.issuers| && t.retrievers == s.retrievers
      && if !sign.Success? || s.licences[k].revoked then
           t.issuers[i].pc == Thrown && t.keys == s.keys && t.licences == s.licences && t.log == s.log
         else
           var status := RetryStatus(row.status, mark, send, note, fail);
           var sent := if mark.Success? then row.(token := s.unissued, used := false) else row;
           && t.licences == s.licences[k := s.licences[k].(signed := true)]
           && t.keys == s.keys[k := sent.(status := status)]
           && t.log == (if mark.Success? then s.log + [TokenReset(k)] else s.log)
           && t.issuers[i].pc == (if status.Delivered? && mark.Success? then Returned(k) else Thrown)
  {
    StepsUnfold(s, i, [sign, mark, send, note, fail]);
    assert [sign, mark, send, note, fail][1..] == [mark, send, note, fail];
    var s1 := StepIssuer(s, i, sign);
    if !sign.Success? || s.licences[k].revoked {
      EndedStays(s1, i, [mark, send, note, fail]);
    } else {
      RetryMarks(s1, i, k, mark, send, note, fail);
    }
  }

  lemma RetryMarks(s: State, i: nat, k: nat, mark: Outcome, send: Outcome, note: Outcome, fail: Outcome)
    requires HasRow(s, k) && i < |s.issuers| && s.issuers[i].pc == RetryMarking(k)
    ensures var t, row := Run(s, Steps(i, [mark, send, note, fail])), s.keys[k];
      var status := RetryStatus(row.status, mark, send, note, fail);
      var sent := if mark.Success? then row.(token := s.unissued, used := false) else row;
      && |t.issuers| == |s.issuers| && t.retrievers == s.retrievers && t.licences == s.licences
      && t.keys == s.keys[k := sent.(status := status)]
      && t.log == (if mark.Success? then s.log + [TokenReset(k)] else s.log)
      && t.issuers[i].pc == (if status.Delivered? && mark.Success? then Returned(k) else Thrown)
  {
    if mark.Success? {
      RetryIsMarked(s, i, k, mark, send, note, fail);
    } else {
      RetryIsNotMarked(s, i, k, mark, send, note, fail);
      assert s.keys[k := s.keys[k].(status := s.keys[k].status)] == s.keys;
    }
  }

  lemma RetryIsMarked(s: State, i: nat, k: nat, mark: Outcome, send: Outcome, note: Outcome, fail: Outcome)
    requires HasRow(s, k) && i < |s.issuers| && s.issuers[i].pc == RetryMarking(k) && mark.Success?
    ensures var t, row := Run(s, Steps(i, [mark, send, note, fail])), s.keys[k];
      var status := RetryStatus(Delivering, Success, send, note, fail);
      && |t.issuers| == |s.issuers| && t.retrievers == s.retrievers && t.licences == s.licences
      && t.keys == s.keys[k := row.(token := s.unissued, used := false, status := status)]
      && t.log == s.log + [TokenReset(k)]
      && t.issuers[i].pc == (if status.Delivered? then Returned(k) else Thrown)
  {
    StepsUnfold(s, i, [mark, send, note, fail]);
    assert [mark, send, note, fail][1..] == [send, note, fail];
    MarkStep(s, i, k, mark);
    hide StepIssuer, RetryStatus;
    var s1 := SetIssuer(ResetToken(s, k), i, RetrySending(k));
    RetrySends(s1, i, k, send, note, fail);
  }

  lemma RetryIsNotMarked(s: State, i: nat, k: nat, mark: Outcome, send: Outcome, note: Outcome, fail: Outcome)
    requires HasRow(s, k) && i < |s.issuers| && s.issuers[i].pc == RetryMarking(k) && !mark.Success?
    ensures var t := Run(s, Steps(i, [mark, send, note, fail]));
      && |t.issuers| == |s.issuers| && t.retrievers == s.retrievers && t.licences == s.licences && t.log == s.log
      && t.keys == (if send.Success? then s.keys[k := s.keys[k].(status := DeliveryFailed)] else s.keys)
      && t.issuers[i].pc == Thrown
  {
    StepsUnfold(s, i, [mark, send, note, fail]);
    assert [mark, send, note, fail][1..] == [send, note, fail];
    MarkStep(s, i, k, mark);
    hide StepIssuer;
    RetryGivesUp(SetIssuer(s, i, MarkingFailed(k)), i, k, send, [note, fail]);
    assert [send] + [note, fail] == [send, note, fail];
  }

  /** The failure is noted on the row, if that succeeds, and thrown. */
  lemma RetryGivesUp(s: State, i: nat, k: nat, note: Outcome, rest: seq<Outcome>)
    requires i < |s.issuers| && s.issuers[i].pc == MarkingFailed(k) && k < |s.keys|
    ensures Run(s, Steps(i, [note] + rest))
         == SetIssuer(if note.Success? then SetKey(s, k, s.keys[k].(status := DeliveryFailed)) else s, i, Thrown)
  {
    StepsUnfold(s, i, [note] + rest);
    assert ([note] + rest)[1..] == rest;
    EndedStays(StepIssuer(s, i, note), i, rest);
  }

  lemma RetrySends(s: State, i: nat, k: nat, send: Outcome, note: Outcome, fail: Outcome)
    requires HasRow(s, k) && i < |s.issuers| && s.issuers[i].pc == RetrySending(k) && s.keys[k].status == Delivering
    ensures var t, row := Run(s, Steps(i, [send, note, fail])), s.keys[k];
      var status := RetryStatus(row.status, Success, send, note, fail);
      && |t.issuers| == |s.issuers| && t.retrievers == s.retrievers && t.licences == s.licences && t.log == s.log
      && t.keys == s.keys[k := row.(status := status)]
      && t.issuers[i].pc == (if status.Delivered? then Returned(k) else Thrown)
  {
    StepsUnfold(s, i, [send, note, fail]);
    assert [send, note, fail][1..] == [note, fail];
    var s1 := StepIssuer(s, i, send);
    if send.Success? {
      StepsUnfold(s1, i, [note, fail]);
      assert [note, fail][1..] == [fail];
      var s2 := StepIssuer(s1, i, note);
      if note.Success? { EndedStays(s2, i, [fail]); } else { assert [fail] + [] == [fail]; RetryGivesUp(s2, i, k, fail, []); }
    } else {
      assert [note] + [fail] == [note, fail];
      RetryGivesUp(s1, i, k, note, [fail]);
    }
  }

  // ---------- other conflicts ----------

  /** A failed insert changes nothing; one that conflicts elsewhere returns a licence only if the order has one by then. */
  lemma InsertFails(s: State, order: Order)
    requires forall k | 0 <= k < |s.keys| :: s.keys[k].order != order
    ensures var t := Issued(s, order, [Failure]); t == s.(issuers := s.issuers + [Issuer(order, Thrown)])
    ensures var t := Issued(s, order, [Collision, Success, Success]); t == s.(issuers := s.issuers + [Issuer(order, Thrown)])
  {
    var s0, i := Apply(s, Issue(order)), |s.issuers|;
    StepsUnfold(s0, i, [Failure]);
    EndedStays(StepIssuer(s0, i, Failure), i, [Failure][1..]);
    StepsUnfold(s0, i, [Collision, Success, Success]);
    assert [Collision, Success, Success][1..] == [Success, Success];
    var s1 := StepIssuer(s0, i, Collision);
    StepsUnfold(s1, i, [Success, Success]);
    assert [Success, Success][1..] == [Success];
    var s2 := StepIssuer(s1, i, Success);
    StepsUnfold(s2, i, [Success]);
    EndedStays(StepIssuer(s2, i, Success), i, [Success][1..]);
  }

  lemma FallbackFindsWinner(s: State, i: nat, k: nat)
    requires RowsOk(s) && k < |s.keys| && i < |s.issuers| && s.issuers[i] == Issuer(s.keys[k].order, FallbackLookup)
    ensures StepIssuer(s, i, Success) == SetIssuer(s, i, Returned(k))
  {
    RowIsFound(s, k);
  }

  // ---------- a retrieval ----------

  /** From the read on: sign if that is still to be done, then record the use. */
  lemma ReadEnds(s: State, r: nat, k: nat, sign: Outcome, record: Outcome)
    requires HasRow(s, k) && r < |s.retrievers| && !s.keys[k].used
    requires s.retrievers[r].pc == Reading(k, s.keys[k].minted, !s.licences[k].signed)
    ensures var t, row := Run(s, [RetrieverStep(r, sign, false), RetrieverStep(r, record, false)]), s.keys[k];
      && |t.retrievers| == |s.retrievers|
      && if !s.licences[k].signed && (!sign.Success? || s.licences[k].revoked) then
           t.retrievers[r].pc == SigningFailed && t.keys == s.keys && t.licences == s.licences
         else
           && t.licences == s.licences[k := s.licences[k].(signed := true)]
           && t.retrievers[r].pc == (if record.Success? then Got(k, row.minted) else Refused)
           && t.keys == (if record.Success? then s.keys[k := row.(used := true, rawKey := None)] else s.keys)
  {
    var actions := [RetrieverStep(r, sign, false), RetrieverStep(r, record, false)];
    assert actions[1..] == [RetrieverStep(r, record, false)] && actions[1..][1..] == [];
    var s1 := Apply(s, actions[0]);
    var s2 := Apply(s1, actions[1]);
    assert Run(s, actions) == Run(s1, actions[1..]);
    assert Run(s1, actions[1..]) == s2;
    if s.licences[k].signed { assert s.licences[k := s.licences[k].(signed := true)] == s.licences; }
  }

  /**
   A retrieval alone: a token that opens a row gives its key once, when the licence is or can be
   signed and the use is recorded; it gives nothing and uses nothing up otherwise.
   */
  lemma OneRetrieval(s: State, k: nat, sign: Outcome, record: Outcome)
    requires Inv(s) && k < |s.keys| && Opens(s, k, s.keys[k].token, false)
    ensures var r, row := |s.retrievers|, s.keys[k];
      var t := Run(s, [Present(row.token), RetrieverStep(r, Success, false), RetrieverStep(r, sign, false), RetrieverStep(r, record, false)]);
      && k < |s.licences| && |t.retrievers| == r + 1
      && if !s.licences[k].signed && (!sign.Success? || s.licences[k].revoked) then
           t.retrievers[r].pc == SigningFailed && t.keys == s.keys && t.licences == s.licences
         else
           && t.licences == s.licences[k := s.licences[k].(signed := true)]
           && t.retrievers[r].pc == (if record.Success? then Got(k, row.minted) else Refused)
           && t.keys == (if record.Success? then s.keys[k := row.(used := true, rawKey := None)] else s.keys)
  {
    var r, token := |s.retrievers|, s.keys[k].token;
    var rest := [RetrieverStep(r, sign, false), RetrieverStep(r, record, false)];
    var actions := [Present(token), RetrieverStep(r, Success, false), RetrieverStep(r, sign, false), RetrieverStep(r, record, false)];
    assert actions[1..] == [RetrieverStep(r, Success, false)] + rest && actions[1..][1..] == rest;
    InvHasRow(s, k);
    var s1 := Apply(s, Present(token));
    StepKeepsInv(s, Present(token));
    TokenIsReadExactly(s1, r, Success, false);
    assert Opens(s1, k, token, false);
    hide Inv, StepRetriever;
    var s2 := Apply(s1, RetrieverStep(r, Success, false));
    assert Run(s, actions) == Run(s1, actions[1..]);
    assert Run(s1, actions[1..]) == Run(s2, rest);
    ReadEnds(s2, r, k, sign, record);
  }
}
