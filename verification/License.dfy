/**
 Licence fulfilment: insert-first issue, delivery retry and one-time retrieval.

 Every database write, signature and e-mail is its own step, and any number of issuers and
 retrievals interleave freely. An issuer that crashes simply takes no further step. The log
 records the three events that the one-time promise is about.
 */
module License {
  import opened Wrappers

  type Order = (string, string)  // provider and order id

  datatype Status = Minted | Delivering | Delivered | DeliveryFailed

  datatype Licence = Licence(signed: bool, revoked: bool)

  /** A licence key row. `minted` is the raw key it was created with. */
  datatype KeyRow = KeyRow(order: Order, licence: nat, status: Status, token: nat, used: bool, rawKey: Option<nat>, minted: nat)

  datatype IssuerPc =
    | Creating
    | SigningNew(k: nat) | MarkingNew(k: nat) | Sending(k: nat) | MarkingSent(k: nat) | MarkingFailed(k: nat)
    | Conflict | FallbackLookup
    | RetrySigning(k: nat) | RetryMarking(k: nat) | RetrySending(k: nat) | RetryMarkingSent(k: nat)
    | Returned(licence: nat)
    | Thrown

  datatype Issuer = Issuer(order: Order, pc: IssuerPc)

  datatype RetrieverPc =
    | Presenting
    | Reading(k: nat, key: nat, unsigned: bool)
    | Consuming(k: nat, key: nat)
    | Got(k: nat, key: nat)
    | Refused
    | SigningFailed

  datatype Retriever = Retriever(token: nat, pc: RetrieverPc)

  datatype Event =
    | TokenReset(k: nat)
    | KeyRead(k: nat, reader: nat)
    | KeyReturned(k: nat, reader: nat)

  datatype State = State(
    licences: seq<Licence>, keys: seq<KeyRow>, issuers: seq<Issuer>, retrievers: seq<Retriever>,
    unissued: nat, log: seq<Event>)

  const Initial := State([], [], [], [], 0, [])

  /** How the awaited operation of a step ends. Collision is a unique conflict on another column. */
  datatype Outcome = Success | Failure | Collision

  datatype Action =
    | Issue(order: Order)
    | IssuerStep(i: nat, outcome: Outcome)
    | Present(token: nat)
    | RetrieverStep(r: nat, outcome: Outcome, expired: bool)
    | Revoke(licence: nat)

  // ---------- lookups ----------

  function FindOrder(keys: seq<KeyRow>, order: Order): (k: Option<nat>)
    ensures k.Some? ==> k.value < |keys| && keys[k.value].order == order
    ensures k.None? ==> forall j | 0 <= j < |keys| :: keys[j].order != order
  {
    if keys == [] then None
    else if keys[|keys| - 1].order == order then Some(|keys| - 1)
    else FindOrder(keys[..|keys| - 1], order)
  }

  function FindToken(keys: seq<KeyRow>, token: nat): (k: Option<nat>)
    ensures k.Some? ==> k.value < |keys| && keys[k.value].token == token
    ensures k.None? ==> forall j | 0 <= j < |keys| :: keys[j].token != token
  {
    if keys == [] then None
    else if keys[|keys| - 1].token == token then Some(|keys| - 1)
    else FindToken(keys[..|keys| - 1], token)
  }

  // ---------- steps ----------

  function SetIssuer(s: State, i: nat, pc: IssuerPc): State
    requires i < |s.issuers|
  {
    s.(issuers := s.issuers[i := s.issuers[i].(pc := pc)])
  }

  function SetKey(s: State, k: nat, row: KeyRow): State {
    if k < |s.keys| then s.(keys := s.keys[k := row]) else s
  }

  function SetStatus(s: State, k: nat, status: Status): State {
    if k < |s.keys| then SetKey(s, k, s.keys[k].(status := status)) else s
  }

  /** `issueSignedLicense`: refuses a revoked licence, otherwise stores the signature. */
  predicate CanSign(s: State, licence: nat, outcome: Outcome) {
    outcome.Success? && licence < |s.licences| && !s.licences[licence].revoked
  }

  function Sign(s: State, licence: nat): State
    requires licence < |s.licences|
  {
    s.(licences := s.licences[licence := s.licences[licence].(signed := true)])
  }

  /** The retry's update: a new token, and the used flag cleared. */
  function ResetToken(s: State, k: nat): State
    requires k < |s.keys|
  {
    SetKey(s, k, s.keys[k].(status := Delivering, token := s.unissued, used := false))
      .(unissued := s.unissued + 1, log := s.log + [TokenReset(k)])
  }

  function StepIssuer(s: State, i: nat, o: Outcome): State
    requires i < |s.issuers|
  {
    var order := s.issuers[i].order;
    match s.issuers[i].pc
    case Creating =>
      if o.Failure? then SetIssuer(s, i, Thrown)
      else if o.Collision? || FindOrder(s.keys, order).Some? then SetIssuer(s, i, Conflict)
      else
        var id := |s.licences|;
        var row := KeyRow(order, id, Minted, s.unissued, false, Some(s.unissued + 1), s.unissued + 1);
        SetIssuer(s.(licences := s.licences + [Licence(false, false)], keys := s.keys + [row], unissued := s.unissued + 2),
                  i, SigningNew(|s.keys|))
    case SigningNew(k) =>
      if k < |s.keys| && CanSign(s, s.keys[k].licence, o)
      then SetIssuer(Sign(s, s.keys[k].licence), i, MarkingNew(k)) else SetIssuer(s, i, Thrown)
    case MarkingNew(k) =>
      if o.Success? then SetIssuer(SetStatus(s, k, Delivering), i, Sending(k)) else SetIssuer(s, i, Thrown)
    case Sending(k) => SetIssuer(s, i, if o.Success? then MarkingSent(k) else MarkingFailed(k))
    case MarkingSent(k) =>
      if o.Success? && k < |s.keys|
      then SetIssuer(SetStatus(s, k, Delivered), i, Returned(s.keys[k].licence)) else SetIssuer(s, i, Thrown)
    case MarkingFailed(k) => SetIssuer(if o.Success? then SetStatus(s, k, DeliveryFailed) else s, i, Thrown)
    case Conflict =>
      (match FindOrder(s.keys, order)
       case None => SetIssuer(s, i, if o.Success? then FallbackLookup else Thrown)
       case Some(k) =>
         if !o.Success? then SetIssuer(s, i, Thrown)
         else if s.keys[k].status.Delivered? then SetIssuer(s, i, Returned(s.keys[k].licence))
         else SetIssuer(s, i, RetrySigning(k)))
    case FallbackLookup =>
      (match FindOrder(s.keys, order)
       case None => SetIssuer(s, i, Thrown)
       case Some(k) => SetIssuer(s, i, if o.Success? then Returned(s.keys[k].licence) else Thrown))
    case RetrySigning(k) =>
      if k < |s.keys| && CanSign(s, s.keys[k].licence, o)
      then SetIssuer(Sign(s, s.keys[k].licence), i, RetryMarking(k)) else SetIssuer(s, i, Thrown)
    case RetryMarking(k) =>
      if o.Success? && k < |s.keys|
      then SetIssuer(ResetToken(s, k), i, RetrySending(k)) else SetIssuer(s, i, MarkingFailed(k))
    case RetrySending(k) => SetIssuer(s, i, if o.Success? then RetryMarkingSent(k) else MarkingFailed(k))
    case RetryMarkingSent(k) =>
      if o.Success? && k < |s.keys|
      then SetIssuer(SetStatus(s, k, Delivered), i, Returned(s.keys[k].licence)) else SetIssuer(s, i, MarkingFailed(k))
    case Returned(_) => s
    case Thrown => s
  }

  function SetRetriever(s: State, r: nat, pc: RetrieverPc): State
    requires r < |s.retrievers|
  {
    s.(retrievers := s.retrievers[r := s.retrievers[r].(pc := pc)])
  }

  function StepRetriever(s: State, r: nat, o: Outcome, expired: bool): State
    requires r < |s.retrievers|
  {
    match s.retrievers[r].pc
    case Presenting =>
      (match FindToken(s.keys, s.retrievers[r].token)
       case None => SetRetriever(s, r, Refused)
       case Some(k) =>
         var row := s.keys[k];
         if row.used || expired || row.rawKey.None? || row.licence >= |s.licences| then SetRetriever(s, r, Refused)
         else SetRetriever(s, r, Reading(k, row.rawKey.value, !s.licences[row.licence].signed))
                .(log := s.log + [KeyRead(k, r)]))
    case Reading(k, key, unsigned) =>
      if !unsigned then SetRetriever(s, r, Consuming(k, key))
      else if k < |s.keys| && CanSign(s, s.keys[k].licence, o)
      then SetRetriever(Sign(s, s.keys[k].licence), r, Consuming(k, key))
      else SetRetriever(s, r, SigningFailed)
    case Consuming(k, key) =>
      if !o.Success? || k >= |s.keys| || s.keys[k].used then SetRetriever(s, r, Refused)
      else
        SetRetriever(SetKey(s, k, s.keys[k].(used := true, rawKey := None)), r, Got(k, key))
          .(log := s.log + [KeyReturned(k, r)])
    case _ => s
  }

  function Apply(s: State, a: Action): State {
    match a
    case Issue(order) => s.(issuers := s.issuers + [Issuer(order, Creating)])
    case IssuerStep(i, o) => if i < |s.issuers| then StepIssuer(s, i, o) else s
    case Present(token) => s.(retrievers := s.retrievers + [Retriever(token, Presenting)])
    case RetrieverStep(r, o, expired) => if r < |s.retrievers| then StepRetriever(s, r, o, expired) else s
    case Revoke(l) =>
      if l < |s.licences| then s.(licences := s.licences[l := s.licences[l].(revoked := true)]) else s
  }

  function Run(s: State, actions: seq<Action>): State
    decreases |actions|
  {
    if actions == [] then s else Run(Apply(s, actions[0]), actions[1..])
  }

  // ---------- the log ----------

  /** Has the key been returned since its token was last reset? */
  function UsedNow(log: seq<Event>, k: nat): bool {
    if log == [] then false
    else
      match log[|log| - 1]
      case TokenReset(j) => if j == k then false else UsedNow(log[..|log| - 1], k)
      case KeyReturned(j, _) => j == k || UsedNow(log[..|log| - 1], k)
      case KeyRead(_, _) => UsedNow(log[..|log| - 1], k)
  }

  predicate EverReturned(log: seq<Event>, k: nat) {
    exists e | e in log :: e.KeyReturned? && e.k == k
  }

  /** Each event was allowed by the events before it. */
  predicate Disciplined(log: seq<Event>) {
    log == [] ||
    var before, e := log[..|log| - 1], log[|log| - 1];
    && Disciplined(before)
    && (e.KeyReturned? ==> !UsedNow(before, e.k) && KeyRead(e.k, e.reader) in before)
    && (e.KeyRead? ==> !EverReturned(before, e.k))
  }

  // ---------- the invariant ----------

  predicate IssuerOk(s: State, p: Issuer) {
    match p.pc
    case SigningNew(k) => k < |s.keys| && s.keys[k].order == p.order
    case RetrySigning(k) => k < |s.keys| && s.keys[k].order == p.order
    case MarkingNew(k) => SignedFor(s, k, p.order)
    case Sending(k) => SignedFor(s, k, p.order)
    case MarkingSent(k) => SignedFor(s, k, p.order)
    case MarkingFailed(k) => SignedFor(s, k, p.order)
    case RetryMarking(k) => SignedFor(s, k, p.order)
    case RetrySending(k) => SignedFor(s, k, p.order)
    case RetryMarkingSent(k) => SignedFor(s, k, p.order)
    case Returned(l) => l < |s.keys| && s.keys[l].order == p.order
    case _ => true
  }

  predicate SignedFor(s: State, k: nat, order: Order) {
    k < |s.keys| && s.keys[k].order == order && k < |s.licences| && s.licences[k].signed
  }

  predicate RetrieverOk(s: State, r: nat, p: Retriever) {
    match p.pc
    case Reading(k, key, _) => k < |s.keys| && key == s.keys[k].minted && KeyRead(k, r) in s.log
    case Consuming(k, key) =>
      k < |s.keys| && key == s.keys[k].minted && KeyRead(k, r) in s.log
    case Got(k, key) => k < |s.keys| && key == s.keys[k].minted
    case _ => true
  }

  /** Only a retrieval that got its key stands behind a returned key. */
  predicate ReturnedOnlyByGot(s: State) {
    forall e | e in s.log && e.KeyReturned? :: e.reader < |s.retrievers| && s.retrievers[e.reader].pc.Got?
  }

  predicate RowsOk(s: State) {
    && |s.licences| == |s.keys|
    && (forall k | 0 <= k < |s.keys| :: s.keys[k].licence == k)
    && (forall j, k | 0 <= j < k < |s.keys| :: s.keys[j].order != s.keys[k].order)
    && (forall j, k | 0 <= j < k < |s.keys| :: s.keys[j].token != s.keys[k].token)
    && (forall k | 0 <= k < |s.keys| :: s.keys[k].token < s.unissued)
    && (forall k | 0 <= k < |s.keys| :: s.keys[k].status != Minted ==> s.licences[k].signed)
    && (forall k | 0 <= k < |s.keys| :: s.keys[k].rawKey.Some? ==> s.keys[k].rawKey.value == s.keys[k].minted)
  }

  predicate LogOk(s: State) {
    && Disciplined(s.log)
    && (forall k | 0 <= k < |s.keys| :: s.keys[k].used == UsedNow(s.log, k))
    && (forall k | 0 <= k < |s.keys| :: s.keys[k].rawKey.None? <==> EverReturned(s.log, k))
    && (forall e | e in s.log :: e.k < |s.keys|)
  }

  predicate Inv(s: State) {
    && RowsOk(s)
    && LogOk(s)
    && (forall i | 0 <= i < |s.issuers| :: IssuerOk(s, s.issuers[i]))
    && (forall r | 0 <= r < |s.retrievers| :: RetrieverOk(s, r, s.retrievers[r]))
    && ReturnedOnlyByGot(s)
  }

  // ---------- preservation ----------

  /** Rows and licences are only added, identities never change, signatures stay, the log grows. */
  predicate Extends(s: State, t: State) {
    && |s.keys| <= |t.keys| && |s.licences| <= |t.licences| && s.log <= t.log
    && (forall k | 0 <= k < |s.keys| ::
          s.keys[k].order == t.keys[k].order && s.keys[k].minted == t.keys[k].minted)
    && (forall l | 0 <= l < |s.licences| && s.licences[l].signed :: t.licences[l].signed)
  }

  lemma PrefixMembers(a: seq<Event>, b: seq<Event>)
    requires a <= b
    ensures forall e | e in a :: e in b
  {
  }

  lemma ExtendsKeepsProcesses(s: State, t: State)
    requires Extends(s, t)
    ensures forall p | IssuerOk(s, p) :: IssuerOk(t, p)
    ensures forall r: nat, p | RetrieverOk(s, r, p) :: RetrieverOk(t, r, p)
  {
    PrefixMembers(s.log, t.log);
    forall p | IssuerOk(s, p) ensures IssuerOk(t, p) {}
    forall r: nat, p | RetrieverOk(s, r, p) ensures RetrieverOk(t, r, p) {}
  }

  predicate Core(s: State) { RowsOk(s) && LogOk(s) }

  lemma SignKeeps(s: State, l: nat)
    requires Core(s) && l < |s.licences|
    ensures Core(Sign(s, l)) && Extends(s, Sign(s, l))
  {
  }

  lemma SetStatusKeeps(s: State, k: nat, status: Status)
    requires Core(s) && k < |s.keys| && s.licences[k].signed
    ensures Core(SetStatus(s, k, status)) && Extends(s, SetStatus(s, k, status))
  {
  }

  lemma LogGrows(log: seq<Event>, e: Event)
    ensures (log + [e])[..|log|] == log && (log + [e])[|log|] == e
    ensures forall j :: EverReturned(log + [e], j) <==> EverReturned(log, j) || (e.KeyReturned? && e.k == j)
    ensures forall j :: UsedNow(log + [e], j) == (if e.k == j && !e.KeyRead? then e.KeyReturned? else UsedNow(log, j))
  {
    assert (log + [e])[..|log|] == log;
    forall j ensures EverReturned(log + [e], j) <==> EverReturned(log, j) || (e.KeyReturned? && e.k == j) {
      if EverReturned(log, j) {
        var f :| f in log && f.KeyReturned? && f.k == j;
        assert f in log + [e];
      }
      if e.KeyReturned? && e.k == j { assert e in log + [e]; }
    }
  }

  lemma ResetKeeps(s: State, k: nat)
    requires Core(s) && k < |s.keys| && s.licences[k].signed
    ensures Core(ResetToken(s, k)) && Extends(s, ResetToken(s, k))
  {
    LogGrows(s.log, TokenReset(k));
  }

  lemma CreateKeeps(s: State, order: Order)
    requires Core(s) && FindOrder(s.keys, order).None?
    ensures var row := KeyRow(order, |s.licences|, Minted, s.unissued, false, Some(s.unissued + 1), s.unissued + 1);
      var t := s.(licences := s.licences + [Licence(false, false)], keys := s.keys + [row], unissued := s.unissued + 2);
      Core(t) && Extends(s, t)
  {
    hide UsedNow, EverReturned, Disciplined, RowsOk;
    NeverReturned(s.log, |s.keys|);
    CreateKeepsRows(s, order);
  }

  lemma CreateKeepsRows(s: State, order: Order)
    requires RowsOk(s) && FindOrder(s.keys, order).None?
    ensures var row := KeyRow(order, |s.licences|, Minted, s.unissued, false, Some(s.unissued + 1), s.unissued + 1);
      RowsOk(s.(licences := s.licences + [Licence(false, false)], keys := s.keys + [row], unissued := s.unissued + 2))
  {
    hide FindOrder;
  }

  lemma {:induction false} NeverReturned(log: seq<Event>, k: nat)
    requires forall e | e in log :: e.k < k
    ensures !UsedNow(log, k) && !EverReturned(log, k)
  {
    if log != [] { NeverReturned(log[..|log| - 1], k); }
  }

  lemma ReadKeeps(s: State, k: nat, r: nat)
    requires Core(s) && k < |s.keys| && s.keys[k].rawKey.Some?
    ensures Core(s.(log := s.log + [KeyRead(k, r)])) && Extends(s, s.(log := s.log + [KeyRead(k, r)]))
  {
    LogGrows(s.log, KeyRead(k, r));
  }

  lemma DisciplineGrows(log: seq<Event>, e: Event)
    requires Disciplined(log)
    requires e.KeyReturned? ==> !UsedNow(log, e.k) && KeyRead(e.k, e.reader) in log
    requires e.KeyRead? ==> !EverReturned(log, e.k)
    ensures Disciplined(log + [e])
  {
    hide UsedNow, EverReturned;
    assert (log + [e])[..|log|] == log;
  }

  function Consume(s: State, k: nat, r: nat): State
    requires k < |s.keys|
  {
    SetKey(s, k, s.keys[k].(used := true, rawKey := None)).(log := s.log + [KeyReturned(k, r)])
  }

  lemma ConsumeKeeps(s: State, k: nat, r: nat)
    requires Core(s) && k < |s.keys| && !s.keys[k].used && KeyRead(k, r) in s.log
    ensures Core(Consume(s, k, r)) && Extends(s, Consume(s, k, r))
  {
    hide UsedNow, EverReturned, Disciplined;
    LogGrows(s.log, KeyReturned(k, r));
    DisciplineGrows(s.log, KeyReturned(k, r));
  }

  /** An issuer's step that leaves the rows and licences in order keeps the whole invariant. */
  lemma IssuerMoves(s: State, t: State, i: nat, pc: IssuerPc)
    requires Inv(s) && Core(t) && Extends(s, t) && i < |s.issuers|
    requires t.issuers == s.issuers && t.retrievers == s.retrievers
    requires forall e | e in t.log && e.KeyReturned? :: e in s.log
    requires IssuerOk(t, s.issuers[i].(pc := pc))
    ensures Inv(SetIssuer(t, i, pc))
  {
    ExtendsKeepsProcesses(s, t);
    var u := SetIssuer(t, i, pc);
    assert Extends(t, u);
    ExtendsKeepsProcesses(t, u);
  }

  lemma IssuerStays(s: State, i: nat, pc: IssuerPc)
    requires Inv(s) && i < |s.issuers| && IssuerOk(s, s.issuers[i].(pc := pc))
    ensures Inv(SetIssuer(s, i, pc))
  {
    IssuerMoves(s, s, i, pc);
  }

  lemma IssuerCreates(s: State, i: nat, o: Outcome)
    requires Inv(s) && i < |s.issuers| && s.issuers[i].pc.Creating?
    ensures Inv(StepIssuer(s, i, o))
  {
    var order := s.issuers[i].order;
    if o.Success? && FindOrder(s.keys, order).None? {
      var row := KeyRow(order, |s.licences|, Minted, s.unissued, false, Some(s.unissued + 1), s.unissued + 1);
      var t := s.(licences := s.licences + [Licence(false, false)], keys := s.keys + [row], unissued := s.unissued + 2);
      CreateKeeps(s, order);
      IssuerMoves(s, t, i, SigningNew(|s.keys|));
    } else {
      IssuerStays(s, i, if o.Failure? then Thrown else Conflict);
    }
  }

  lemma IssuerSigns(s: State, i: nat, k: nat, next: IssuerPc, o: Outcome)
    requires Inv(s) && i < |s.issuers| && k < |s.keys| && s.keys[k].order == s.issuers[i].order
    requires next == MarkingNew(k) || next == RetryMarking(k)
    requires CanSign(s, s.keys[k].licence, o)
    ensures Inv(SetIssuer(Sign(s, s.keys[k].licence), i, next))
  {
    SignKeeps(s, k);
    IssuerMoves(s, Sign(s, k), i, next);
  }

  lemma IssuerMarks(s: State, i: nat, k: nat, status: Status, pc: IssuerPc)
    requires Inv(s) && i < |s.issuers| && SignedFor(s, k, s.issuers[i].order)
    requires pc == Sending(k) || pc == Thrown || pc == Returned(k)
    ensures Inv(SetIssuer(SetStatus(s, k, status), i, pc))
  {
    SetStatusKeeps(s, k, status);
    IssuerMoves(s, SetStatus(s, k, status), i, pc);
  }

  lemma IssuerResets(s: State, i: nat, k: nat)
    requires Inv(s) && i < |s.issuers| && SignedFor(s, k, s.issuers[i].order)
    ensures Inv(SetIssuer(ResetToken(s, k), i, RetrySending(k)))
  {
    ResetKeeps(s, k);
    IssuerMoves(s, ResetToken(s, k), i, RetrySending(k));
  }

  lemma IssuerLooksUp(s: State, i: nat, o: Outcome)
    requires Inv(s) && i < |s.issuers| && (s.issuers[i].pc.Conflict? || s.issuers[i].pc.FallbackLookup?)
    ensures Inv(StepIssuer(s, i, o))
  {
    hide Inv;
    IssuerIsInOrder(s, i);
    var t := StepIssuer(s, i, o);
    IssuerStays(s, i, t.issuers[i].pc);
    assert t == SetIssuer(s, i, t.issuers[i].pc);
  }

  predicate IsNewPath(pc: IssuerPc) {
    pc.SigningNew? || pc.MarkingNew? || pc.Sending? || pc.MarkingSent?
  }

  lemma IssuerIsInOrder(s: State, i: nat)
    requires Inv(s) && i < |s.issuers|
    ensures IssuerOk(s, s.issuers[i]) && |s.licences| == |s.keys|
    ensures forall k | 0 <= k < |s.keys| :: s.keys[k].licence == k
  {
  }

  lemma IssuerDelivers(s: State, i: nat, o: Outcome)
    requires Inv(s) && i < |s.issuers| && IsNewPath(s.issuers[i].pc)
    ensures Inv(StepIssuer(s, i, o))
  {
    hide Inv, SetIssuer, Sign, SetStatus, ResetToken;
    IssuerIsInOrder(s, i);
    IssuerStays(s, i, Thrown);
    match s.issuers[i].pc
    case SigningNew(k) => if CanSign(s, s.keys[k].licence, o) { IssuerSigns(s, i, k, MarkingNew(k), o); }
    case MarkingNew(k) => if o.Success? { IssuerMarks(s, i, k, Delivering, Sending(k)); }
    case Sending(k) => IssuerStays(s, i, if o.Success? then MarkingSent(k) else MarkingFailed(k));
    case MarkingSent(k) => if o.Success? { IssuerMarks(s, i, k, Delivered, Returned(k)); }
  }

  predicate IsRetryPath(pc: IssuerPc) {
    pc.RetrySigning? || pc.RetryMarking? || pc.RetrySending? || pc.RetryMarkingSent? || pc.MarkingFailed?
  }

  lemma IssuerRetries(s: State, i: nat, o: Outcome)
    requires Inv(s) && i < |s.issuers| && IsRetryPath(s.issuers[i].pc)
    ensures Inv(StepIssuer(s, i, o))
  {
    hide Inv, SetIssuer, Sign, SetStatus, ResetToken;
    IssuerIsInOrder(s, i);
    IssuerStays(s, i, Thrown);
    match s.issuers[i].pc
    case RetrySigning(k) => if CanSign(s, s.keys[k].licence, o) { IssuerSigns(s, i, k, RetryMarking(k), o); }
    case RetryMarking(k) =>
      if o.Success? { IssuerResets(s, i, k); } else { IssuerStays(s, i, MarkingFailed(k)); }
    case RetrySending(k) => IssuerStays(s, i, if o.Success? then RetryMarkingSent(k) else MarkingFailed(k));
    case RetryMarkingSent(k) =>
      if o.Success? { IssuerMarks(s, i, k, Delivered, Returned(k)); } else { IssuerStays(s, i, MarkingFailed(k)); }
    case MarkingFailed(k) => if o.Success? { IssuerMarks(s, i, k, DeliveryFailed, Thrown); }
  }

  lemma IssuerStepKeepsInv(s: State, i: nat, o: Outcome)
    requires Inv(s) && i < |s.issuers|
    ensures Inv(StepIssuer(s, i, o))
  {
    hide Inv;
    var pc := s.issuers[i].pc;
    if pc.Creating? { IssuerCreates(s, i, o); }
    else if IsNewPath(pc) { IssuerDelivers(s, i, o); }
    else if IsRetryPath(pc) { IssuerRetries(s, i, o); }
    else if pc.Conflict? || pc.FallbackLookup? { IssuerLooksUp(s, i, o); }
  }

  lemma RetrieverMoves(s: State, t: State, r: nat, pc: RetrieverPc)
    requires Inv(s) && Core(t) && Extends(s, t) && r < |s.retrievers|
    requires t.issuers == s.issuers && t.retrievers == s.retrievers
    requires forall e | e in t.log && e.KeyReturned? :: e in s.log || (pc.Got? && e.reader == r)
    requires s.retrievers[r].pc.Got? ==> pc.Got?
    requires RetrieverOk(t, r, s.retrievers[r].(pc := pc))
    ensures Inv(SetRetriever(t, r, pc))
  {
    ExtendsKeepsProcesses(s, t);
    var u := SetRetriever(t, r, pc);
    assert Extends(t, u);
    ExtendsKeepsProcesses(t, u);
  }

  lemma RetrieverPresents(s: State, r: nat, o: Outcome, expired: bool)
    requires Inv(s) && r < |s.retrievers| && s.retrievers[r].pc.Presenting?
    ensures Inv(StepRetriever(s, r, o, expired))
  {
    hide IssuerOk, Disciplined, UsedNow;
    var next := StepRetriever(s, r, o, expired).retrievers[r].pc;
    if next.Reading? {
      ReadKeeps(s, next.k, r);
      RetrieverMoves(s, s.(log := s.log + [KeyRead(next.k, r)]), r, next);
    } else {
      RetrieverMoves(s, s, r, next);
    }
  }

  lemma RetrieverSigns(s: State, r: nat, o: Outcome)
    requires Inv(s) && r < |s.retrievers| && s.retrievers[r].pc.Reading?
    ensures Inv(StepRetriever(s, r, o, false))
  {
    hide IssuerOk, Disciplined, UsedNow;
    var p := s.retrievers[r].pc;
    assert RetrieverOk(s, r, s.retrievers[r]);
    if p.unsigned && CanSign(s, s.keys[p.k].licence, o) {
      SignKeeps(s, p.k);
      RetrieverMoves(s, Sign(s, p.k), r, Consuming(p.k, p.key));
    } else {
      RetrieverMoves(s, s, r, if p.unsigned then SigningFailed else Consuming(p.k, p.key));
    }
  }

  lemma RetrieverConsumes(s: State, r: nat, o: Outcome)
    requires Inv(s) && r < |s.retrievers| && s.retrievers[r].pc.Consuming?
    ensures Inv(StepRetriever(s, r, o, false))
  {
    hide IssuerOk, Disciplined, UsedNow;
    var p := s.retrievers[r].pc;
    assert RetrieverOk(s, r, s.retrievers[r]);
    if o.Success? && !s.keys[p.k].used {
      ConsumeKeeps(s, p.k, r);
      RetrieverMoves(s, Consume(s, p.k, r), r, Got(p.k, p.key));
    } else {
      RetrieverMoves(s, s, r, Refused);
    }
  }

  lemma RetrieverStepKeepsInv(s: State, r: nat, o: Outcome, expired: bool)
    requires Inv(s) && r < |s.retrievers|
    ensures Inv(StepRetriever(s, r, o, expired))
  {
    hide Inv;
    match s.retrievers[r].pc
    case Presenting => RetrieverPresents(s, r, o, expired);
    case Reading(_, _, _) => RetrieverSigns(s, r, o);
    case Consuming(_, _) => RetrieverConsumes(s, r, o);
    case _ =>
  }

  lemma StepKeepsInv(s: State, a: Action)
    requires Inv(s)
    ensures Inv(Apply(s, a))
  {
    match a
    case IssuerStep(i, o) => if i < |s.issuers| { hide Inv; IssuerStepKeepsInv(s, i, o); }
    case RetrieverStep(r, o, expired) => if r < |s.retrievers| { hide Inv; RetrieverStepKeepsInv(s, r, o, expired); }
    case _ => OtherStepKeepsInv(s, a);
  }

  lemma OtherStepKeepsInv(s: State, a: Action)
    requires Inv(s) && (a.Issue? || a.Present? || a.Revoke?)
    ensures Inv(Apply(s, a))
  {
    hide Disciplined, UsedNow;
    assert Extends(s, Apply(s, a));
    ExtendsKeepsProcesses(s, Apply(s, a));
  }

  lemma {:induction false} RunKeepsInv(s: State, actions: seq<Action>)
    requires Inv(s)
    ensures Inv(Run(s, actions))
    decreases |actions|
  {
    if actions != [] {
      StepKeepsInv(s, actions[0]);
      RunKeepsInv(Apply(s, actions[0]), actions[1..]);
    }
  }

  // ---------- the promises, for every interleaving ----------

  /** At most one licence per provider and order, and every caller that returns gets that one. */
  lemma OneLicencePerOrder(actions: seq<Action>)
    ensures var s := Run(Initial, actions);
      && |s.licences| == |s.keys|
      && (forall j, k | 0 <= j < |s.keys| && 0 <= k < |s.keys| && s.keys[j].order == s.keys[k].order :: j == k)
      && (forall k | 0 <= k < |s.keys| :: s.keys[k].licence == k)
      && (forall p | p in s.issuers && p.pc.Returned? ::
            p.pc.licence < |s.keys| && s.keys[p.pc.licence].order == p.order)
      && (forall p, q | p in s.issuers && q in s.issuers && p.pc.Returned? && q.pc.Returned? && p.order == q.order ::
            p.pc.licence == q.pc.licence)
  {
    RunKeepsInv(Initial, actions);
    var s := Run(Initial, actions);
    assert forall p | p in s.issuers :: IssuerOk(s, p);
  }

  /** A key row whose delivery went past minting has a signed licence. */
  lemma PastMintingIsSigned(actions: seq<Action>, k: nat)
    requires k < |Run(Initial, actions).keys| && Run(Initial, actions).keys[k].status != Minted
    ensures var s := Run(Initial, actions);
      s.keys[k].licence < |s.licences| && s.licences[s.keys[k].licence].signed
  {
    RunKeepsInv(Initial, actions);
  }

  lemma {:induction false} DisciplinedAt(log: seq<Event>, j: nat)
    requires Disciplined(log) && j < |log|
    ensures Disciplined(log[..j + 1])
  {
    if j + 1 < |log| {
      DisciplinedAt(log[..|log| - 1], j);
      assert log[..|log| - 1][..j + 1] == log[..j + 1];
    } else {
      assert log[..j + 1] == log;
    }
  }

  lemma {:induction false} UsedUntilReset(log: seq<Event>, i: nat, k: nat)
    requires i < |log| && log[i].KeyReturned? && log[i].k == k
    requires forall m | i < m < |log| :: log[m] != TokenReset(k)
    ensures UsedNow(log, k)
  {
    if i < |log| - 1 { UsedUntilReset(log[..|log| - 1], i, k); }
  }

  /** Between two returns of one key its token was reset by a delivery retry. */
  lemma OneReturnPerReset(actions: seq<Action>, i: nat, j: nat)
    requires var log := Run(Initial, actions).log;
      i < j < |log| && log[i].KeyReturned? && log[j].KeyReturned? && log[i].k == log[j].k
    ensures var log := Run(Initial, actions).log; exists m :: i < m < j && log[m] == TokenReset(log[i].k)
  {
    RunKeepsInv(Initial, actions);
    hide Run, RowsOk, IssuerOk, RetrieverOk;
    ResetBetweenReturns(Run(Initial, actions).log, i, j);
  }

  lemma ResetBetweenReturns(log: seq<Event>, i: nat, j: nat)
    requires Disciplined(log) && i < j < |log| && log[i].KeyReturned? && log[j].KeyReturned? && log[i].k == log[j].k
    ensures exists m :: i < m < j && log[m] == TokenReset(log[i].k)
  {
    DisciplinedAt(log, j);
    assert log[..j + 1][..j] == log[..j];
    if forall m | i < m < j :: log[m] != TokenReset(log[i].k) {
      UsedUntilReset(log[..j], i, log[i].k);
    }
  }

  /**
   Once a key was returned no retrieval that starts later reads it, so every further return
   belongs to a retrieval that had already read the key before the first return.
   */
  lemma LateRetrievalsNeverReturn(actions: seq<Action>, i: nat, j: nat)
    requires var log := Run(Initial, actions).log;
      i < j < |log| && log[i].KeyReturned? && log[i].k == log[j].k
    ensures var log := Run(Initial, actions).log;
      && !log[j].KeyRead?
      && (log[j].KeyReturned? ==> exists m :: 0 <= m < i && log[m] == KeyRead(log[j].k, log[j].reader))
  {
    RunKeepsInv(Initial, actions);
    hide Run, RowsOk, IssuerOk, RetrieverOk, UsedNow;
    ReadsPrecedeReturns(Run(Initial, actions).log, i, j);
  }

  lemma NoReadAfterReturn(log: seq<Event>, i: nat, m: nat)
    requires Disciplined(log) && i < m < |log| && log[i].KeyReturned? && log[m].k == log[i].k
    ensures !log[m].KeyRead?
  {
    hide UsedNow;
    DisciplinedAt(log, m);
    assert log[..m + 1][..m] == log[..m];
    assert log[..m][i] == log[i] && log[..m][i] in log[..m];
  }

  lemma ReadsPrecedeReturns(log: seq<Event>, i: nat, j: nat)
    requires Disciplined(log) && i < j < |log| && log[i].KeyReturned? && log[i].k == log[j].k
    ensures !log[j].KeyRead?
    ensures log[j].KeyReturned? ==> exists m :: 0 <= m < i && log[m] == KeyRead(log[j].k, log[j].reader)
  {
    NoReadAfterReturn(log, i, j);
    if log[j].KeyReturned? {
      DisciplinedAt(log, j);
      assert log[..j + 1][..j] == log[..j];
      hide Disciplined, UsedNow;
      var m :| 0 <= m < j && log[..j][m] == KeyRead(log[j].k, log[j].reader);
      assert log[m] == log[..j][m];
      if i < m { NoReadAfterReturn(log, i, m); }
    }
  }

  /** A retrieval gets the key its row was minted with; one that failed to sign consumed nothing. */
  lemma RetrievalOutcomes(actions: seq<Action>, r: nat)
    requires r < |Run(Initial, actions).retrievers|
    ensures var s := Run(Initial, actions);
      && (s.retrievers[r].pc.Got? ==>
            var k := s.retrievers[r].pc.k; k < |s.keys| && s.retrievers[r].pc.key == s.keys[k].minted)
      && (s.retrievers[r].pc.SigningFailed? ==> forall k :: KeyReturned(k, r) !in s.log)
  {
    RunKeepsInv(Initial, actions);
    assert RetrieverOk(Run(Initial, actions), r, Run(Initial, actions).retrievers[r]);
  }

  // ---------- the reset bound is tight ----------

  lemma {:induction false} RunThen(s: State, actions: seq<Action>, a: Action)
    ensures Run(s, actions + [a]) == Apply(Run(s, actions), a)
    decreases |actions|
  {
    if actions == [] {
      assert [a][1..] == [];
    } else {
      assert (actions + [a])[1..] == actions[1..] + [a];
      RunThen(Apply(s, actions[0]), actions[1..], a);
    }
  }

  /** The licence issued and signed, its issuer gone, and two retrievals past their read. */
  function TwoReaders(order: Order): State {
    State([Licence(true, false)], [KeyRow(order, 0, Minted, 0, false, Some(1), 1)], [Issuer(order, MarkingNew(0))],
          [Retriever(0, Consuming(0, 1)), Retriever(0, Consuming(0, 1))], 2, [KeyRead(0, 0), KeyRead(0, 1)])
  }

  lemma TwoReadersReachable(order: Order) returns (actions: seq<Action>)
    ensures Run(Initial, actions) == TwoReaders(order)
  {
    var a3 := OneIssued(order);
    var a4 := a3 + [Present(0)] + [Present(0)];
    RunThen(Initial, a3, Present(0));
    RunThen(Initial, a3 + [Present(0)], Present(0));
    var a5 := a4 + [RetrieverStep(0, Success, false)];
    RunThen(Initial, a4, RetrieverStep(0, Success, false));
    var a6 := a5 + [RetrieverStep(1, Success, false)];
    RunThen(Initial, a5, RetrieverStep(1, Success, false));
    var a7 := a6 + [RetrieverStep(0, Success, false)];
    RunThen(Initial, a6, RetrieverStep(0, Success, false));
    actions := a7 + [RetrieverStep(1, Success, false)];
    RunThen(Initial, a7, RetrieverStep(1, Success, false));
  }

  /** One licence, created and signed. */
  lemma OneIssued(order: Order) returns (actions: seq<Action>)
    ensures Run(Initial, actions) == State(
      [Licence(true, false)], [KeyRow(order, 0, Minted, 0, false, Some(1), 1)], [Issuer(order, MarkingNew(0))], [], 2, [])
  {
    var a0 := [Issue(order)];
    RunThen(Initial, [], Issue(order));
    assert [] + [Issue(order)] == a0;
    var a1 := a0 + [IssuerStep(0, Success)];
    RunThen(Initial, a0, IssuerStep(0, Success));
    actions := a1 + [IssuerStep(0, Success)];
    RunThen(Initial, a1, IssuerStep(0, Success));
  }

  /**
   A retrieval whose read and consume are split by a delivery retry returns the key a second
   time: two retrievals read, one returns, a second issuer resets the token, the other returns.
   */
  lemma SplitRetrievalReturnsTwice(order: Order) returns (actions: seq<Action>)
    ensures var log := Run(Initial, actions).log;
      |log| == 5 && log[2] == KeyReturned(0, 0) && log[3] == TokenReset(0) && log[4] == KeyReturned(0, 1)
  {
    var b := TwoReadersReachable(order);
    var b0 := b + [RetrieverStep(0, Success, false)];
    RunThen(Initial, b, RetrieverStep(0, Success, false));
    var b1 := b0 + [Issue(order)];
    RunThen(Initial, b0, Issue(order));
    var b2 := b1 + [IssuerStep(1, Success)];
    RunThen(Initial, b1, IssuerStep(1, Success));
    var b3 := b2 + [IssuerStep(1, Success)];
    RunThen(Initial, b2, IssuerStep(1, Success));
    assert Run(Initial, b3).issuers[1].pc == RetrySigning(0);
    var b4 := b3 + [IssuerStep(1, Success)];
    RunThen(Initial, b3, IssuerStep(1, Success));
    var b5 := b4 + [IssuerStep(1, Success)];
    RunThen(Initial, b4, IssuerStep(1, Success));
    actions := b5 + [RetrieverStep(1, Success, false)];
    RunThen(Initial, b5, RetrieverStep(1, Success, false));
  }
}
