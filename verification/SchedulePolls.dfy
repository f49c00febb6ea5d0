/**
 The traversal cursor shared by overlapping schedule polls.

 A poll reads the cursor object, fetches at most fifty due rows after it, and handles them one
 by one. It may start a row, or replace the cursor, only while the object it holds is still the
 current one. An object is a number that is never used twice, so equality of numbers is identity
 of objects; the code between two awaits is one step.
 */
module SchedulePolls {
  import opened Wrappers

  const PAGE_SIZE: nat := 50

  datatype Cursor = Cursor(identity: nat, afterId: Option<nat>)

  predicate Ascending(s: seq<nat>) {
    forall i, j | 0 <= i < j < |s| :: s[i] < s[j]
  }

  /** The due rows in the order of their ids. */
  type DueRows = s: seq<nat> | Ascending(s)

  datatype Phase =
    | FetchingAfter
    | FetchingAll
    | InRow(rows: seq<nat>, processed: nat)
    | Done

  datatype Poll = Poll(cursor: Cursor, phase: Phase)

  /** A replacement of the cursor: who, the object that poll held, the object replaced, the new one. */
  datatype Install = Install(poll: nat, held: nat, replaced: nat, installed: nat)

  /** A row start, with the object the poll held and the object that was current. */
  datatype Start = Start(poll: nat, row: nat, held: nat, current: nat)

  /** `advanced` lists the rows the cursor was moved to, in order. */
  datatype State = State(current: Cursor, polls: seq<Poll>, starts: seq<Start>, installs: seq<Install>, advanced: seq<nat>)

  datatype Action =
    | Begin
    | Fetched(poll: nat, due: DueRows, expired: bool)
    | FetchFailed(poll: nat)
    | RowFinished(poll: nat, workerUnavailable: bool, expired: bool)

  const Initial := State(Cursor(0, None), [], [], [], [])

  // ---------- the query ----------

  function Above(due: seq<nat>, after: Option<nat>): seq<nat> {
    if due == [] then []
    else if after.None? || due[0] > after.value then [due[0]] + Above(due[1..], after)
    else Above(due[1..], after)
  }

  function PageOf(due: seq<nat>, after: Option<nat>): seq<nat> {
    var rows := Above(due, after);
    if |rows| <= PAGE_SIZE then rows else rows[..PAGE_SIZE]
  }

  /** The first fifty of the due rows after a position, in order of their ids. */
  ghost predicate IsPage(rows: seq<nat>, due: seq<nat>, after: Option<nat>) {
    && Ascending(rows) && |rows| <= 50
    && (forall x | x in rows :: x in due && (after.None? || x > after.value))
    && (forall x | x in due && (after.None? || x > after.value) && x !in rows ::
          |rows| == 50 && forall y | y in rows :: y < x)
  }

  /** Does the poll find nothing after its cursor and begin again? */
  ghost predicate StartsOver(due: seq<nat>, after: Option<nat>) {
    after.Some? && forall x | x in due :: x <= after.value
  }

  /** The rows are started in order until the budget is spent, a worker is missing, or none is left. */
  ghost predicate StartsUntil(started: seq<nat>, rows: seq<nat>, budget: nat, unavailable: set<nat>) {
    && started <= rows && |started| <= budget
    && (forall i | 0 <= i < |started| - 1 :: started[i] !in unavailable)
    && (|started| < |rows| && |started| < budget ==> started != [] && started[|started| - 1] in unavailable)
  }

  // ---------- one poll's steps ----------

  predicate Owns(s: State, i: nat) {
    i < |s.polls| && s.polls[i].cursor.identity == s.current.identity
  }

  function Become(s: State, i: nat, phase: Phase): State
    requires i < |s.polls|
  {
    s.(polls := s.polls[i := s.polls[i].(phase := phase)])
  }

  /** Replace the cursor object if this poll still owns it and the value differs. */
  function AdvanceCursor(s: State, i: nat, afterId: Option<nat>): State
    requires i < |s.polls|
  {
    if !Owns(s, i) || s.polls[i].cursor.afterId == afterId then s
    else
      var next := Cursor(|s.installs| + 1, afterId);
      s.(current := next, polls := s.polls[i := s.polls[i].(cursor := next)],
         installs := s.installs + [Install(i, s.polls[i].cursor.identity, s.current.identity, next.identity)],
         advanced := if afterId.Some? then s.advanced + [afterId.value] else s.advanced)
  }

  function AfterLoop(s: State, i: nat, rows: seq<nat>, processed: nat): State
    requires i < |s.polls|
  {
    Become(if processed == |rows| < PAGE_SIZE then AdvanceCursor(s, i, None) else s, i, Done)
  }

  function LoopHead(s: State, i: nat, rows: seq<nat>, processed: nat, expired: bool): State
    requires i < |s.polls|
  {
    if processed >= |rows| || expired || !Owns(s, i) then AfterLoop(s, i, rows, processed)
    else
      Become(s, i, InRow(rows, processed)).(
        starts := s.starts + [Start(i, rows[processed], s.polls[i].cursor.identity, s.current.identity)])
  }

  /** One step; a step that is not enabled does nothing. */
  function Apply(s: State, a: Action): State {
    match a
    case Begin => s.(polls := s.polls + [Poll(s.current, FetchingAfter)])
    case Fetched(i, due, expired) =>
      if i >= |s.polls| || !(s.polls[i].phase.FetchingAfter? || s.polls[i].phase.FetchingAll?) then s
      else if !Owns(s, i) then Become(s, i, Done)
      else if s.polls[i].phase.FetchingAll? then LoopHead(s, i, PageOf(due, None), 0, expired)
      else
        var rows := PageOf(due, s.polls[i].cursor.afterId);
        if rows == [] && s.polls[i].cursor.afterId.Some?
        then Become(AdvanceCursor(s, i, None), i, FetchingAll)
        else LoopHead(s, i, rows, 0, expired)
    case FetchFailed(i) =>
      if i < |s.polls| && (s.polls[i].phase.FetchingAfter? || s.polls[i].phase.FetchingAll?) then Become(s, i, Done) else s
    case RowFinished(i, workerUnavailable, expired) =>
      if i >= |s.polls| || !s.polls[i].phase.InRow? then s
      else
        var rows, processed := s.polls[i].phase.rows, s.polls[i].phase.processed;
        if processed >= |rows| || !Owns(s, i) then Become(s, i, Done)
        else
          var advanced := AdvanceCursor(s, i, Some(rows[processed]));
          if workerUnavailable then AfterLoop(advanced, i, rows, processed + 1)
          else LoopHead(advanced, i, rows, processed + 1, expired)
  }

  function Run(s: State, actions: seq<Action>): State
    decreases |actions|
  {
    if actions == [] then s else Run(Apply(s, actions[0]), actions[1..])
  }

  // ---------- the order in which rows come up ----------

  /** `b` comes after `a` in the cyclic order, with no row of `F` between them. */
  predicate CyclicStep(F: set<nat>, a: nat, b: nat) {
    if a < b then forall x | x in F :: !(a < x < b)
    else forall x | x in F :: b <= x <= a
  }

  predicate CyclicChain(F: set<nat>, s: seq<nat>) {
    forall k | 0 <= k < |s| - 1 :: CyclicStep(F, s[k], s[k + 1])
  }

  /** No row of `F` lies between the cursor's position and `b`. */
  predicate Next(F: set<nat>, after: Option<nat>, b: nat) {
    match after
    case None => forall x | x in F :: b <= x
    case Some(a) => a < b && forall x | x in F :: !(a < x < b)
  }

  /** The rows from `k` on lead from the cursor's position through `F` without a gap. */
  predicate Covers(F: set<nat>, after: Option<nat>, rows: seq<nat>, k: nat) {
    && k <= |rows| && Ascending(rows)
    && (k < |rows| ==> Next(F, after, rows[k]))
    && (k == |rows| ==> after == if rows == [] then None else Some(rows[|rows| - 1]))
    && (forall i, x | 0 <= i < |rows| - 1 && x in F :: !(rows[i] < x < rows[i + 1]))
    && (|rows| < PAGE_SIZE ==> forall x | x in F && |rows| > 0 :: x <= rows[|rows| - 1])
  }

  lemma {:induction false} AboveFacts(due: seq<nat>, after: Option<nat>)
    requires Ascending(due)
    ensures Ascending(Above(due, after))
    ensures forall x :: x in Above(due, after) <==> x in due && (after.None? || x > after.value)
  {
    if due != [] {
      AboveFacts(due[1..], after);
      var rest := Above(due[1..], after);
      forall i | 0 <= i < |rest| ensures rest[i] > due[0] { assert rest[i] in rest; }
      assert due == [due[0]] + due[1..];
    }
  }

  lemma PageOfIsPage(due: seq<nat>, after: Option<nat>)
    requires Ascending(due)
    ensures IsPage(PageOf(due, after), due, after)
    ensures PageOf(due, after) == [] && after.Some? <==> StartsOver(due, after)
  {
    hide Above;
    AboveFacts(due, after);
    var all, rows := Above(due, after), PageOf(due, after);
    assert forall x | x in rows :: x in all;
    forall x | x in due && (after.None? || x > after.value) && x !in rows
      ensures |rows| == 50 && forall y | y in rows :: y < x
    {
      assert x in all;
      var j :| 0 <= j < |all| && all[j] == x;
      assert forall i | 0 <= i < |rows| :: rows[i] == all[i] && rows[i] in rows;
    }
    if all != [] { assert all[0] in all && rows[0] == all[0]; }
  }

  function Members(s: seq<nat>): set<nat> { set x | x in s }

  lemma {:induction false} AscendingSize(s: seq<nat>)
    requires Ascending(s)
    ensures |Members(s)| == |s|
  {
    if s == [] {
      assert Members(s) == {};
    } else {
      var front, last := s[..|s| - 1], s[|s| - 1];
      AscendingSize(front);
      assert last !in front;
      assert s == front + [last];
      MembersThen(front, last);
    }
  }

  lemma MembersThen(s: seq<nat>, x: nat)
    ensures Members(s + [x]) == Members(s) + {x}
  {
  }

  lemma {:induction false} AscendingIsUnique(a: seq<nat>, b: seq<nat>)
    requires Ascending(a) && Ascending(b) && forall x :: x in a <==> x in b
    ensures a == b
  {
    assert b != [] ==> b[0] in b;
    if a != [] {
      assert a[0] in a && b != [];
      assert b[0] in b && a[0] == b[0];
      assert a == [a[0]] + a[1..] && b == [b[0]] + b[1..];
      forall x ensures x in a[1..] <==> x in b[1..] {
        assert x in a[1..] ==> x in a && x > a[0];
        assert x in b[1..] ==> x in b && x > b[0];
      }
      AscendingIsUnique(a[1..], b[1..]);
    }
  }

  /** There is one such page. */
  lemma PageIsUnique(a: seq<nat>, b: seq<nat>, due: seq<nat>, after: Option<nat>)
    requires IsPage(a, due, after) && IsPage(b, due, after)
    ensures a == b
  {
    NoneMissing(a, b, due, after);
    NoneMissing(b, a, due, after);
    AscendingIsUnique(a, b);
  }

  lemma NoneMissing(a: seq<nat>, b: seq<nat>, due: seq<nat>, after: Option<nat>)
    requires IsPage(a, due, after) && IsPage(b, due, after)
    ensures forall x | x in a :: x in b
  {
    forall x | x in a ensures x in b {
      if x !in b {
        AscendingSize(a);
        AscendingSize(b);
        assert forall y | y in b :: y < x;
        forall y | y in b ensures y in a { }
        assert Members(b) <= Members(a) && x in Members(a) && x !in Members(b);
        Smaller(Members(b), Members(a));
      }
    }
  }

  lemma Smaller(a: set<nat>, b: set<nat>)
    requires a < b
    ensures |a| < |b|
  {
    var rest := b - a;
    assert b == a + rest && a !! rest && rest != {};
  }

  lemma NothingBetweenNeighbours(s: seq<nat>, i: nat, x: nat)
    requires Ascending(s) && x in s && i < |s|
    ensures i + 1 < |s| ==> !(s[i] < x < s[i + 1])
    ensures s[0] <= x <= s[|s| - 1]
  {
    var j :| 0 <= j < |s| && s[j] == x;
  }

  /** A fetched page leads on from the cursor, whatever else is due. */
  lemma PageCovers(F: set<nat>, due: seq<nat>, after: Option<nat>)
    requires Ascending(due) && forall x | x in F :: x in due
    ensures var rows := PageOf(due, after);
      && (rows != [] ==> Covers(F, after, rows, 0))
      && (rows == [] ==> forall x | x in F :: after.Some? && x <= after.value)
  {
    hide Above;
    AboveFacts(due, after);
    var all, rows := Above(due, after), PageOf(due, after);
    if rows != [] {
      assert rows[0] in all;
      forall x | x in F && (after.None? || x > after.value) ensures x in all { }
      forall x | x in F && x in all ensures rows[0] <= x {
        NothingBetweenNeighbours(all, 0, x);
      }
      forall i, x | 0 <= i < |rows| - 1 && x in F ensures !(rows[i] < x < rows[i + 1]) {
        NoGap(F, all, after, rows, i, x);
      }
      if |rows| < PAGE_SIZE {
        forall x | x in F ensures x <= rows[|rows| - 1] {
          if x in all { NothingBetweenNeighbours(all, 0, x); }
        }
      }
    }
  }

  lemma NoGap(F: set<nat>, all: seq<nat>, after: Option<nat>, rows: seq<nat>, i: nat, x: nat)
    requires Ascending(all) && rows <= all && i + 1 < |rows|
    requires forall y | y in all :: after.None? || y > after.value
    requires after.None? || x > after.value ==> x in all
    ensures !(rows[i] < x < rows[i + 1])
  {
    assert rows[i] == all[i] && rows[i + 1] == all[i + 1] && all[i] in all;
    if x in all { NothingBetweenNeighbours(all, i, x); }
  }

  // ---------- the invariant of every run ----------

  /** Ownership: each install is by the holder of the object it replaces, and no object is reused. */
  ghost predicate Owned(s: State) {
    && s.current.identity == |s.installs|
    && (forall k | 0 <= k < |s.installs| ::
          s.installs[k].held == k && s.installs[k].replaced == k && s.installs[k].installed == k + 1)
    && (forall i | 0 <= i < |s.polls| :: s.polls[i].cursor.identity <= s.current.identity)
    && (forall i | 0 <= i < |s.polls| && Owns(s, i) :: s.polls[i].cursor == s.current)
    && (forall x | x in s.starts :: x.held == x.current)
  }

  /** Traversal: the cursor's moves follow the cyclic order of `F`. */
  ghost predicate Ordered(F: set<nat>, s: State) {
    && CyclicChain(F, s.advanced)
    && (s.current.afterId.Some? ==> s.advanced != [] && s.advanced[|s.advanced| - 1] == s.current.afterId.value)
    && (s.current.afterId.None? && s.advanced != [] ==> forall x | x in F :: x <= s.advanced[|s.advanced| - 1])
  }

  /** What a poll in the middle of its work relies on while it owns the cursor. */
  ghost predicate InOrder(F: set<nat>, s: State, i: nat)
    requires i < |s.polls|
  {
    Owns(s, i) ==>
      match s.polls[i].phase
      case FetchingAll => s.current.afterId.None?
      case InRow(rows, k) => k < |rows| && Covers(F, s.current.afterId, rows, k)
      case _ => true
  }

  ghost predicate Inv(F: set<nat>, s: State) {
    Owned(s) && Ordered(F, s) && forall i | 0 <= i < |s.polls| :: InOrder(F, s, i)
  }

  /** Between two steps of poll `i`: its own phase is about to change. */
  ghost predicate InvBut(F: set<nat>, s: State, i: nat) {
    && i < |s.polls| && Owned(s) && Ordered(F, s)
    && forall j | 0 <= j < |s.polls| && j != i :: InOrder(F, s, j)
  }

  lemma BecomeKeepsInv(F: set<nat>, s: State, i: nat, phase: Phase)
    requires InvBut(F, s, i)
    requires Owns(s, i) ==>
      match phase
      case FetchingAll => s.current.afterId.None?
      case InRow(rows, k) => k < |rows| && Covers(F, s.current.afterId, rows, k)
      case _ => true
    ensures Inv(F, Become(s, i, phase))
  {
    hide Covers, CyclicChain;
    var after := Become(s, i, phase);
    forall j | 0 <= j < |s.polls| ensures InOrder(F, after, j) {
      if j != i { assert InOrder(F, s, j); }
    }
  }

  lemma AdvanceKeepsInv(F: set<nat>, s: State, i: nat, afterId: Option<nat>)
    requires InvBut(F, s, i)
    requires Owns(s, i) && s.current.afterId != afterId ==>
      match afterId
      case None => forall x | x in F :: s.current.afterId.Some? ==> x <= s.current.afterId.value
      case Some(b) => Next(F, s.current.afterId, b)
    ensures var after := AdvanceCursor(s, i, afterId);
      && InvBut(F, after, i) && (Owns(after, i) <==> Owns(s, i)) && (Owns(s, i) ==> after.current.afterId == afterId)
  {
    hide Covers;
    var after := AdvanceCursor(s, i, afterId);
    if after != s {
      forall j | 0 <= j < |s.polls| && j != i ensures !Owns(after, j) { }
      if afterId.Some? && s.advanced != [] {
        assert CyclicStep(F, s.advanced[|s.advanced| - 1], afterId.value);
      }
    }
  }

  lemma AfterLoopKeepsInv(F: set<nat>, s: State, i: nat, rows: seq<nat>, processed: nat)
    requires InvBut(F, s, i) && (Owns(s, i) ==> Covers(F, s.current.afterId, rows, processed))
    ensures Inv(F, AfterLoop(s, i, rows, processed))
  {
    if processed == |rows| < PAGE_SIZE {
      AdvanceKeepsInv(F, s, i, None);
      BecomeKeepsInv(F, AdvanceCursor(s, i, None), i, Done);
    } else {
      BecomeKeepsInv(F, s, i, Done);
    }
  }

  lemma LoopHeadKeepsInv(F: set<nat>, s: State, i: nat, rows: seq<nat>, processed: nat, expired: bool)
    requires InvBut(F, s, i) && (Owns(s, i) ==> Covers(F, s.current.afterId, rows, processed))
    ensures Inv(F, LoopHead(s, i, rows, processed, expired))
  {
    hide Covers, CyclicChain;
    if processed >= |rows| || expired || !Owns(s, i) {
      AfterLoopKeepsInv(F, s, i, rows, processed);
    } else {
      BecomeKeepsInv(F, s, i, InRow(rows, processed));
      var before, after := Become(s, i, InRow(rows, processed)), LoopHead(s, i, rows, processed, expired);
      forall j | 0 <= j < |s.polls| ensures InOrder(F, after, j) { assert InOrder(F, before, j); }
    }
  }

  /** Every fetch sees at least the rows of `F`. */
  predicate Sees(F: set<nat>, a: Action) {
    a.Fetched? ==> forall x | x in F :: x in a.due
  }

  predicate AllSee(F: set<nat>, actions: seq<Action>) {
    forall a | a in actions :: Sees(F, a)
  }

  lemma FetchedKeepsInv(F: set<nat>, s: State, i: nat, due: DueRows, expired: bool)
    requires Inv(F, s) && Sees(F, Fetched(i, due, expired))
    ensures Inv(F, Apply(s, Fetched(i, due, expired)))
  {
    hide Covers, Owned, Ordered, PageOf, LoopHead, Become, AdvanceCursor;
    if i < |s.polls| && (s.polls[i].phase.FetchingAfter? || s.polls[i].phase.FetchingAll?) {
      if !Owns(s, i) {
        BecomeKeepsInv(F, s, i, Done);
      } else if s.polls[i].phase.FetchingAll? {
        assert InOrder(F, s, i);
        FirstRows(F, s, i, due, None, expired);
      } else {
        var after := s.polls[i].cursor.afterId;
        assert after == s.current.afterId by { OwnerHoldsCurrent(s, i); }
        if PageOf(due, after) == [] && after.Some? {
          PageCovers(F, due, after);
          AdvanceKeepsInv(F, s, i, None);
          BecomeKeepsInv(F, AdvanceCursor(s, i, None), i, FetchingAll);
        } else {
          FirstRows(F, s, i, due, after, expired);
        }
      }
    }
  }

  lemma OwnerHoldsCurrent(s: State, i: nat)
    requires Owned(s) && Owns(s, i)
    ensures s.polls[i].cursor == s.current
  {
  }

  lemma FirstRows(F: set<nat>, s: State, i: nat, due: DueRows, after: Option<nat>, expired: bool)
    requires Inv(F, s) && Owns(s, i) && s.current.afterId == after && Sees(F, Fetched(i, due, expired))
    requires PageOf(due, after) == [] ==> after.None?
    ensures Inv(F, LoopHead(s, i, PageOf(due, after), 0, expired))
  {
    PageCovers(F, due, after);
    LoopHeadKeepsInv(F, s, i, PageOf(due, after), 0, expired);
  }

  lemma FinishedKeepsInv(F: set<nat>, s: State, a: Action)
    requires Inv(F, s) && a.RowFinished?
    ensures Inv(F, Apply(s, a))
  {
    var i := a.poll;
    hide Owned, Ordered, AfterLoop, LoopHead, AdvanceCursor;
    if i < |s.polls| && s.polls[i].phase.InRow? {
      var rows, processed := s.polls[i].phase.rows, s.polls[i].phase.processed;
      if processed >= |rows| || !Owns(s, i) {
        BecomeKeepsInv(F, s, i, Done);
      } else {
        assert InOrder(F, s, i);
        AdvanceKeepsInv(F, s, i, Some(rows[processed]));
        var advanced := AdvanceCursor(s, i, Some(rows[processed]));
        assert Covers(F, Some(rows[processed]), rows, processed + 1);
        if a.workerUnavailable {
          AfterLoopKeepsInv(F, advanced, i, rows, processed + 1);
        } else {
          LoopHeadKeepsInv(F, advanced, i, rows, processed + 1, a.expired);
        }
      }
    }
  }

  lemma StepKeepsInv(F: set<nat>, s: State, a: Action)
    requires Inv(F, s) && Sees(F, a)
    ensures Inv(F, Apply(s, a))
  {
    hide Covers;
    match a
    case Begin =>
      var after := Apply(s, a);
      forall i | 0 <= i < |after.polls| ensures InOrder(F, after, i) {
        if i < |s.polls| { assert InOrder(F, s, i); }
      }
    case Fetched(i, due, expired) => FetchedKeepsInv(F, s, i, due, expired);
    case FetchFailed(i) =>
      if i < |s.polls| { BecomeKeepsInv(F, s, i, Done); }
    case RowFinished(_, _, _) => FinishedKeepsInv(F, s, a);
  }

  lemma {:induction false} RunKeepsInv(F: set<nat>, s: State, actions: seq<Action>)
    requires Inv(F, s) && AllSee(F, actions)
    ensures Inv(F, Run(s, actions))
    decreases |actions|
  {
    hide Inv, Apply, Sees;
    if actions != [] {
      assert Sees(F, actions[0]);
      StepKeepsInv(F, s, actions[0]);
      RunKeepsInv(F, Apply(s, actions[0]), actions[1..]);
    }
  }

  lemma InitialInv(F: set<nat>)
    ensures Inv(F, Initial)
  {
  }

  // ---------- ownership, over all interleavings ----------

  /** Every start and every replacement is by a poll holding the object that is then current. */
  lemma OnlyTheHolderActs(actions: seq<Action>)
    ensures var s := Run(Initial, actions);
      && (forall x | x in s.starts :: x.held == x.current)
      && (forall k | 0 <= k < |s.installs| :: s.installs[k].held == s.installs[k].replaced)
      && (forall j, k | 0 <= j < k < |s.installs| :: s.installs[j].replaced != s.installs[k].replaced)
  {
    hide Apply, Run;
    InitialInv({});
    assert AllSee({}, actions);
    RunKeepsInv({}, Initial, actions);
  }

  /** The rows a poll has started. */
  function StartsOf(s: seq<Start>, i: nat): nat {
    if s == [] then 0 else StartsOf(s[..|s| - 1], i) + (if s[|s| - 1].poll == i then 1 else 0)
  }

  /** Nothing of a poll without the cursor has changed. */
  ghost predicate StillLost(s: State, after: State, i: nat) {
    && i < |s.polls| <= |after.polls| && !Owns(s, i) && !Owns(after, i)
    && StartsOf(after.starts, i) == StartsOf(s.starts, i)
  }

  lemma AdvanceStillLost(s: State, j: nat, afterId: Option<nat>, i: nat)
    requires Owned(s) && i < |s.polls| && !Owns(s, i) && j < |s.polls|
    ensures StillLost(s, AdvanceCursor(s, j, afterId), i) && AdvanceCursor(s, j, afterId).starts == s.starts
  {
  }

  lemma LoopHeadStillLost(s: State, t: State, j: nat, rows: seq<nat>, processed: nat, expired: bool, i: nat)
    requires Owned(t) && StillLost(s, t, i) && j < |t.polls|
    ensures StillLost(s, LoopHead(t, j, rows, processed, expired), i)
    ensures StillLost(s, AfterLoop(t, j, rows, processed), i)
  {
    hide AdvanceCursor, Owned;
    AdvanceStillLost(t, j, None, i);
  }

  lemma AdvanceKeepsOwned(s: State, i: nat, afterId: Option<nat>)
    requires Owned(s) && i < |s.polls|
    ensures Owned(AdvanceCursor(s, i, afterId))
  {
  }

  lemma LostStep(s: State, a: Action, i: nat)
    requires Owned(s) && i < |s.polls| && !Owns(s, i)
    ensures StillLost(s, Apply(s, a), i)
  {
    hide LoopHead, AfterLoop, AdvanceCursor, Owned;
    if (a.Fetched? || a.RowFinished?) && a.poll < |s.polls| {
      var p := s.polls[a.poll];
      if a.Fetched? {
        LoopHeadStillLost(s, s, a.poll, PageOf(a.due, None), 0, a.expired, i);
        LoopHeadStillLost(s, s, a.poll, PageOf(a.due, p.cursor.afterId), 0, a.expired, i);
        AdvanceStillLost(s, a.poll, None, i);
      } else if p.phase.InRow? && p.phase.processed < |p.phase.rows| {
        var rows, processed := p.phase.rows, p.phase.processed;
        AdvanceStillLost(s, a.poll, Some(rows[processed]), i);
        AdvanceKeepsOwned(s, a.poll, Some(rows[processed]));
        var next := AdvanceCursor(s, a.poll, Some(rows[processed]));
        LoopHeadStillLost(s, next, a.poll, rows, processed + 1, a.RowFinished? && a.expired, i);
      }
    }
  }

  /** A poll that lost the cursor never owns it again and never starts another row. */
  lemma {:induction false} LostPollStartsNothing(s: State, actions: seq<Action>, i: nat)
    requires Inv({}, s) && i < |s.polls| && !Owns(s, i)
    ensures StillLost(s, Run(s, actions), i)
    decreases |actions|
  {
    hide Apply, Inv, Sees;
    if actions != [] {
      StepKeepsInv({}, s, actions[0]) by { assert Sees({}, actions[0]) by { SeesNothing(actions[0]); } }
      LostStep(s, actions[0], i) by { InvIsOwned(s); }
      LostPollStartsNothing(Apply(s, actions[0]), actions[1..], i);
    }
  }

  lemma SeesNothing(a: Action)
    ensures Sees({}, a)
  {
  }

  lemma InvIsOwned(s: State)
    requires Inv({}, s)
    ensures Owned(s)
  {
  }

  // ---------- turns ----------

  lemma {:induction false} StaysAside(F: set<nat>, s: seq<nat>, i: nat, k: nat, x: nat)
    requires CyclicChain(F, s) && i < k < |s| && x in F && x != s[i]
    requires forall m | i < m <= k :: s[m] != x
    ensures if s[i] < x then s[i] < s[k] < x else s[k] > s[i] || s[k] < x
  {
    assert CyclicStep(F, s[k - 1], s[k - 1 + 1]);
    if i < k - 1 { StaysAside(F, s, i, k - 1, x); }
  }

  /** Between two visits of the same row a cyclic chain visits every other row of `F`. */
  lemma ComesBetween(F: set<nat>, s: seq<nat>, i: nat, j: nat, x: nat)
    requires CyclicChain(F, s) && i < j < |s| && s[i] == s[j] && x in F && x != s[i]
    ensures exists k :: i < k < j && s[k] == x
  {
    if forall k | i < k < j :: s[k] != x {
      StaysAside(F, s, i, j, x);
    }
  }

  /**
   Whatever the interleaving, the cursor passes every row that stays due between any two times
   it passes the same row.
   */
  lemma CursorPassesEveryDueRow(F: set<nat>, actions: seq<Action>, i: nat, j: nat, x: nat)
    requires AllSee(F, actions) && x in F
    requires var passed := Run(Initial, actions).advanced; i < j < |passed| && passed[i] == passed[j] && passed[i] != x
    ensures var passed := Run(Initial, actions).advanced; exists k :: i < k < j && passed[k] == x
  {
    hide Apply, Run, CyclicChain;
    InitialInv(F);
    RunKeepsInv(F, Initial, actions);
    ComesBetween(F, Run(Initial, actions).advanced, i, j, x);
  }

  // ---------- polls that do not overlap ----------

  function Rows(starts: seq<Start>): (r: seq<nat>)
    ensures |r| == |starts| && forall k | 0 <= k < |r| :: r[k] == starts[k].row
  {
    seq(|starts|, k requires 0 <= k < |starts| => starts[k].row)
  }

  predicate Idle(s: State) { forall p | p in s.polls :: p.phase.Done? }

  /** A poll begins only when every earlier one has ended. */
  predicate NonOverlapping(s: State, actions: seq<Action>)
    decreases |actions|
  {
    actions == [] || ((actions[0].Begin? ==> Idle(s)) && NonOverlapping(Apply(s, actions[0]), actions[1..]))
  }

  /** The row being handled, if any. */
  function Pending(s: State): seq<nat> {
    if s.polls == [] then []
    else
      match s.polls[|s.polls| - 1].phase
      case InRow(rows, k) => if k < |rows| then [rows[k]] else []
      case _ => []
  }

  /** Only the latest poll is under way, it owns the cursor, and the starts are what the cursor passed. */
  ghost predicate Alone(s: State) {
    && (forall i | 0 <= i < |s.polls| && !s.polls[i].phase.Done? :: i == |s.polls| - 1 && Owns(s, i))
    && Rows(s.starts) == s.advanced + Pending(s)
  }

  /** As `Alone`, between two steps of the latest poll. */
  ghost predicate AloneBut(s: State, i: nat) {
    && i == |s.polls| - 1 && Owns(s, i)
    && (forall j | 0 <= j < i :: s.polls[j].phase.Done?)
    && Rows(s.starts) == s.advanced
  }

  lemma LoopHeadKeepsAlone(s: State, i: nat, rows: seq<nat>, processed: nat, expired: bool)
    requires AloneBut(s, i)
    ensures Alone(LoopHead(s, i, rows, processed, expired)) && Alone(AfterLoop(s, i, rows, processed))
  {
  }

  lemma StepKeepsAlone(s: State, a: Action)
    requires Inv({}, s) && Alone(s) && (a.Begin? ==> Idle(s))
    ensures Alone(Apply(s, a))
  {
    hide Inv, LoopHead, AfterLoop;
    match a
    case Begin =>
    case Fetched(_, _, _) => FetchKeepsAlone(s, a);
    case FetchFailed(i) =>
    case RowFinished(_, _, _) => RowKeepsAlone(s, a);
  }

  lemma FetchKeepsAlone(s: State, a: Action)
    requires Alone(s) && a.Fetched?
    ensures Alone(Apply(s, a))
  {
    hide LoopHead, AfterLoop, PageOf;
    var i := a.poll;
    if i < |s.polls| && (s.polls[i].phase.FetchingAfter? || s.polls[i].phase.FetchingAll?) {
      assert AloneBut(s, i);
      LoopHeadKeepsAlone(s, i, PageOf(a.due, None), 0, a.expired);
      LoopHeadKeepsAlone(s, i, PageOf(a.due, s.polls[i].cursor.afterId), 0, a.expired);
    }
  }

  lemma RowKeepsAlone(s: State, a: Action)
    requires Inv({}, s) && Alone(s) && a.RowFinished?
    ensures Alone(Apply(s, a))
  {
    hide Inv, LoopHead, AfterLoop;
    var i := a.poll;
    if i < |s.polls| && s.polls[i].phase.InRow? {
      var rows, processed := s.polls[i].phase.rows, s.polls[i].phase.processed;
      RowLeadsOn(s, i);
      var advanced := AdvanceCursor(s, i, Some(rows[processed]));
      assert AloneBut(advanced, i);
      LoopHeadKeepsAlone(advanced, i, rows, processed + 1, a.expired);
    }
  }

  /** The row being handled by the owner is not where the cursor already is. */
  lemma RowLeadsOn(s: State, i: nat)
    requires Inv({}, s) && i < |s.polls| && s.polls[i].phase.InRow? && Owns(s, i)
    ensures var rows, processed := s.polls[i].phase.rows, s.polls[i].phase.processed;
      processed < |rows| && s.polls[i].cursor.afterId != Some(rows[processed])
  {
    assert InOrder({}, s, i);
  }

  lemma {:induction false} RunKeepsAlone(s: State, actions: seq<Action>)
    requires Inv({}, s) && Alone(s) && NonOverlapping(s, actions)
    ensures Alone(Run(s, actions))
    decreases |actions|
  {
    hide Apply, Inv, Alone, Sees;
    if actions != [] {
      SeesNothing(actions[0]);
      StepKeepsInv({}, s, actions[0]);
      StepKeepsAlone(s, actions[0]);
      RunKeepsAlone(Apply(s, actions[0]), actions[1..]);
    }
  }

  /** Non-overlapping polls start rows in cyclic order. */
  lemma StartsFollowTheCycle(F: set<nat>, actions: seq<Action>)
    requires AllSee(F, actions) && NonOverlapping(Initial, actions)
    ensures CyclicChain(F, Rows(Run(Initial, actions).starts))
  {
    hide Apply, Run, Inv;
    InitialInv(F);
    InitialInv({});
    RunKeepsInv(F, Initial, actions);
    RunKeepsAlone(Initial, actions);
    PendingLeadsOn(F, Run(Initial, actions));
  }

  lemma PendingLeadsOn(F: set<nat>, s: State)
    requires Inv(F, s) && Alone(s)
    ensures CyclicChain(F, s.advanced + Pending(s))
  {
    if Pending(s) != [] {
      assert InOrder(F, s, |s.polls| - 1);
    }
  }

  /** Between two starts of the same row, every row that stays due throughout is started. */
  lemma NoDueRowIsSkipped(F: set<nat>, actions: seq<Action>, i: nat, j: nat, x: nat)
    requires AllSee(F, actions) && NonOverlapping(Initial, actions) && x in F
    requires var rows := Rows(Run(Initial, actions).starts); i < j < |rows| && rows[i] == rows[j] && rows[i] != x
    ensures var rows := Rows(Run(Initial, actions).starts); exists k :: i < k < j && rows[k] == x
  {
    hide Apply, Run, CyclicChain, NonOverlapping;
    StartsFollowTheCycle(F, actions);
    ComesBetween(F, Rows(Run(Initial, actions).starts), i, j, x);
  }

  /** Rows that stay due take turns: between two successive starts of one, each other starts exactly once. */
  lemma DueRowsTakeTurns(F: set<nat>, actions: seq<Action>, i: nat, j: nat, x: nat)
    requires AllSee(F, actions) && NonOverlapping(Initial, actions) && x in F
    requires var rows := Rows(Run(Initial, actions).starts);
      && i < j < |rows| && rows[i] == rows[j] && rows[i] != x && rows[i] in F
      && forall m | i < m < j :: rows[m] != rows[i]
    ensures var rows := Rows(Run(Initial, actions).starts);
      exists k :: i < k < j && rows[k] == x && forall m | i < m < j && rows[m] == x :: m == k
  {
    hide Apply, Run, AllSee, NonOverlapping;
    NoDueRowIsSkipped(F, actions, i, j, x);
    var rows := Rows(Run(Initial, actions).starts);
    var k :| i < k < j && rows[k] == x;
    forall m | i < m < j && rows[m] == x ensures m == k {
      if m < k { NoDueRowIsSkipped(F, actions, m, k, rows[i]); }
      if k < m { NoDueRowIsSkipped(F, actions, k, m, rows[i]); }
    }
  }

  /** Comparing cursor values instead of objects would let a poll that lost the cursor take it back. */
  lemma ValueReturnsObjectDoesNot()
    ensures exists actions ::
      var s := Run(Initial, actions);
      |s.polls| > 0 && s.polls[0].phase.InRow? && s.polls[0].cursor.afterId == s.current.afterId && !Owns(s, 0)
  {
    hide PageOf, LoopHead;
    OneRowDue();
    var begun := Apply(Apply(Initial, Begin), Begin);
    var one := Apply(begun, Fetched(0, [7], false));
    OneRowStarts(begun, 0);
    OneRowStarts(one, 1);
    var two := Apply(one, Fetched(1, [7], false));
    var three := Apply(two, RowFinished(1, false, false));
    OneRowEnds(two);
    hide Apply;
    var as1, as2 := [Begin], [Begin] + [Begin];
    var as3 := as2 + [Fetched(0, [7], false)];
    var as4 := as3 + [Fetched(1, [7], false)];
    RunThen(Initial, [], Begin);
    RunThen(Initial, as1, Begin);
    RunThen(Initial, as2, Fetched(0, [7], false));
    RunThen(Initial, as3, Fetched(1, [7], false));
    RunThen(Initial, as4, RowFinished(1, false, false));
    assert [] + [Begin] == as1;
    assert Run(Initial, as4 + [RowFinished(1, false, false)]) == three;
  }

  lemma OneRowDue()
    ensures PageOf([7], None) == [7]
  {
    assert Above([7][1..], None) == [];
  }

  lemma OneRowStarts(s: State, i: nat)
    requires Owns(s, i) && s.polls[i] == Poll(Cursor(0, None), FetchingAfter)
    ensures Apply(s, Fetched(i, [7], false)).polls == s.polls[i := Poll(Cursor(0, None), InRow([7], 0))]
    ensures Apply(s, Fetched(i, [7], false)).current == s.current && Apply(s, Fetched(i, [7], false)).installs == s.installs
  {
    OneRowDue();
  }

  lemma OneRowEnds(s: State)
    requires s.current == Cursor(0, None) && s.installs == []
    requires s.polls == [Poll(Cursor(0, None), InRow([7], 0)), Poll(Cursor(0, None), InRow([7], 0))]
    ensures var t := Apply(s, RowFinished(1, false, false));
      t.current == Cursor(2, None) && t.polls[0] == s.polls[0] && |t.polls| == 2
  {
    hide LoopHead;
    var next := AdvanceCursor(s, 1, Some(7));
    assert next.current == Cursor(1, Some(7)) && next.polls[0] == s.polls[0];
    OneRowResets(next);
  }

  lemma OneRowResets(s: State)
    requires s.current == Cursor(1, Some(7)) && |s.installs| == 1 && |s.polls| == 2 && s.polls[1].cursor == s.current
    ensures var t := LoopHead(s, 1, [7], 1, false);
      t.current == Cursor(2, None) && t.polls[0] == s.polls[0] && |t.polls| == 2
  {
  }

  lemma {:induction false} RunThen(s: State, actions: seq<Action>, last: Action)
    ensures Run(s, actions + [last]) == Apply(Run(s, actions), last)
    decreases |actions|
  {
    hide Apply;
    if actions == [] {
      assert [last][1..] == [];
    } else {
      assert (actions + [last])[1..] == actions[1..] + [last];
      RunThen(Apply(s, actions[0]), actions[1..], last);
    }
  }

  /** The steps lead from one state to the other without overlapping polls. */
  ghost predicate Follows(s: State, steps: seq<Action>, t: State) {
    Run(s, steps) == t && NonOverlapping(s, steps)
  }

  lemma {:induction false} Extend(s: State, steps: seq<Action>, t: State, last: Action)
    requires Follows(s, steps, t) && (last.Begin? ==> Idle(t))
    ensures Follows(s, steps + [last], Apply(t, last))
    decreases |steps|
  {
    hide Apply;
    RunThen(s, steps, last);
    if steps == [] {
      assert [] + [last] == [last] && [last][1..] == [];
      assert NonOverlapping(Apply(s, last), []);
    } else {
      assert (steps + [last])[1..] == steps[1..] + [last];
      Extend(Apply(s, steps[0]), steps[1..], t, last);
    }
  }

  // ---------- the poll itself ----------

  /** The process's module variable, and the steps it has taken. */
  class Runner {
    var dueScheduleCursor: Cursor
    ghost var machine: State

    ghost predicate Valid() reads this {
      machine.current == dueScheduleCursor && Owned(machine) && Idle(machine)
    }

    constructor ()
      ensures Valid() && machine == Initial
    {
      dueScheduleCursor, machine := Cursor(0, None), Initial;
    }

    /** Replace the module variable, if it is still the object held. */
    method Advance(cursor: Cursor, afterId: Option<nat>) returns (held: Cursor)
      modifies this`dueScheduleCursor
      ensures var owned := old(dueScheduleCursor).identity == cursor.identity;
        && (owned && cursor.afterId != afterId ==>
              held == dueScheduleCursor == Cursor(old(dueScheduleCursor).identity + 1, afterId))
        && (!(owned && cursor.afterId != afterId) ==> held == cursor && dueScheduleCursor == old(dueScheduleCursor))
    {
      held := cursor;
      if dueScheduleCursor.identity != cursor.identity { return; }
      if cursor.afterId != afterId {
        held := Cursor(dueScheduleCursor.identity + 1, afterId);
        dueScheduleCursor := held;
      }
    }

    /**
     One poll without interruption. `budget` is the number of rows that fit before the deadline,
     and `unavailable` the rows at which no worker answers.
     */
    method ProcessDueSchedules(due: DueRows, dueAgain: DueRows, budget: nat, unavailable: set<nat>)
      returns (started: seq<nat>, ghost rows: seq<nat>, ghost steps: seq<Action>)
      requires Valid()
      modifies this
      ensures Valid()
      ensures var after := old(dueScheduleCursor).afterId;
        var again := StartsOver(due, after);
        && IsPage(rows, if again then dueAgain else due, if again then None else after)
        && StartsUntil(started, rows, budget, unavailable)
        && dueScheduleCursor.afterId == (if started == rows && |rows| < 50 then None
                                         else if started != [] then Some(started[|started| - 1])
                                         else if again then None else after)
      ensures Follows(old(machine), steps, machine)
      ensures Rows(machine.starts) == Rows(old(machine).starts) + started
    {
      hide Owned, Follows, PageOf, Apply, LoopHead, AfterLoop, AdvanceCursor, Rows, Idle;
      ghost var before, i := machine, |machine.polls|;
      NoSteps(before);
      Extend(before, [], before, Begin);
      steps := [] + [Begin];
      ghost var m := Apply(before, Begin);
      BeginsAt(before);
      var cursor := dueScheduleCursor;
      PageOfIsPage(due, cursor.afterId);
      PageOfIsPage(dueAgain, None);
      var schedules := PageOf(due, cursor.afterId);
      ghost var fetch := Fetched(i, due, budget == 0);
      if schedules == [] && cursor.afterId.Some? {
        Extend(before, steps, m, fetch);
        steps := steps + [fetch];
        WrapsAt(m, i, cursor, due, budget == 0);
        m := Apply(m, fetch);
        cursor := Advance(cursor, None);
        schedules := PageOf(dueAgain, None);
        fetch := Fetched(i, dueAgain, budget == 0);
      }
      FetchesAt(m, i, cursor, fetch, schedules);
      Extend(before, steps, m, fetch);
      steps := steps + [fetch];
      rows := schedules;
      ghost var from := cursor.afterId;
      var processed := 0;
      var workerUnavailable := false;
      started := [];
      while processed < |schedules| && processed < budget && !workerUnavailable && dueScheduleCursor == cursor
        invariant processed <= |schedules| && dueScheduleCursor == cursor
        invariant At(m, i, cursor)
        invariant Follows(before, steps, Continue(m, i, schedules, processed, workerUnavailable, processed >= budget))
        invariant Rows(m.starts) == Rows(before.starts) + started
        invariant started == rows[..processed] && processed <= budget
        invariant cursor.afterId == if processed == 0 then from else Some(rows[processed - 1])
        invariant workerUnavailable <==> processed > 0 && rows[processed - 1] in unavailable
        invariant forall i | 0 <= i < processed - 1 :: rows[i] !in unavailable
      {
        var row := schedules[processed];
        started := started + [row];
        workerUnavailable := row in unavailable;
        ghost var during := LoopHead(m, i, schedules, processed, false);
        ghost var finished := RowFinished(i, workerUnavailable, processed + 1 >= budget);
        Extend(before, steps, during, finished);
        steps := steps + [finished];
        RowAt(m, i, cursor, schedules, processed, finished);
        m := AdvanceCursor(during, i, Some(row));
        processed := processed + 1;
        cursor := Advance(cursor, Some(row));
      }
      EndsAt(m, i, cursor, schedules, processed, workerUnavailable, processed >= budget);
      if processed == |schedules| && |schedules| < PAGE_SIZE {
        cursor := Advance(cursor, None);
      }
      machine := Continue(m, i, schedules, processed, workerUnavailable, processed >= budget);
    }
  }

  lemma NoSteps(s: State)
    ensures Follows(s, [], s)
  {
  }

  /** The poll is the latest, the others have ended, and it holds the current object. */
  ghost predicate At(m: State, i: nat, cursor: Cursor) {
    && i == |m.polls| - 1 && m.polls[i].cursor == cursor == m.current && Owned(m)
    && forall j | 0 <= j < i :: m.polls[j].phase.Done?
  }

  ghost function Continue(m: State, i: nat, rows: seq<nat>, processed: nat, workerUnavailable: bool, expired: bool): State
    requires i < |m.polls|
  {
    if workerUnavailable then AfterLoop(m, i, rows, processed) else LoopHead(m, i, rows, processed, expired)
  }

  /** The cursor as the poll's own replacement leaves it. */
  function Replaced(cursor: Cursor, afterId: Option<nat>): Cursor {
    if cursor.afterId == afterId then cursor else Cursor(cursor.identity + 1, afterId)
  }

  lemma BeginsAt(s: State)
    requires Owned(s) && Idle(s)
    ensures var m := Apply(s, Begin);
      At(m, |s.polls|, s.current) && m.polls[|s.polls|].phase.FetchingAfter? && m.starts == s.starts
  {
  }

  lemma AdvancesAt(m: State, i: nat, cursor: Cursor, afterId: Option<nat>)
    requires At(m, i, cursor)
    ensures At(AdvanceCursor(m, i, afterId), i, Replaced(cursor, afterId)) && AdvanceCursor(m, i, afterId).starts == m.starts
  {
  }

  lemma WrapsAt(m: State, i: nat, cursor: Cursor, due: DueRows, expired: bool)
    requires At(m, i, cursor) && m.polls[i].phase.FetchingAfter? && PageOf(due, cursor.afterId) == [] && cursor.afterId.Some?
    ensures var after := Apply(m, Fetched(i, due, expired));
      At(after, i, Replaced(cursor, None)) && after.polls[i].phase.FetchingAll? && after.starts == m.starts
  {
    hide PageOf, AdvanceCursor;
    AdvancesAt(m, i, cursor, None);
  }

  lemma FetchesAt(m: State, i: nat, cursor: Cursor, fetch: Action, rows: seq<nat>)
    requires At(m, i, cursor) && fetch.Fetched? && fetch.poll == i && rows == PageOf(fetch.due, cursor.afterId)
    requires m.polls[i].phase.FetchingAfter? || (m.polls[i].phase.FetchingAll? && cursor.afterId.None?)
    requires rows != [] || cursor.afterId.None?
    ensures Apply(m, fetch) == LoopHead(m, i, rows, 0, fetch.expired)
  {
    hide PageOf, AdvanceCursor, LoopHead;
  }

  lemma RowAt(m: State, i: nat, cursor: Cursor, rows: seq<nat>, processed: nat, finished: Action)
    requires At(m, i, cursor) && processed < |rows| && finished.RowFinished? && finished.poll == i
    ensures var during := LoopHead(m, i, rows, processed, false);
      i < |during.polls| && var next := AdvanceCursor(during, i, Some(rows[processed]));
      && At(next, i, Replaced(cursor, Some(rows[processed])))
      && Rows(next.starts) == Rows(m.starts) + [rows[processed]]
      && Apply(during, finished) == Continue(next, i, rows, processed + 1, finished.workerUnavailable, finished.expired)
  {
    hide AdvanceCursor, AfterLoop;
    var during := LoopHead(m, i, rows, processed, false);
    assert At(during, i, cursor);
    AdvancesAt(during, i, cursor, Some(rows[processed]));
  }

  lemma EndsAt(m: State, i: nat, cursor: Cursor, rows: seq<nat>, processed: nat, workerUnavailable: bool, expired: bool)
    requires At(m, i, cursor) && (processed >= |rows| || expired || workerUnavailable)
    ensures var end := Continue(m, i, rows, processed, workerUnavailable, expired);
      && Owned(end) && Idle(end) && end.starts == m.starts
      && end.current == if processed == |rows| < PAGE_SIZE then Replaced(cursor, None) else cursor
  {
    hide AdvanceCursor;
    AdvancesAt(m, i, cursor, None);
  }
}
