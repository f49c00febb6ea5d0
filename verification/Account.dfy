/**
 Which of an account's billing rows governs its entitlement.

 `Governing` sorts the rows as the database returned them and takes the head. The lemmas say
 what that head is without mentioning the sort.
 */
module Account {
  import opened Wrappers

  datatype Status = Active | Trialing | Canceled | PastDue | TrialExpired | OtherStatus

  /** Times are milliseconds; a missing period start counts as time zero. */
  datatype Row = Row(id: int, status: Status, periodStart: Option<int>, periodEnd: Option<int>, updatedAt: int, plan: string)

  predicate HasPaidEntitlement(row: Row, now: int) {
    || row.status.Active?
    || row.status.Trialing?
    || ((row.status.Canceled? || row.status.PastDue?) && row.periodEnd.Some? && row.periodEnd.value > now)
  }

  function StatusRank(row: Row, now: int): int {
    if !HasPaidEntitlement(row, now) then (if row.status.TrialExpired? then 4 else 6)
    else match row.status
      case Active => 0
      case PastDue => 1
      case Canceled => 2
      case Trialing => 3
      case _ => 6
  }

  function Start(row: Row): int {
    if row.periodStart.Some? then row.periodStart.value else 0
  }

  /** A row as the sort sees it: its rank comes from a clock reading of its own. */
  datatype Seen = Seen(row: Row, at: int)

  function Rank(s: Seen): int { StatusRank(s.row, s.at) }

  /** The comparator: negative when a governs over b. */
  function Compare(a: Seen, b: Seen): int {
    if Rank(a) != Rank(b) then Rank(a) - Rank(b)
    else if Start(a.row) != Start(b.row) then Start(b.row) - Start(a.row)
    else b.row.updatedAt - a.row.updatedAt
  }

  /** Stable insertion: an earlier row stays before the later rows it ties with. */
  function Insert(s: Seen, rows: seq<Seen>): seq<Seen> {
    if rows == [] || Compare(s, rows[0]) <= 0 then [s] + rows
    else [rows[0]] + Insert(s, rows[1..])
  }

  function Sort(rows: seq<Seen>): (r: seq<Seen>)
    ensures rows != [] ==> r != []
  {
    if rows == [] then [] else Insert(rows[0], Sort(rows[1..]))
  }

  function Governing(rows: seq<Seen>): Option<Seen> {
    if rows == [] then None else Some(Sort(rows)[0])
  }

  /** The plan that entitles. The clock is read again after the sort. */
  function EffectivePlan(rows: seq<Seen>, projectedAt: int): Option<string> {
    match Governing(rows)
    case None => None
    case Some(s) => Some(if HasPaidEntitlement(s.row, projectedAt) then s.row.plan else "FREE")
  }

  /** All rows seen at one time. */
  function SeenAt(rows: seq<Row>, now: int): (r: seq<Seen>)
    ensures |r| == |rows| && forall i | 0 <= i < |rows| :: r[i] == Seen(rows[i], now)
  {
    seq(|rows|, i requires 0 <= i < |rows| => Seen(rows[i], now))
  }

  // ---------- the order ----------

  lemma CompareIsTotalPreorder(a: Seen, b: Seen, c: Seen)
    ensures Compare(a, b) <= 0 || Compare(b, a) <= 0
    ensures Compare(a, b) <= 0 && Compare(b, c) <= 0 ==> Compare(a, c) <= 0
    ensures Compare(a, b) == 0 <==>
      Rank(a) == Rank(b) && Start(a.row) == Start(b.row) && a.row.updatedAt == b.row.updatedAt
  {
  }

  /** An entitled row always ranks before a row that grants nothing, a live trial included. */
  lemma RankSeparatesEntitlement(row: Row, now: int)
    ensures HasPaidEntitlement(row, now) <==> StatusRank(row, now) <= 3
  {
  }

  // ---------- the governing row ----------

  /** The index of the governing row: it governs over every earlier row strictly, over later rows weakly. */
  predicate Governs(rows: seq<Seen>, k: nat) {
    && k < |rows|
    && (forall j | 0 <= j < k :: Compare(rows[k], rows[j]) < 0)
    && (forall j | k <= j < |rows| :: Compare(rows[k], rows[j]) <= 0)
  }

  lemma {:induction false} GoverningIsFirstMaximum(rows: seq<Seen>) returns (k: nat)
    requires rows != []
    ensures Governs(rows, k) && Governing(rows) == Some(rows[k])
  {
    k := 0;
    if |rows| > 1 {
      var j := GoverningIsFirstMaximum(rows[1..]);
      var best := rows[1..][j];
      assert forall i | 1 <= i < |rows| :: rows[i] == rows[1..][i - 1];
      if Compare(rows[0], best) <= 0 {
        forall i | 0 <= i < |rows| ensures Compare(rows[0], rows[i]) <= 0 {
          if i > 0 { CompareIsTotalPreorder(rows[0], best, rows[i]); }
        }
      } else {
        k := j + 1;
        CompareIsTotalPreorder(best, rows[0], best);
      }
    } else {
      assert Sort(rows[1..]) == [];
    }
  }

  lemma {:induction false} GovernsIsUnique(rows: seq<Seen>, j: nat, k: nat)
    requires Governs(rows, j) && Governs(rows, k)
    ensures j == k
  {
    if j < k { CompareIsTotalPreorder(rows[j], rows[k], rows[j]); }
    if k < j { CompareIsTotalPreorder(rows[k], rows[j], rows[k]); }
  }

  /** Whatever order the rows come in, the answer has the same rank, period start and update time. */
  lemma OrderOfRowsIsIrrelevant(rows: seq<Seen>, other: seq<Seen>)
    requires multiset(rows) == multiset(other)
    ensures Governing(rows).None? <==> Governing(other).None?
    ensures Governing(rows).Some? ==>
      var a, b := Governing(rows).value, Governing(other).value;
      && Compare(a, b) == 0
      && (HasPaidEntitlement(a.row, a.at) <==> HasPaidEntitlement(b.row, b.at))
      && ((forall x, y | x in rows && y in rows && Compare(x, y) == 0 :: x == y) ==> a == b)
  {
    if rows == [] || other == [] {
      assert |multiset(rows)| == |rows| && |multiset(other)| == |other|;
    } else {
      var j := GoverningIsFirstMaximum(rows);
      var k := GoverningIsFirstMaximum(other);
      assert rows[j] in multiset(other) && other[k] in multiset(rows);
      CompareIsTotalPreorder(rows[j], other[k], rows[j]);
      RankSeparatesEntitlement(rows[j].row, rows[j].at);
      RankSeparatesEntitlement(other[k].row, other[k].at);
    }
  }

  /** The governing row entitles, at the reading that ranked it, exactly when some row does at its own. */
  lemma EntitledExactlyWhenAnyRowIs(rows: seq<Seen>)
    requires rows != []
    ensures var chosen := Governing(rows).value;
      HasPaidEntitlement(chosen.row, chosen.at) <==> exists r :: r in rows && HasPaidEntitlement(r.row, r.at)
  {
    var k := GoverningIsFirstMaximum(rows);
    assert rows[k] in rows;
    if r :| r in rows && HasPaidEntitlement(r.row, r.at) {
      RankSeparatesEntitlement(r.row, r.at);
      RankSeparatesEntitlement(rows[k].row, rows[k].at);
      var i :| 0 <= i < |rows| && rows[i] == r;
    }
  }

  /** Does `a` come no later than `b` in the list active, past due, cancelled, trialing? */
  predicate StatusFirst(a: Status, b: Status) {
    (b.Active? ==> a.Active?) && (b.PastDue? ==> a.Active? || a.PastDue?) && (b.Canceled? ==> !a.Trialing?)
  }

  /** Equal in the order of statuses: entitled with one status, expired trials, or neither. */
  predicate SameStanding(a: Seen, b: Seen) {
    var e, f := HasPaidEntitlement(a.row, a.at), HasPaidEntitlement(b.row, b.at);
    (e && f && a.row.status == b.row.status) || (!e && !f && (a.row.status.TrialExpired? <==> b.row.status.TrialExpired?))
  }

  /**
   The chosen row and any other: entitled before not; among the entitled an active contract before
   one past due, that before a cancelled one, that before a trial; among the rest an expired trial
   first; then the latest period start, a missing one counting as zero; then the latest update.
   */
  lemma ChosenIsPreferred(rows: seq<Seen>, x: Seen)
    requires x in rows
    ensures Governing(rows).Some? && Governing(rows).value in rows
    ensures var c := Governing(rows).value;
      var e, f := HasPaidEntitlement(c.row, c.at), HasPaidEntitlement(x.row, x.at);
      && (f ==> e && StatusFirst(c.row.status, x.row.status))
      && (!e && x.row.status.TrialExpired? ==> c.row.status.TrialExpired?)
      && (SameStanding(c, x) ==>
            var begun := if c.row.periodStart.Some? then c.row.periodStart.value else 0;
            var other := if x.row.periodStart.Some? then x.row.periodStart.value else 0;
            other < begun || (other == begun && x.row.updatedAt <= c.row.updatedAt))
  {
    var k := GoverningIsFirstMaximum(rows);
    var i :| 0 <= i < |rows| && rows[i] == x;
    assert Compare(rows[k], rows[i]) <= 0;
  }

  /** Active and trialing contracts always entitle, cancelled and past due ones until their term ends, others never. */
  lemma EntitledUntil(row: Row, now: int)
    ensures row.status in {Active, Trialing} ==> HasPaidEntitlement(row, now)
    ensures row.status in {Canceled, PastDue} ==>
      (HasPaidEntitlement(row, now) <==> row.periodEnd.Some? && now < row.periodEnd.value)
    ensures row.status in {TrialExpired, OtherStatus} ==> !HasPaidEntitlement(row, now)
  {
  }

  /** The plan is the chosen contract's exactly while that entitles, and FREE otherwise; without rows there is none. */
  lemma PlanIsThatOfTheChosen(rows: seq<Seen>, projectedAt: int)
    ensures EffectivePlan(rows, projectedAt).None? <==> rows == []
    ensures rows != [] ==>
      var c := Governing(rows).value;
      && (HasPaidEntitlement(c.row, projectedAt) ==> EffectivePlan(rows, projectedAt) == Some(c.row.plan))
      && (!HasPaidEntitlement(c.row, projectedAt) ==> EffectivePlan(rows, projectedAt) == Some("FREE"))
  {
  }

  // ---------- the later clock reading ----------

  /**
   Between ranking the chosen row and projecting it the clock may pass the end of its term. The
   paid plan is withheld while another row entitles exactly in that case.
   */
  lemma PlanWithheldExactly(rows: seq<Seen>, projectedAt: int)
    requires forall r | r in rows :: r.at <= projectedAt
    requires exists r :: r in rows && HasPaidEntitlement(r.row, projectedAt)
    ensures Governing(rows).Some?
    ensures var chosen := Governing(rows).value;
      !HasPaidEntitlement(chosen.row, projectedAt) <==>
        (chosen.row.status.Canceled? || chosen.row.status.PastDue?) && chosen.row.periodEnd.Some?
        && chosen.at < chosen.row.periodEnd.value <= projectedAt
  {
    var r :| r in rows && HasPaidEntitlement(r.row, projectedAt);
    assert HasPaidEntitlement(r.row, r.at);
    EntitledExactlyWhenAnyRowIs(rows);
    var k := GoverningIsFirstMaximum(rows);
    assert rows[k] in rows;
  }

  /** It does happen: a lapsing past-due contract hides a live trial for one reading. */
  lemma LapseCanHideTrial()
    ensures var rows := [Row(1, PastDue, None, Some(10), 0, "PRO"), Row(2, Trialing, None, None, 0, "TRIAL")];
      && EffectivePlan(SeenAt(rows, 9), 10) == Some("FREE")
      && EffectivePlan(SeenAt(rows, 10), 10) == Some("TRIAL")
  {
    var lapsing, trial := Row(1, PastDue, None, Some(10), 0, "PRO"), Row(2, Trialing, None, None, 0, "TRIAL");
    forall now ensures Sort(SeenAt([lapsing, trial], now)) == Insert(Seen(lapsing, now), [Seen(trial, now)]) {
      var seen := SeenAt([lapsing, trial], now);
      assert seen == [Seen(lapsing, now), Seen(trial, now)];
      assert seen[1..] == [Seen(trial, now)] && [Seen(trial, now)][1..] == [];
      assert Sort([Seen(trial, now)]) == [Seen(trial, now)];
    }
  }
}
