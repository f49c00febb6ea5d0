/**
 The two-phase sweep that makes the scan table and the queue agree.

 Scans are rows in creation order and a scan's id is its position. The first phase pages through
 the stale active scans with a cursor and fails those without a processable job; the second
 collects every waiting job and removes those without an active scan.

 A page after a cursor skips one row. Databases that implement the skip as an offset drop the
 first row that still matches, which is not the cursor row when that row has just been failed.
 Both readings are modelled.
 */
module QueueSweep {
  import opened Wrappers

  const BATCH_SIZE: nat := 500
  const QUEUE_ORPHAN_GRACE_MS: int := 300_000

  datatype Status = Queued | Preflight | Running | Verifying | Failed | OtherStatus

  datatype Scan = Scan(status: Status, deleted: bool, updatedAt: int)

  /** A waiting job; the id is absent when the queue returns none. */
  datatype Job = Job(id: Option<nat>, timestamp: int)

  /** States of jobs that no longer wait. */
  datatype Settled = ActiveJob | CompletedJob | FailedJob | OtherJob

  datatype Queue = Queue(wait: seq<Job>, delayed: seq<Job>, prioritized: seq<Job>, settled: map<nat, Settled>)

  datatype SkipMode = SkipsCursorRow | SkipsOffset

  /** Where a candidate's handling throws. */
  datatype Fault = NoFault | BeforeUpdate | AfterUpdate

  datatype SweepResult = SweepResult(failedScans: nat, removedJobs: nat, queueDepth: nat, oldestAgeMs: int)

  datatype SweepError = LeaseLost

  predicate Active(s: Status) {
    s.Queued? || s.Preflight? || s.Running? || s.Verifying?
  }

  predicate IsStale(s: Scan, cutoff: int) {
    Active(s.status) && !s.deleted && s.updatedAt < cutoff
  }

  function Waiting(q: Queue): seq<Job> {
    q.wait + q.delayed + q.prioritized
  }

  predicate HasJob(jobs: seq<Job>, id: nat) {
    exists j | j in jobs :: j.id == Some(id)
  }

  /** The job exists in a state from which it will still be processed. */
  predicate HasLiveJob(q: Queue, id: nat) {
    HasJob(Waiting(q), id) || (id in q.settled && (q.settled[id].ActiveJob? || q.settled[id].OtherJob?))
  }

  predicate ScanIsActive(scans: seq<Scan>, id: nat) {
    id < |scans| && Active(scans[id].status)
  }

  // ---------- pages ----------

  /** Positions of the stale active scans from a position on. */
  function Matching(scans: seq<Scan>, from: nat, cutoff: int): seq<nat>
    decreases |scans| - from
  {
    if from >= |scans| then []
    else if IsStale(scans[from], cutoff) then [from] + Matching(scans, from + 1, cutoff)
    else Matching(scans, from + 1, cutoff)
  }

  predicate Ascending(s: seq<nat>) {
    forall i, j | 0 <= i < j < |s| :: s[i] < s[j]
  }

  lemma {:induction false} MatchingFacts(scans: seq<Scan>, from: nat, cutoff: int)
    ensures Ascending(Matching(scans, from, cutoff))
    ensures forall i | 0 <= i < |Matching(scans, from, cutoff)| :: from <= Matching(scans, from, cutoff)[i] < |scans|
    ensures forall p: nat :: p in Matching(scans, from, cutoff) <==> from <= p < |scans| && IsStale(scans[p], cutoff)
    decreases |scans| - from
  {
    if from < |scans| {
      MatchingFacts(scans, from + 1, cutoff);
      var rest := Matching(scans, from + 1, cutoff);
      forall i | 0 <= i < |rest| ensures rest[i] > from { assert rest[i] in rest; }
    }
  }

  function Take(s: seq<nat>, n: nat): (r: seq<nat>)
    ensures r <= s && |r| == if |s| <= n then |s| else n
  {
    if |s| <= n then s else s[..n]
  }

  function PageAfter(scans: seq<Scan>, cursor: Option<nat>, cutoff: int, mode: SkipMode): seq<nat> {
    match cursor
    case None => Take(Matching(scans, 0, cutoff), BATCH_SIZE)
    case Some(c) =>
      if mode.SkipsCursorRow? then Take(Matching(scans, c + 1, cutoff), BATCH_SIZE)
      else
        var m := Matching(scans, c, cutoff);
        if m == [] then [] else Take(m[1..], BATCH_SIZE)
  }

  // ---------- what the first phase does to the table ----------

  /** The stale candidates that leave the filter when they are visited. */
  predicate Dies(q: Queue, faults: map<nat, Fault>, p: nat) {
    !HasLiveJob(q, p) && !(p in faults && faults[p].BeforeUpdate?)
  }

  /** The candidates that an offset skip passes over: the first of a page whose predecessor died. */
  function PassedOver(candidates: seq<nat>, q: Queue, faults: map<nat, Fault>, mode: SkipMode): set<nat>
    decreases |candidates|
  {
    if |candidates| < BATCH_SIZE then {}
    else if mode.SkipsOffset? && Dies(q, faults, candidates[BATCH_SIZE - 1]) && |candidates| > BATCH_SIZE
    then {candidates[BATCH_SIZE]} + PassedOver(candidates[BATCH_SIZE + 1..], q, faults, mode)
    else PassedOver(candidates[BATCH_SIZE..], q, faults, mode)
  }

  function Fail(s: Scan, now: int): Scan { s.(status := Failed, updatedAt := now) }

  // ---------- what the second phase does to the queue ----------

  /** The waiting jobs that remain when the given ids are removed. */
  function Without(jobs: seq<Job>, removed: set<nat>): (r: seq<Job>)
    ensures forall j :: j in r <==> j in jobs && !(j.id.Some? && j.id.value in removed)
  {
    if jobs == [] then []
    else if jobs[0].id.Some? && jobs[0].id.value in removed then Without(jobs[1..], removed)
    else [jobs[0]] + Without(jobs[1..], removed)
  }

  function Prune(q: Queue, removed: set<nat>): Queue {
    q.(wait := Without(q.wait, removed), delayed := Without(q.delayed, removed),
       prioritized := Without(q.prioritized, removed))
  }

  predicate IsOrphanJob(scans: seq<Scan>, j: Job) {
    j.id.Some? && !ScanIsActive(scans, j.id.value)
  }

  function OrphanIds(scans: seq<Scan>, jobs: seq<Job>, stuck: set<nat>): (r: set<nat>)
    ensures forall id: nat :: id in r <==> HasJob(jobs, id) && !ScanIsActive(scans, id) && id !in stuck
  {
    set j | j in jobs && IsOrphanJob(scans, j) && j.id.value !in stuck :: j.id.value
  }

  /** The ids of the active scans. */
  function ActiveIds(scans: seq<Scan>): (r: set<nat>)
    ensures forall id: nat :: id in r <==> ScanIsActive(scans, id)
  {
    set p: nat | p < |scans| && Active(scans[p].status)
  }

  /** How many jobs carry one of the ids. */
  function CountWith(jobs: seq<Job>, ids: set<nat>): nat {
    if jobs == [] then 0
    else (if jobs[0].id.Some? && jobs[0].id.value in ids then 1 else 0) + CountWith(jobs[1..], ids)
  }

  function Age(j: Job, now: int): int { Max(0, now - j.timestamp) }

  /** The orphaned jobs among the first few collected are gone, in whatever order the pages gave them, and no others. */
  ghost predicate StoppedAfter(q: Queue, after: Queue, scans: seq<Scan>, stuck: set<nat>, handled: int) {
    exists jobs: seq<Job> :: multiset(jobs) == multiset(Waiting(q)) && 0 <= handled <= |jobs|
                             && after == Prune(q, OrphanIds(scans, jobs[..handled], stuck))
  }

  predicate IsOldestAge(age: int, jobs: seq<Job>, ids: set<nat>, now: int) {
    && (forall j | j in jobs && j.id.Some? && j.id.value in ids :: Age(j, now) <= age)
    && (age == 0 || exists j | j in jobs && j.id.Some? && j.id.value in ids :: Age(j, now) == age)
  }

  /** One type's share of a page: the jobs from `start` up to `end`. */
  function Slice(jobs: seq<Job>, start: nat, end: nat): seq<Job>
    requires start <= end
  {
    if start >= |jobs| then [] else if end >= |jobs| then jobs[start..] else jobs[start..end]
  }

  function Max(a: int, b: int): int { if a >= b then a else b }

  // ---------- facts about pages ----------

  lemma {:induction false} MatchingFrame(a: seq<Scan>, b: seq<Scan>, from: nat, cutoff: int)
    requires |a| == |b| && forall p | from <= p < |a| :: a[p] == b[p]
    ensures Matching(a, from, cutoff) == Matching(b, from, cutoff)
    decreases |a| - from
  {
    if from < |a| { MatchingFrame(a, b, from + 1, cutoff); }
  }

  lemma {:induction false} MatchingSuffix(scans: seq<Scan>, from: nat, cutoff: int, i: nat)
    requires i < |Matching(scans, from, cutoff)|
    ensures var m := Matching(scans, from, cutoff); m[i + 1..] == Matching(scans, m[i] + 1, cutoff)
    decreases |scans| - from
  {
    var m := Matching(scans, from, cutoff);
    var rest := Matching(scans, from + 1, cutoff);
    if IsStale(scans[from], cutoff) {
      assert m == [from] + rest;
      if i > 0 {
        MatchingSuffix(scans, from + 1, cutoff, i - 1);
        assert m[i + 1..] == rest[i..];
      }
    } else {
      MatchingSuffix(scans, from + 1, cutoff, i);
    }
  }

  /** The scans that a candidate's handling counts as reconciled. */
  predicate Counts(q: Queue, faults: map<nat, Fault>, p: nat) {
    !HasLiveJob(q, p) && (p in faults ==> faults[p].NoFault?)
  }

  function CountedBelow(scans: seq<Scan>, limit: nat, passedOver: set<nat>, q: Queue, faults: map<nat, Fault>, cutoff: int)
    : set<nat>
  {
    set p: nat | p < |scans| && p < limit && IsStale(scans[p], cutoff) && p !in passedOver && Counts(q, faults, p)
  }

  // ---------- the first phase as a function of the table ----------

  function FailPage(scans: seq<Scan>, page: seq<nat>, q: Queue, faults: map<nat, Fault>, now: int): (r: seq<Scan>)
    ensures |r| == |scans|
  {
    if page == [] then scans
    else
      var before, p := FailPage(scans, page[..|page| - 1], q, faults, now), page[|page| - 1];
      if p < |scans| && Dies(q, faults, p) then before[p := Fail(before[p], now)] else before
  }

  function CountPage(page: seq<nat>, q: Queue, faults: map<nat, Fault>): nat {
    if page == [] then 0
    else CountPage(page[..|page| - 1], q, faults) + (if Counts(q, faults, page[|page| - 1]) then 1 else 0)
  }

  lemma {:induction false} FailPageAt(scans: seq<Scan>, page: seq<nat>, q: Queue, faults: map<nat, Fault>, now: int, p: nat)
    requires Ascending(page) && p < |scans|
    ensures FailPage(scans, page, q, faults, now)[p]
         == if p in page && Dies(q, faults, p) then Fail(scans[p], now) else scans[p]
  {
    if page != [] {
      FailPageAt(scans, page[..|page| - 1], q, faults, now, p);
      assert page == page[..|page| - 1] + [page[|page| - 1]];
    }
  }

  ghost function Counted(page: seq<nat>, q: Queue, faults: map<nat, Fault>): set<nat> {
    set p | p in page && Counts(q, faults, p)
  }

  lemma {:induction false} CountPageIsSize(page: seq<nat>, q: Queue, faults: map<nat, Fault>)
    requires Ascending(page)
    ensures CountPage(page, q, faults) == |Counted(page, q, faults)|
  {
    hide Counts;
    if page == [] {
      assert Counted(page, q, faults) == {};
    } else {
      var front, last := page[..|page| - 1], page[|page| - 1];
      CountPageIsSize(front, q, faults);
      CountedSnoc(front, last, q, faults);
      assert page == front + [last];
      assert last !in front;
    }
  }

  lemma CountedSnoc(front: seq<nat>, last: nat, q: Queue, faults: map<nat, Fault>)
    ensures Counted(front + [last], q, faults)
         == Counted(front, q, faults) + (if Counts(q, faults, last) then {last} else {})
  {
    hide Counts;
  }

  /** The table when every candidate below a position has been handled. */
  function FailBelow(scans: seq<Scan>, limit: nat, passed: set<nat>, q: Queue, faults: map<nat, Fault>, now: int): (r: seq<Scan>)
    ensures |r| == |scans|
  {
    seq(|scans|, p requires 0 <= p < |scans| =>
      if p < limit && IsStale(scans[p], now - QUEUE_ORPHAN_GRACE_MS) && p !in passed && Dies(q, faults, p)
      then Fail(scans[p], now) else scans[p])
  }

  /** The page is exactly the candidates between two positions. */
  predicate Covers(page: seq<nat>, scans: seq<Scan>, lo: nat, next: nat, cutoff: int) {
    Ascending(page) && lo <= next <= |scans|
    && (forall p | p in page :: lo <= p < next && IsStale(scans[p], cutoff))
    && (forall p: nat | lo <= p < next && IsStale(scans[p], cutoff) :: p in page)
  }

  lemma PageMovesTable(scans: seq<Scan>, lo: nat, next: nat, page: seq<nat>, passed: set<nat>,
                       q: Queue, faults: map<nat, Fault>, now: int)
    requires Covers(page, scans, lo, next, now - QUEUE_ORPHAN_GRACE_MS) && forall p | p in passed :: p < lo
    ensures FailPage(FailBelow(scans, lo, passed, q, faults, now), page, q, faults, now)
         == FailBelow(scans, next, passed, q, faults, now)
  {
    hide Dies, IsStale, FailPage, Fail;
    var before, after := FailBelow(scans, lo, passed, q, faults, now), FailBelow(scans, next, passed, q, faults, now);
    forall p | 0 <= p < |scans| ensures FailPage(before, page, q, faults, now)[p] == after[p] {
      FailPageAt(before, page, q, faults, now, p);
    }
  }

  lemma PageMovesCount(scans: seq<Scan>, lo: nat, next: nat, page: seq<nat>, passed: set<nat>,
                       q: Queue, faults: map<nat, Fault>, cutoff: int)
    requires Covers(page, scans, lo, next, cutoff) && forall p | p in passed :: p < lo
    ensures |CountedBelow(scans, next, passed, q, faults, cutoff)|
         == |CountedBelow(scans, lo, passed, q, faults, cutoff)| + CountPage(page, q, faults)
  {
    hide Counts, IsStale;
    var a, b := CountedBelow(scans, lo, passed, q, faults, cutoff), Counted(page, q, faults);
    CountPageIsSize(page, q, faults);
    assert CountedBelow(scans, next, passed, q, faults, cutoff) == a + b;
    assert a !! b;
  }

  /** Passing over one candidate moves the frontier past it without touching anything. */
  lemma PassingMovesFrontier(scans: seq<Scan>, lo: nat, x: nat, passed: set<nat>, q: Queue, faults: map<nat, Fault>, now: int)
    requires lo <= x < |scans| && forall p | p in passed :: p < lo
    requires forall p | lo <= p < x :: !IsStale(scans[p], now - QUEUE_ORPHAN_GRACE_MS)
    ensures FailBelow(scans, x + 1, passed + {x}, q, faults, now) == FailBelow(scans, lo, passed, q, faults, now)
    ensures var cutoff := now - QUEUE_ORPHAN_GRACE_MS;
      CountedBelow(scans, x + 1, passed + {x}, q, faults, cutoff) == CountedBelow(scans, lo, passed, q, faults, cutoff)
  {
  }

  /** How the cursor's next page relates to the candidates of the original table. */
  lemma NextPage(scans: seq<Scan>, last: nat, passed: set<nat>, q: Queue, faults: map<nat, Fault>, now: int, mode: SkipMode)
    requires last < |scans| && IsStale(scans[last], now - QUEUE_ORPHAN_GRACE_MS) && last !in passed
    requires forall p | p in passed :: p < last
    ensures var cutoff := now - QUEUE_ORPHAN_GRACE_MS;
      var rest := Matching(scans, last + 1, cutoff);
      var table := FailBelow(scans, last + 1, passed, q, faults, now);
      PageAfter(table, Some(last), cutoff, mode)
      == if mode.SkipsOffset? && Dies(q, faults, last) && rest != [] then Take(rest[1..], BATCH_SIZE)
         else Take(rest, BATCH_SIZE)
  {
    var cutoff := now - QUEUE_ORPHAN_GRACE_MS;
    var table := FailBelow(scans, last + 1, passed, q, faults, now);
    MatchingFrame(table, scans, last + 1, cutoff);
    if Dies(q, faults, last) {
      assert !IsStale(table[last], cutoff);
    } else {
      assert table[last] == scans[last];
      assert Matching(table, last, cutoff)[1..] == Matching(table, last + 1, cutoff);
    }
  }

  lemma PageCovers(scans: seq<Scan>, lo: nat, cutoff: int)
    requires lo <= |scans|
    ensures var rest := Matching(scans, lo, cutoff);
      if |rest| < BATCH_SIZE then Covers(Take(rest, BATCH_SIZE), scans, lo, |scans|, cutoff)
      else
        var last := rest[BATCH_SIZE - 1];
        && Covers(Take(rest, BATCH_SIZE), scans, lo, last + 1, cutoff)
        && last < |scans| && lo <= last && IsStale(scans[last], cutoff)
        && rest[BATCH_SIZE..] == Matching(scans, last + 1, cutoff)
  {
    var rest := Matching(scans, lo, cutoff);
    MatchingFacts(scans, lo, cutoff);
    if |rest| >= BATCH_SIZE {
      var last := rest[BATCH_SIZE - 1];
      MatchingSuffix(scans, lo, cutoff, BATCH_SIZE - 1);
      MatchingFacts(scans, last + 1, cutoff);
      var page := rest[..BATCH_SIZE];
      assert rest == page + rest[BATCH_SIZE..];
      assert last in rest;
      forall p | p in page ensures lo <= p < last + 1 && IsStale(scans[p], cutoff) {
        assert p in rest;
        var i :| 0 <= i < BATCH_SIZE && page[i] == p;
      }
      forall p: nat | lo <= p < last + 1 && IsStale(scans[p], cutoff) ensures p in page {
        assert p in rest && p !in rest[BATCH_SIZE..];
      }
    }
  }

  /** The scan table and the queue, updated in place. */
  class Backend {
    var scans: seq<Scan>
    var queue: Queue

    /** One candidate: look up its job, and fail the scan when no processable job exists. */
    method ReconcileCandidate(p: nat, now: int, fault: Fault) returns (reconciled: bool)
      requires p < |scans|
      modifies this`scans
      ensures reconciled <==> !HasLiveJob(queue, p) && fault.NoFault?
      ensures scans == if HasLiveJob(queue, p) || fault.BeforeUpdate? then old(scans)
                       else old(scans)[p := Fail(old(scans)[p], now)]
    {
      reconciled := false;
      var live := HasLiveJob(queue, p);
      if live || fault.BeforeUpdate? { return; }
      scans := scans[p := Fail(scans[p], now)];
      if fault.AfterUpdate? { return; }
      reconciled := true;
    }

    /** One page of candidates, in order; errors of single candidates are logged and passed over. */
    method ReconcilePage(page: seq<nat>, now: int, faults: map<nat, Fault>) returns (count: nat)
      requires forall p | p in page :: p < |scans|
      modifies this`scans
      ensures scans == FailPage(old(scans), page, queue, faults, now) && count == CountPage(page, queue, faults)
    {
      hide HasLiveJob;
      count := 0;
      for i := 0 to |page|
        invariant scans == FailPage(old(scans), page[..i], queue, faults, now)
        invariant count == CountPage(page[..i], queue, faults)
      {
        var p := page[i];
        assert p in page && page[..i + 1][..i] == page[..i];
        var reconciled := ReconcileCandidate(p, now, if p in faults then faults[p] else NoFault);
        if reconciled { count := count + 1; }
      }
      assert page[..|page|] == page;
    }

    /** The first phase: page after page until a short one. */
    method FailOrphanedScans(now: int, mode: SkipMode, faults: map<nat, Fault>) returns (count: nat)
      modifies this`scans
      ensures var cutoff := now - QUEUE_ORPHAN_GRACE_MS;
        var passed := PassedOver(Matching(old(scans), 0, cutoff), queue, faults, mode);
        && scans == FailBelow(old(scans), |old(scans)|, passed, queue, faults, now)
        && count == |CountedBelow(old(scans), |old(scans)|, passed, queue, faults, cutoff)|
    {
      hide HasLiveJob, FailBelow, PageAfter, CountedBelow, PassedOver, Matching, FailPage, CountPage, FirstPhase;
      var cutoff := now - QUEUE_ORPHAN_GRACE_MS;
      count := 0;
      var scanCursor: Option<nat> := None;
      ghost var orig := scans;
      ghost var lo: nat := 0;
      ghost var passed: set<nat> := {};
      FirstPhaseStarts(orig, queue, faults, now, mode);
      while true
        invariant lo <= |orig| && FirstPhase(orig, scans, scanCursor, count, lo, passed, queue, faults, now, mode)
        decreases |orig| - lo
      {
        var page := PageAfter(scans, scanCursor, cutoff, mode);
        PageIsSafe(scans, scanCursor, cutoff, mode);
        ghost var table, found0 := scans, count;
        var found := ReconcilePage(page, now, faults);
        count := count + found;
        if |page| < BATCH_SIZE {
          ShortPage(orig, table, scanCursor, found0, lo, passed, queue, faults, now, mode);
          break;
        }
        lo, passed := FullPage(orig, table, scanCursor, found0, lo, passed, queue, faults, now, mode);
        scanCursor := Some(page[|page| - 1]);
      }
    }

    /** Every waiting job, page by page; a page takes one slice of each of the three types. */
    method CollectWaiting() returns (jobs: seq<Job>)
      ensures multiset(jobs) == multiset(Waiting(queue))
    {
      hide Slice;
      jobs := [];
      var start: nat := 0;
      NothingCollected(queue);
      while true
        invariant multiset(jobs) == CollectedBelow(queue, start)
        decreases |Waiting(queue)| - start
      {
        var page := QueuePage(queue, start);
        jobs := jobs + page;
        QueuePageCollects(queue, start);
        if |page| < BATCH_SIZE { break; }
        start := start + BATCH_SIZE;
      }
    }

    /** The second phase; `held` is how many of its lease checks pass before one throws. */
    method RemoveOrphanedJobs(now: int, stuck: set<nat>, held: nat)
      returns (lost: bool, removedJobs: nat, queueDepth: nat, oldestAgeMs: int)
      modifies this`queue
      ensures !lost ==> queue == Prune(old(queue), OrphanIds(scans, Waiting(old(queue)), stuck))
      ensures !lost ==> removedJobs == CountWith(Waiting(old(queue)), OrphanIds(scans, Waiting(old(queue)), stuck))
      ensures !lost ==> queueDepth == CountWith(Waiting(old(queue)), ActiveIds(scans))
      ensures !lost ==> IsOldestAge(oldestAgeMs, Waiting(old(queue)), ActiveIds(scans), now)
      ensures lost ==> (held == 0 && queue == old(queue)) || StoppedAfter(old(queue), queue, scans, stuck, held - 1)
      ensures lost <==> held < |Waiting(old(queue))| + 2
    {
      hide HasJob, ScanIsActive, Prune, CountWith, IsOldestAge, OrphanIds, ActiveIds, Waiting;
      ghost var before := queue;
      lost, removedJobs, queueDepth, oldestAgeMs := held == 0, 0, 0, 0;
      ghost var removed: set<nat> := {};
      PruneNothing(before);
      if lost { return; }
      var jobs := CollectWaiting();
      MembersIgnoreOrder(jobs, Waiting(before));
      var ids := ActiveIds(scans);
      queueDepth, oldestAgeMs := Measure(jobs, ids, now);
      CountIgnoresOrder(jobs, Waiting(before), ids);
      OldestIgnoresOrder(oldestAgeMs, jobs, Waiting(before), ids, now);
      ghost var orphans := OrphanIds(scans, Waiting(before), stuck);
      OrphansAreInactive(scans, Waiting(before), jobs, stuck);
      CountNone(orphans);
      for i := 0 to |jobs|
        invariant Handled(jobs[..i], orphans, removed) && queue == Prune(before, removed) && held >= i + 1
        invariant forall id | id in removed :: HasJob(jobs[..i], id)
        invariant removedJobs == CountWith(jobs[..i], orphans)
      {
        var job := jobs[i];
        assert jobs[..i + 1] == jobs[..i] + [job];
        assert job in jobs;
        CountSnoc(jobs[..i], job, orphans);
        HasJobGrows(jobs[..i], job);
        if held == i + 1 {
          lost := true;
          PrefixHandled(scans, Waiting(before), jobs, i, stuck, removed);
          assert StoppedAfter(before, queue, scans, stuck, held - 1);
          return;
        }
        if job.id.None? || job.id.value in ids { continue; }
        if job.id.value !in stuck {
          queue := Prune(queue, {job.id.value});
          PruneTwice(before, removed, {job.id.value});
          removed := removed + {job.id.value};
          removedJobs := removedJobs + 1;
        }
      }
      assert jobs[..|jobs|] == jobs;
      CountIgnoresOrder(jobs, Waiting(before), orphans);
      PrefixHandled(scans, Waiting(before), jobs, |jobs|, stuck, removed);
      OrphansIgnoreOrder(scans, jobs, Waiting(before), stuck);
      lost := held == |jobs| + 1;
      assert lost ==> StoppedAfter(before, queue, scans, stuck, held - 1);
    }

    /** Both phases. Without faults the result describes the swept table and queue. */
    method Sweep(now: int, mode: SkipMode, faults: map<nat, Fault>, stuck: set<nat>, held: nat)
      returns (result: Result<SweepResult, SweepError>)
      modifies this
      ensures scans == SweptScans(old(scans), old(queue), faults, now, mode)
      ensures result.Ok? <==> held >= |Waiting(old(queue))| + 2
      ensures result.Ok? ==> queue == SweptQueue(scans, old(queue), stuck)
      ensures result.Err? ==> (held == 0 && queue == old(queue)) || StoppedAfter(old(queue), queue, scans, stuck, held - 1)
      ensures result.Ok? ==> IsReport(result.value, old(scans), old(queue), faults, stuck, now, mode)
    {
      hide Prune, CountWith, IsOldestAge, OrphanIds, ActiveIds, Waiting, FailBelow, CountedBelow, PassedOver, Matching;
      var failed := FailOrphanedScans(now, mode, faults);
      var lost, removed, depth, oldest := RemoveOrphanedJobs(now, stuck, held);
      if lost { return Err(LeaseLost); }
      result := Ok(SweepResult(failed, removed, depth, oldest));
    }
  }

  ghost predicate Handled(jobs: seq<Job>, orphans: set<nat>, removed: set<nat>) {
    removed <= orphans && forall j | j in jobs && j.id.Some? && j.id.value in orphans :: j.id.value in removed
  }

  lemma OrphansAreInactive(scans: seq<Scan>, waiting: seq<Job>, jobs: seq<Job>, stuck: set<nat>)
    requires forall j :: j in jobs <==> j in waiting
    ensures forall j | j in jobs && j.id.Some? ::
      j.id.value in OrphanIds(scans, waiting, stuck) <==> j.id.value !in ActiveIds(scans) && j.id.value !in stuck
  {
  }

  lemma HasJobGrows(jobs: seq<Job>, j: Job)
    ensures forall id: nat | HasJob(jobs, id) || j.id == Some(id) :: HasJob(jobs + [j], id)
  {
    assert j in jobs + [j] && forall k | k in jobs :: k in jobs + [j];
  }

  lemma PrefixHandled(scans: seq<Scan>, waiting: seq<Job>, jobs: seq<Job>, n: nat, stuck: set<nat>, removed: set<nat>)
    requires (forall j :: j in jobs <==> j in waiting) && n <= |jobs|
    requires Handled(jobs[..n], OrphanIds(scans, waiting, stuck), removed)
    requires forall id | id in removed :: HasJob(jobs[..n], id)
    ensures removed == OrphanIds(scans, jobs[..n], stuck)
  {
    forall id: nat | HasJob(jobs[..n], id) ensures HasJob(waiting, id) {
      var j :| j in jobs[..n] && j.id == Some(id);
      assert j in jobs;
    }
  }

  lemma OrphansIgnoreOrder(scans: seq<Scan>, jobs: seq<Job>, waiting: seq<Job>, stuck: set<nat>)
    requires forall j :: j in jobs <==> j in waiting
    ensures OrphanIds(scans, jobs, stuck) == OrphanIds(scans, waiting, stuck)
  {
    assert forall id: nat :: HasJob(jobs, id) <==> HasJob(waiting, id);
  }

  lemma CountNone(ids: set<nat>)
    ensures CountWith([], ids) == 0
  {
  }

  lemma OldestIgnoresOrder(age: int, a: seq<Job>, b: seq<Job>, ids: set<nat>, now: int)
    requires (forall j :: j in a <==> j in b) && IsOldestAge(age, a, ids, now)
    ensures IsOldestAge(age, b, ids, now)
  {
  }

  // ---------- the loop of the first phase ----------

  /** Candidates below `lo` are handled or passed over, and the next page starts at the first other. */
  ghost predicate FirstPhase(orig: seq<Scan>, table: seq<Scan>, cursor: Option<nat>, count: nat, lo: nat,
                             passed: set<nat>, q: Queue, faults: map<nat, Fault>, now: int, mode: SkipMode)
  {
    var cutoff := now - QUEUE_ORPHAN_GRACE_MS;
    && lo <= |orig|
    && table == FailBelow(orig, lo, passed, q, faults, now)
    && (forall p | p in passed :: p < lo)
    && passed + PassedOver(Matching(orig, lo, cutoff), q, faults, mode) == PassedOver(Matching(orig, 0, cutoff), q, faults, mode)
    && PageAfter(table, cursor, cutoff, mode) == Take(Matching(orig, lo, cutoff), BATCH_SIZE)
    && count == |CountedBelow(orig, lo, passed, q, faults, cutoff)|
  }

  lemma FirstPhaseStarts(scans: seq<Scan>, q: Queue, faults: map<nat, Fault>, now: int, mode: SkipMode)
    ensures FirstPhase(scans, scans, None, 0, 0, {}, q, faults, now, mode)
  {
    NothingBelowZero(scans, q, faults, now, mode);
  }

  lemma PageIsSafe(scans: seq<Scan>, cursor: Option<nat>, cutoff: int, mode: SkipMode)
    ensures forall p | p in PageAfter(scans, cursor, cutoff, mode) :: p < |scans|
  {
    hide IsStale, Matching;
    MatchingFacts(scans, 0, cutoff);
    if cursor.Some? {
      var m := Matching(scans, cursor.value, cutoff);
      MatchingFacts(scans, cursor.value, cutoff);
      MatchingFacts(scans, cursor.value + 1, cutoff);
      if m != [] { forall i | 0 <= i < |m[1..]| ensures m[1..][i] < |scans| { assert m[1..][i] == m[i + 1]; } }
    }
    forall p | p in PageAfter(scans, cursor, cutoff, mode) ensures p < |scans| {
      var page := PageAfter(scans, cursor, cutoff, mode);
      var i :| 0 <= i < |page| && page[i] == p;
    }
  }

  lemma ShortPage(orig: seq<Scan>, table: seq<Scan>, cursor: Option<nat>, count: nat, lo: nat,
                  passed: set<nat>, q: Queue, faults: map<nat, Fault>, now: int, mode: SkipMode)
    requires FirstPhase(orig, table, cursor, count, lo, passed, q, faults, now, mode)
    requires |PageAfter(table, cursor, now - QUEUE_ORPHAN_GRACE_MS, mode)| < BATCH_SIZE
    ensures var cutoff := now - QUEUE_ORPHAN_GRACE_MS;
      var page := PageAfter(table, cursor, cutoff, mode);
      var all := PassedOver(Matching(orig, 0, cutoff), q, faults, mode);
      && FailPage(table, page, q, faults, now) == FailBelow(orig, |orig|, all, q, faults, now)
      && count + CountPage(page, q, faults) == |CountedBelow(orig, |orig|, all, q, faults, cutoff)|
  {
    hide HasLiveJob, FailBelow, PageAfter, CountedBelow, Matching, FailPage, CountPage, Covers;
    var cutoff := now - QUEUE_ORPHAN_GRACE_MS;
    var page := PageAfter(table, cursor, cutoff, mode);
    PageCovers(orig, lo, cutoff);
    PageMovesTable(orig, lo, |orig|, page, passed, q, faults, now);
    PageMovesCount(orig, lo, |orig|, page, passed, q, faults, cutoff);
    assert passed + {} == passed;
  }

  lemma FullPage(orig: seq<Scan>, table: seq<Scan>, cursor: Option<nat>, count: nat, lo: nat,
                 passed: set<nat>, q: Queue, faults: map<nat, Fault>, now: int, mode: SkipMode)
    returns (lo': nat, passed': set<nat>)
    requires FirstPhase(orig, table, cursor, count, lo, passed, q, faults, now, mode)
    requires |PageAfter(table, cursor, now - QUEUE_ORPHAN_GRACE_MS, mode)| >= BATCH_SIZE
    ensures var page := PageAfter(table, cursor, now - QUEUE_ORPHAN_GRACE_MS, mode);
      FirstPhase(orig, FailPage(table, page, q, faults, now), Some(page[|page| - 1]),
                 count + CountPage(page, q, faults), lo', passed', q, faults, now, mode)
    ensures lo < lo' <= |orig|
  {
    hide HasLiveJob, FailBelow, PageAfter, CountedBelow, Matching, FailPage, CountPage, Covers, Dies;
    var cutoff := now - QUEUE_ORPHAN_GRACE_MS;
    var page := PageAfter(table, cursor, cutoff, mode);
    var rest := Matching(orig, lo, cutoff);
    PageCovers(orig, lo, cutoff);
    var last := page[|page| - 1];
    assert last == rest[BATCH_SIZE - 1];
    PageMovesTable(orig, lo, last + 1, page, passed, q, faults, now);
    PageMovesCount(orig, lo, last + 1, page, passed, q, faults, cutoff);
    NextPage(orig, last, passed, q, faults, now, mode);
    lo', passed' := last + 1, passed;
    if mode.SkipsOffset? && Dies(q, faults, last) && |rest| > BATCH_SIZE {
      var x := rest[BATCH_SIZE];
      FirstCandidate(orig, lo', cutoff);
      assert Matching(orig, lo', cutoff)[0] == x;
      PassingMovesFrontier(orig, lo', x, passed, q, faults, now);
      assert rest[BATCH_SIZE..][1..] == rest[BATCH_SIZE + 1..];
      assert Matching(orig, x + 1, cutoff) == rest[BATCH_SIZE + 1..];
      var tail := PassedOver(rest[BATCH_SIZE + 1..], q, faults, mode);
      assert PassedOver(rest, q, faults, mode) == {x} + tail;
      assert passed + ({x} + tail) == (passed + {x}) + tail;
      lo', passed' := x + 1, passed + {x};
    } else {
      assert PassedOver(rest, q, faults, mode) == PassedOver(rest[BATCH_SIZE..], q, faults, mode);
    }
  }

  lemma NothingBelowZero(scans: seq<Scan>, q: Queue, faults: map<nat, Fault>, now: int, mode: SkipMode)
    ensures FailBelow(scans, 0, {}, q, faults, now) == scans
    ensures CountedBelow(scans, 0, {}, q, faults, now - QUEUE_ORPHAN_GRACE_MS) == {}
    ensures var cutoff := now - QUEUE_ORPHAN_GRACE_MS;
      PageAfter(scans, None, cutoff, mode) == Take(Matching(scans, 0, cutoff), BATCH_SIZE)
  {
  }

  lemma FirstCandidate(scans: seq<Scan>, lo: nat, cutoff: int)
    requires lo <= |scans| && Matching(scans, lo, cutoff) != []
    ensures var m := Matching(scans, lo, cutoff);
      && lo <= m[0] < |scans|
      && (forall p | lo <= p < m[0] :: !IsStale(scans[p], cutoff))
      && m[1..] == Matching(scans, m[0] + 1, cutoff)
  {
    var m := Matching(scans, lo, cutoff);
    MatchingFacts(scans, lo, cutoff);
    MatchingSuffix(scans, lo, cutoff, 0);
    assert m[0] in m;
    hide IsStale;
    forall p | lo <= p < m[0] ensures p !in m {
      forall i | 0 <= i < |m| ensures m[i] >= m[0] { }
    }
  }

  // ---------- the second phase ----------

  function QueuePage(q: Queue, start: nat): seq<Job> {
    Slice(q.wait, start, start + BATCH_SIZE) + Slice(q.delayed, start, start + BATCH_SIZE)
    + Slice(q.prioritized, start, start + BATCH_SIZE)
  }

  ghost function CollectedBelow(q: Queue, end: nat): multiset<Job> {
    multiset(Slice(q.wait, 0, end)) + multiset(Slice(q.delayed, 0, end)) + multiset(Slice(q.prioritized, 0, end))
  }

  lemma SliceGrows(jobs: seq<Job>, start: nat)
    ensures multiset(Slice(jobs, 0, start + BATCH_SIZE))
         == multiset(Slice(jobs, 0, start)) + multiset(Slice(jobs, start, start + BATCH_SIZE))
    ensures |Slice(jobs, start, start + BATCH_SIZE)| < BATCH_SIZE ==> Slice(jobs, 0, start + BATCH_SIZE) == jobs
    ensures start >= |jobs| ==> Slice(jobs, start, start + BATCH_SIZE) == []
  {
    assert Slice(jobs, 0, start + BATCH_SIZE) == Slice(jobs, 0, start) + Slice(jobs, start, start + BATCH_SIZE);
  }

  lemma NothingCollected(q: Queue)
    ensures CollectedBelow(q, 0) == multiset{}
  {
  }

  lemma QueuePageCollects(q: Queue, start: nat)
    ensures CollectedBelow(q, start + BATCH_SIZE) == CollectedBelow(q, start) + multiset(QueuePage(q, start))
    ensures |QueuePage(q, start)| < BATCH_SIZE ==> CollectedBelow(q, start + BATCH_SIZE) == multiset(Waiting(q))
    ensures start >= |Waiting(q)| ==> QueuePage(q, start) == []
  {
    hide Slice;
    SliceGrows(q.wait, start);
    SliceGrows(q.delayed, start);
    SliceGrows(q.prioritized, start);
  }

  method Measure(jobs: seq<Job>, ids: set<nat>, now: int) returns (depth: nat, oldest: int)
    ensures depth == CountWith(jobs, ids) && IsOldestAge(oldest, jobs, ids, now)
  {
    depth, oldest := 0, 0;
    for i := 0 to |jobs|
      invariant depth == CountWith(jobs[..i], ids) && IsOldestAge(oldest, jobs[..i], ids, now)
      invariant oldest >= 0
    {
      var job := jobs[i];
      assert jobs[..i + 1] == jobs[..i] + [job];
      CountSnoc(jobs[..i], job, ids);
      if job.id.Some? && job.id.value in ids {
        depth, oldest := depth + 1, Max(oldest, Age(job, now));
      }
    }
    assert jobs[..|jobs|] == jobs;
  }

  lemma {:induction false} CountConcat(a: seq<Job>, b: seq<Job>, ids: set<nat>)
    ensures CountWith(a + b, ids) == CountWith(a, ids) + CountWith(b, ids)
  {
    if a == [] {
      assert a + b == b;
    } else {
      CountConcat(a[1..], b, ids);
      assert (a + b)[1..] == a[1..] + b;
    }
  }

  lemma CountSnoc(a: seq<Job>, j: Job, ids: set<nat>)
    ensures CountWith(a + [j], ids) == CountWith(a, ids) + (if j.id.Some? && j.id.value in ids then 1 else 0)
  {
    CountConcat(a, [j], ids);
  }

  lemma PullOne(b: seq<Job>, i: nat, ids: set<nat>)
    requires i < |b|
    ensures var rest := b[..i] + b[i + 1..];
      && CountWith(b, ids) == CountWith([b[i]], ids) + CountWith(rest, ids)
      && multiset(b) == multiset{b[i]} + multiset(rest)
  {
    hide CountWith;
    CountConcat(b[..i], [b[i]] + b[i + 1..], ids);
    CountConcat([b[i]], b[i + 1..], ids);
    CountConcat(b[..i], b[i + 1..], ids);
    assert b == b[..i] + ([b[i]] + b[i + 1..]);
  }

  lemma {:induction false} CountIgnoresOrder(a: seq<Job>, b: seq<Job>, ids: set<nat>)
    requires multiset(a) == multiset(b)
    ensures CountWith(a, ids) == CountWith(b, ids)
  {
    hide CountWith;
    if a == [] {
      assert |multiset(b)| == 0;
    } else {
      assert a[0] in multiset(b);
      var i :| 0 <= i < |b| && b[i] == a[0];
      PullOne(a, 0, ids);
      PullOne(b, i, ids);
      assert a[..0] + a[0 + 1..] == a[1..];
      var rest := b[..i] + b[i + 1..];
      assert multiset(a[1..]) == multiset(a) - multiset{a[0]};
      assert multiset(rest) == multiset(b) - multiset{b[i]};
      CountIgnoresOrder(a[1..], rest, ids);
    }
  }

  lemma MembersIgnoreOrder(a: seq<Job>, b: seq<Job>)
    requires multiset(a) == multiset(b)
    ensures forall j :: j in a <==> j in b
    ensures |a| == |b|
  {
    assert forall j :: j in a <==> j in multiset(a);
    assert |multiset(a)| == |a| && |multiset(b)| == |b|;
  }

  lemma {:induction false} WithoutTwice(jobs: seq<Job>, a: set<nat>, b: set<nat>)
    ensures Without(Without(jobs, a), b) == Without(jobs, a + b)
  {
    if jobs != [] { WithoutTwice(jobs[1..], a, b); }
  }

  lemma {:induction false} WithoutNothing(jobs: seq<Job>, removed: set<nat>)
    requires forall j | j in jobs && j.id.Some? :: j.id.value !in removed
    ensures Without(jobs, removed) == jobs
  {
    if jobs != [] { WithoutNothing(jobs[1..], removed); }
  }

  lemma PruneTwice(q: Queue, a: set<nat>, b: set<nat>)
    ensures Prune(Prune(q, a), b) == Prune(q, a + b)
  {
    WithoutTwice(q.wait, a, b);
    WithoutTwice(q.delayed, a, b);
    WithoutTwice(q.prioritized, a, b);
  }

  lemma PruneNothing(q: Queue)
    ensures Prune(q, {}) == q
  {
    WithoutNothing(q.wait, {});
    WithoutNothing(q.delayed, {});
    WithoutNothing(q.prioritized, {});
  }

  // ---------- whole sweeps ----------

  function Passed(scans: seq<Scan>, q: Queue, faults: map<nat, Fault>, now: int, mode: SkipMode): set<nat> {
    PassedOver(Matching(scans, 0, now - QUEUE_ORPHAN_GRACE_MS), q, faults, mode)
  }

  function SweptScans(scans: seq<Scan>, q: Queue, faults: map<nat, Fault>, now: int, mode: SkipMode): (r: seq<Scan>)
    ensures |r| == |scans|
  {
    FailBelow(scans, |scans|, Passed(scans, q, faults, now, mode), q, faults, now)
  }

  /** The queue after the second phase, given the table as the first phase left it. */
  function SweptQueue(scans: seq<Scan>, q: Queue, stuck: set<nat>): Queue {
    Prune(q, OrphanIds(scans, Waiting(q), stuck))
  }

  ghost predicate IsReport(r: SweepResult, scans: seq<Scan>, q: Queue, faults: map<nat, Fault>, stuck: set<nat>,
                           now: int, mode: SkipMode)
  {
    var swept := SweptScans(scans, q, faults, now, mode);
    && r.failedScans == |CountedBelow(scans, |scans|, Passed(scans, q, faults, now, mode), q, faults, now - QUEUE_ORPHAN_GRACE_MS)|
    && r.removedJobs == CountWith(Waiting(q), OrphanIds(swept, Waiting(q), stuck))
    && r.queueDepth == CountWith(Waiting(q), ActiveIds(swept))
    && IsOldestAge(r.oldestAgeMs, Waiting(q), ActiveIds(swept), now)
  }

  /** A stale active scan whose job will never be processed. */
  predicate IsOrphanScan(scans: seq<Scan>, q: Queue, p: nat, now: int) {
    p < |scans| && IsStale(scans[p], now - QUEUE_ORPHAN_GRACE_MS) && !HasLiveJob(q, p)
  }

  predicate AllHaveIds(jobs: seq<Job>) { forall j | j in jobs :: j.id.Some? }

  // ---------- safety, with any faults ----------

  /** Only orphans are failed, and everything else in the table stays as it was. */
  lemma OnlyOrphansAreFailed(scans: seq<Scan>, q: Queue, faults: map<nat, Fault>, now: int, mode: SkipMode, p: nat)
    requires p < |scans|
    ensures var after := SweptScans(scans, q, faults, now, mode)[p];
      after != scans[p] ==> IsOrphanScan(scans, q, p, now) && after == scans[p].(status := Failed, updatedAt := now)
  {
  }

  /** Removing jobs of inactive scans, whichever ones, takes no live job from an active scan. */
  lemma ActiveScansKeepTheirJobs(scans: seq<Scan>, q: Queue, removed: set<nat>, p: nat)
    requires removed <= OrphanIds(scans, Waiting(q), {}) && ScanIsActive(scans, p)
    ensures HasLiveJob(Prune(q, removed), p) == HasLiveJob(q, p)
  {
    hide ScanIsActive, OrphanIds;
    PrunedWaiting(q, removed);
  }

  lemma PrunedWaiting(q: Queue, removed: set<nat>)
    ensures Waiting(Prune(q, removed)) == Without(Waiting(q), removed)
  {
    WithoutConcat(q.wait, q.delayed, removed);
    WithoutConcat(q.wait + q.delayed, q.prioritized, removed);
  }

  lemma {:induction false} WithoutConcat(a: seq<Job>, b: seq<Job>, removed: set<nat>)
    ensures Without(a + b, removed) == Without(a, removed) + Without(b, removed)
  {
    if a == [] {
      assert a + b == b;
    } else {
      WithoutConcat(a[1..], b, removed);
      assert (a + b)[1..] == a[1..] + b;
    }
  }

  // ---------- which scans and jobs, by their own fields ----------

  /** No waiting job of any of the three types carries the id. */
  ghost predicate NoWaitingJob(q: Queue, id: nat) {
    forall j | j in q.wait || j in q.delayed || j in q.prioritized :: j.id != Some(id)
  }

  /**
   A scan is failed exactly when it was active, not deleted and untouched for more than five
   minutes, was not passed over, nothing threw before its update, and its job is missing, completed
   or failed; every other scan stays as it was.
   */
  lemma FailedExactly(scans: seq<Scan>, q: Queue, faults: map<nat, Fault>, now: int, mode: SkipMode, p: nat)
    requires p < |scans|
    ensures SweptScans(scans, q, faults, now, mode)[p] ==
      if scans[p].status in {Queued, Preflight, Running, Verifying} && !scans[p].deleted && now - scans[p].updatedAt > 300_000
         && p !in Passed(scans, q, faults, now, mode) && (p in faults ==> faults[p] != BeforeUpdate)
         && NoWaitingJob(q, p) && (p in q.settled ==> q.settled[p] in {CompletedJob, FailedJob})
      then Scan(Failed, scans[p].deleted, now) else scans[p]
  {
    hide Passed;
    assert HasJob(Waiting(q), p) <==> !NoWaitingJob(q, p);
  }

  /** A waiting job stays exactly when it has no id, cannot be removed, or belongs to an active scan. */
  lemma KeptExactly(scans: seq<Scan>, q: Queue, stuck: set<nat>, j: Job)
    ensures var after := SweptQueue(scans, q, stuck);
      var keeps := j.id.None? || j.id.value in stuck
                   || (j.id.value < |scans| && scans[j.id.value].status in {Queued, Preflight, Running, Verifying});
      && (j in after.wait <==> j in q.wait && keeps)
      && (j in after.delayed <==> j in q.delayed && keeps)
      && (j in after.prioritized <==> j in q.prioritized && keeps)
      && after.settled == q.settled
  {
    if j in q.wait || j in q.delayed || j in q.prioritized { assert j in Waiting(q); }
  }

  /** The scans counted are those failed without a later error. */
  lemma CountedExactly(scans: seq<Scan>, q: Queue, faults: map<nat, Fault>, now: int, mode: SkipMode, p: nat)
    ensures var passed, swept := Passed(scans, q, faults, now, mode), SweptScans(scans, q, faults, now, mode);
      p in CountedBelow(scans, |scans|, passed, q, faults, now - QUEUE_ORPHAN_GRACE_MS) <==>
        p < |scans| && swept[p].status == Failed != scans[p].status && (p in faults ==> faults[p] == NoFault)
  {
    hide Passed, HasLiveJob;
  }

  /** The reported age is that of the oldest waiting job of an active scan, and zero without one. */
  lemma OldestAgeExactly(scans: seq<Scan>, q: Queue, age: int, now: int)
    requires IsOldestAge(age, Waiting(q), ActiveIds(scans), now)
    ensures forall j | j in Waiting(q) && j.id.Some? && j.id.value < |scans| && Active(scans[j.id.value].status) ::
      now - j.timestamp <= age
    ensures age >= 0
    ensures age == 0 || exists j :: j in Waiting(q) && j.id.Some? && j.id.value < |scans|
                                    && Active(scans[j.id.value].status) && now - j.timestamp == age
  {
  }

  // ---------- what a sweep without faults achieves ----------

  /** Every waiting job with an id has an active scan. */
  lemma WaitingJobsHaveActiveScans(scans: seq<Scan>, q: Queue, j: Job)
    requires j in Waiting(SweptQueue(scans, q, {})) && j.id.Some?
    ensures ScanIsActive(scans, j.id.value)
  {
    PrunedWaiting(q, OrphanIds(scans, Waiting(q), {}));
  }

  /** The reported depth is the number of waiting jobs left, when every job has an id. */
  lemma QueueDepthIsExact(scans: seq<Scan>, q: Queue)
    requires AllHaveIds(Waiting(q))
    ensures CountWith(Waiting(q), ActiveIds(scans)) == |Waiting(SweptQueue(scans, q, {}))|
  {
    var gone := OrphanIds(scans, Waiting(q), {});
    PrunedWaiting(q, gone);
    CountsKept(Waiting(q), gone, ActiveIds(scans));
  }

  /** Every job removed is counted, whatever is stuck. */
  lemma RemovedJobsAreCounted(scans: seq<Scan>, q: Queue, stuck: set<nat>)
    ensures CountWith(Waiting(q), OrphanIds(scans, Waiting(q), stuck)) == |Waiting(q)| - |Waiting(SweptQueue(scans, q, stuck))|
  {
    var gone := OrphanIds(scans, Waiting(q), stuck);
    PrunedWaiting(q, gone);
    CountsGone(Waiting(q), gone);
  }

  lemma {:induction false} CountsGone(jobs: seq<Job>, gone: set<nat>)
    ensures CountWith(jobs, gone) + |Without(jobs, gone)| == |jobs|
  {
    if jobs != [] { CountsGone(jobs[1..], gone); }
  }

  lemma {:induction false} CountsKept(jobs: seq<Job>, gone: set<nat>, kept: set<nat>)
    requires forall j | j in jobs :: j.id.Some? && (j.id.value in gone <==> j.id.value !in kept)
    ensures CountWith(jobs, kept) == |Without(jobs, gone)|
  {
    if jobs != [] { CountsKept(jobs[1..], gone, kept); }
  }

  /** A candidate is passed over only behind an earlier one that was failed. */
  lemma {:induction false} PassedOverFollowsAFailure(c: seq<nat>, q: Queue, faults: map<nat, Fault>, mode: SkipMode, x: nat)
    requires Ascending(c) && x in PassedOver(c, q, faults, mode)
    ensures x in c && mode.SkipsOffset? && |c| > BATCH_SIZE
    ensures exists y :: y in c && y < x && Dies(q, faults, y)
    decreases |c|
  {
    hide Dies, HasLiveJob;
    if mode.SkipsOffset? && Dies(q, faults, c[BATCH_SIZE - 1]) && |c| > BATCH_SIZE {
      assert c[BATCH_SIZE - 1] in c && c[BATCH_SIZE] in c;
      if x != c[BATCH_SIZE] {
        PassedOverFollowsAFailure(c[BATCH_SIZE + 1..], q, faults, mode, x);
      }
    } else {
      PassedOverFollowsAFailure(c[BATCH_SIZE..], q, faults, mode, x);
    }
  }

  /** Nothing is passed over when the cursor row is what the page skips, or when one page is enough. */
  lemma NothingIsPassedOver(scans: seq<Scan>, q: Queue, faults: map<nat, Fault>, now: int, mode: SkipMode)
    requires mode.SkipsCursorRow? || |Matching(scans, 0, now - QUEUE_ORPHAN_GRACE_MS)| <= 500
    ensures Passed(scans, q, faults, now, mode) == {}
  {
    hide Matching, PassedOver, Dies;
    var m := Matching(scans, 0, now - QUEUE_ORPHAN_GRACE_MS);
    MatchingFacts(scans, 0, now - QUEUE_ORPHAN_GRACE_MS);
    forall x | x in Passed(scans, q, faults, now, mode) ensures false {
      PassedOverFollowsAFailure(m, q, faults, mode, x);
    }
  }

  ghost predicate NoOrphanPassedOver(scans: seq<Scan>, q: Queue, now: int, mode: SkipMode) {
    forall p | p in Passed(scans, q, map[], now, mode) :: HasLiveJob(q, p)
  }

  /** After a sweep every stale active scan has a live job, exactly when no orphan was passed over. */
  lemma StaleScansHaveJobsExactly(scans: seq<Scan>, q: Queue, now: int, mode: SkipMode)
    ensures var after := SweptScans(scans, q, map[], now, mode);
      (forall p: nat :: !IsOrphanScan(after, SweptQueue(after, q, {}), p, now)) <==> NoOrphanPassedOver(scans, q, now, mode)
  {
    hide HasLiveJob, PassedOver, Matching, SweptQueue;
    var after, passed := SweptScans(scans, q, map[], now, mode), Passed(scans, q, map[], now, mode);
    forall p: nat ensures IsOrphanScan(after, SweptQueue(after, q, {}), p, now) <==> p in passed && !HasLiveJob(q, p) {
      SweepLeaves(scans, q, now, mode, p);
    }
  }

  /** The orphans a sweep leaves are those it passed over. */
  lemma SweepLeaves(scans: seq<Scan>, q: Queue, now: int, mode: SkipMode, p: nat)
    ensures var after := SweptScans(scans, q, map[], now, mode);
      IsOrphanScan(after, SweptQueue(after, q, {}), p, now) <==> p in Passed(scans, q, map[], now, mode) && !HasLiveJob(q, p)
  {
    hide HasLiveJob, PassedOver, Matching, Prune;
    var after := SweptScans(scans, q, map[], now, mode);
    var cutoff := now - QUEUE_ORPHAN_GRACE_MS;
    MatchingFacts(scans, 0, cutoff);
    if ScanIsActive(after, p) {
      ActiveScansKeepTheirJobs(after, q, OrphanIds(after, Waiting(q), {}), p);
    }
    if p in Passed(scans, q, map[], now, mode) {
      PassedOverFollowsAFailure(Matching(scans, 0, cutoff), q, map[], mode, p);
    }
  }

  /** With the offset reading and 501 orphans, the last one survives the sweep. */
  lemma FiveHundredOneOrphansLeaveOne(scans: seq<Scan>, q: Queue, now: int)
    requires |scans| == 501 && forall p: nat | p < |scans| :: IsOrphanScan(scans, q, p, now)
    ensures var after := SweptScans(scans, q, map[], now, SkipsOffset);
      && IsOrphanScan(after, SweptQueue(after, q, {}), 500, now)
      && forall p: nat | p < 500 :: after[p].status == Failed
  {
    hide HasLiveJob, Matching, SweptQueue;
    var cutoff := now - QUEUE_ORPHAN_GRACE_MS;
    forall p: nat | p < |scans| ensures IsStale(scans[p], cutoff) {
      assert IsOrphanScan(scans, q, p, now);
    }
    AllMatch(scans, 0, cutoff);
    var m := Matching(scans, 0, cutoff);
    assert IsOrphanScan(scans, q, BATCH_SIZE - 1, now) && IsOrphanScan(scans, q, BATCH_SIZE, now);
    assert m[BATCH_SIZE + 1..] == [];
    assert PassedOver(m, q, map[], SkipsOffset) == {BATCH_SIZE};
    SweepLeaves(scans, q, now, SkipsOffset, BATCH_SIZE);
    forall p: nat | p < BATCH_SIZE ensures SweptScans(scans, q, map[], now, SkipsOffset)[p].status == Failed {
      assert IsOrphanScan(scans, q, p, now);
    }
  }

  lemma {:induction false} AllMatch(scans: seq<Scan>, from: nat, cutoff: int)
    requires from <= |scans| && forall p: nat | p < |scans| :: IsStale(scans[p], cutoff)
    ensures |Matching(scans, from, cutoff)| == |scans| - from
    ensures forall i | 0 <= i < |scans| - from :: Matching(scans, from, cutoff)[i] == from + i
    decreases |scans| - from
  {
    hide IsStale;
    if from < |scans| { AllMatch(scans, from + 1, cutoff); }
  }

  // ---------- sweeping again ----------

  /** A sweep repairs nothing exactly when there is no orphan on either side. */
  lemma RepairsNothingExactly(scans: seq<Scan>, q: Queue, now: int, mode: SkipMode)
    ensures SweptScans(scans, q, map[], now, mode) == scans <==> forall p: nat :: !IsOrphanScan(scans, q, p, now)
  {
    hide HasLiveJob, PassedOver, Matching, IsStale;
    var after := SweptScans(scans, q, map[], now, mode);
    if p: nat :| IsOrphanScan(scans, q, p, now) {
      var first := FirstOrphan(scans, q, now, p);
      FirstOrphanIsFailed(scans, q, now, mode, first);
    }
    forall p: nat | p < |scans| && !IsOrphanScan(scans, q, p, now) ensures after[p] == scans[p] {
      OnlyOrphansAreFailed(scans, q, map[], now, mode, p);
    }
  }

  lemma {:induction false} FirstOrphan(scans: seq<Scan>, q: Queue, now: int, p: nat) returns (first: nat)
    requires IsOrphanScan(scans, q, p, now)
    ensures IsOrphanScan(scans, q, first, now) && forall i: nat | i < first :: !IsOrphanScan(scans, q, i, now)
  {
    hide IsOrphanScan;
    if i: nat :| i < p && IsOrphanScan(scans, q, i, now) {
      first := FirstOrphan(scans, q, now, i);
    } else {
      first := p;
    }
  }

  /** The earliest orphan is never passed over, so every sweep with work to do makes progress. */
  lemma FirstOrphanIsFailed(scans: seq<Scan>, q: Queue, now: int, mode: SkipMode, p: nat)
    requires IsOrphanScan(scans, q, p, now) && forall i: nat | i < p :: !IsOrphanScan(scans, q, i, now)
    ensures SweptScans(scans, q, map[], now, mode)[p].status == Failed != scans[p].status
  {
    hide HasLiveJob, PassedOver, Matching;
    var cutoff := now - QUEUE_ORPHAN_GRACE_MS;
    MatchingFacts(scans, 0, cutoff);
    var m := Matching(scans, 0, cutoff);
    forall y | y in m && y < p ensures !Dies(q, map[], y) {
      assert !IsOrphanScan(scans, q, y, now);
    }
    if p in Passed(scans, q, map[], now, mode) {
      PassedOverFollowsAFailure(m, q, map[], mode, p);
    }
  }

  /** A second sweep at the same time repairs nothing, exactly when the first passed over no orphan. */
  lemma SecondSweepRepairsNothingExactly(scans: seq<Scan>, q: Queue, now: int, mode: SkipMode)
    ensures var after := SweptScans(scans, q, map[], now, mode);
      var queue := SweptQueue(after, q, {});
      var again := SweptScans(after, queue, map[], now, mode);
      again == after && SweptQueue(again, queue, {}) == queue <==> NoOrphanPassedOver(scans, q, now, mode)
  {
    hide SweptScans, SweptQueue, IsOrphanScan, NoOrphanPassedOver;
    var after := SweptScans(scans, q, map[], now, mode);
    var queue := SweptQueue(after, q, {});
    RepairsNothingExactly(after, queue, now, mode);
    StaleScansHaveJobsExactly(scans, q, now, mode);
    QueueStaysSwept(after, q);
  }

  lemma QueueStaysSwept(scans: seq<Scan>, q: Queue)
    ensures SweptQueue(scans, SweptQueue(scans, q, {}), {}) == SweptQueue(scans, q, {})
  {
    hide Prune;
    var queue := SweptQueue(scans, q, {});
    forall j | j in Waiting(queue) && j.id.Some? ensures ScanIsActive(scans, j.id.value) {
      WaitingJobsHaveActiveScans(scans, q, j);
    }
    assert OrphanIds(scans, Waiting(queue), {}) == {};
    PruneNothing(queue);
  }
}
