/**
 The sustained queue-depth alert. One stored timestamp stands for the whole history of samples.
 */
module OperationalHealth {
  import opened Wrappers

  const QUEUE_DEPTH_MULTIPLIER: int := 2
  const QUEUE_DEPTH_SUSTAINED_MS: int := 600_000

  datatype Sample = Sample(now: int, queueDepth: int, workerConcurrency: int)

  datatype Alert = Alert(value: int, threshold: int, severity: int)

  function Max(a: int, b: int): int { if a >= b then a else b }

  function Threshold(workerConcurrency: int): int {
    QUEUE_DEPTH_MULTIPLIER * Max(1, workerConcurrency)
  }

  predicate Exceeds(s: Sample) {
    s.queueDepth > Threshold(s.workerConcurrency)
  }

  /** A sample is above its threshold from more than two waiting jobs a worker on, one worker at least. */
  lemma ExceedsExactly(s: Sample)
    ensures Exceeds(s) <==> s.queueDepth > Threshold(s.workerConcurrency)
    ensures Threshold(s.workerConcurrency) == if s.workerConcurrency >= 1 then 2 * s.workerConcurrency else 2
  {
  }

  predicate Chronological(history: seq<Sample>) {
    forall i, j | 0 <= i < j < |history| :: history[i].now <= history[j].now
  }

  /** Every sample from index i on is above its own threshold. */
  predicate UnbrokenFrom(history: seq<Sample>, i: nat) {
    i < |history| && forall j | i <= j < |history| :: Exceeds(history[j])
  }

  /** Some unbroken run that reaches the last sample began at least ten minutes before it. */
  ghost predicate Sustained(history: seq<Sample>) {
    exists i: nat :: UnbrokenFrom(history, i) && history[|history| - 1].now - history[i].now >= 600_000
  }

  /** Index at which the unbroken run that reaches the end begins; the length when there is none. */
  function RunIndex(history: seq<Sample>): (k: nat)
    ensures k <= |history|
  {
    if history == [] || !Exceeds(history[|history| - 1]) then |history| else RunIndex(history[..|history| - 1])
  }

  function RunStart(history: seq<Sample>): Option<int> {
    if RunIndex(history) == |history| then None else Some(history[RunIndex(history)].now)
  }

  lemma {:induction false} RunIndexIsLeast(history: seq<Sample>)
    ensures forall i: nat :: UnbrokenFrom(history, i) <==> RunIndex(history) <= i < |history|
  {
    if history != [] {
      var last := |history| - 1;
      var before := history[..last];
      if Exceeds(history[last]) {
        RunIndexIsLeast(before);
        forall i: nat ensures UnbrokenFrom(history, i) <==> RunIndex(history) <= i < |history| {
          if i < last {
            assert UnbrokenFrom(before, i) <==> UnbrokenFrom(history, i) by {
              assert forall j | i <= j < last :: before[j] == history[j];
            }
          }
        }
      }
    }
  }

  lemma StoredStartDecides(history: seq<Sample>)
    requires Chronological(history) && history != []
    ensures Sustained(history) <==>
      RunStart(history).Some? && history[|history| - 1].now - RunStart(history).value >= QUEUE_DEPTH_SUSTAINED_MS
  {
    RunIndexIsLeast(history);
    if RunStart(history).Some? { assert UnbrokenFrom(history, RunIndex(history)); }
  }

  /** An unbroken run that reaches the latest sample began at or before sample `i` and ten minutes before it. */
  ghost predicate SustainedAt(history: seq<Sample>, i: nat)
    requires i < |history|
  {
    exists j: nat :: j <= i && UnbrokenFrom(history, j) && history[i].now - history[j].now >= 600_000
  }

  /** The stored start decides this for any sample whose evaluation comes late. */
  lemma StoredStartDecidesAt(history: seq<Sample>, i: nat)
    requires Chronological(history) && i < |history|
    ensures SustainedAt(history, i) <==>
      RunStart(history).Some? && history[i].now - RunStart(history).value >= QUEUE_DEPTH_SUSTAINED_MS
    ensures SustainedAt(history, i) ==> Exceeds(history[i])
    ensures i == |history| - 1 ==> (SustainedAt(history, i) <==> Sustained(history))
  {
    RunIndexIsLeast(history);
    if RunStart(history).Some? { assert UnbrokenFrom(history, RunIndex(history)); }
  }

  /** Samples stored meanwhile can only silence an alert, and do so exactly when one of them broke the run. */
  lemma OverlapSilencesExactly(history: seq<Sample>, i: nat)
    requires Chronological(history) && i < |history|
    ensures SustainedAt(history, i) <==>
      Sustained(history[..i + 1]) && forall j | i < j < |history| :: Exceeds(history[j])
  {
    var own := history[..i + 1];
    if Sustained(own) && (forall j | i < j < |history| :: Exceeds(history[j])) {
      var k: nat :| UnbrokenFrom(own, k) && own[|own| - 1].now - own[k].now >= QUEUE_DEPTH_SUSTAINED_MS;
      forall j | k <= j < |history| ensures Exceeds(history[j]) {
        if j <= i { assert own[j] == history[j]; }
      }
      assert UnbrokenFrom(history, k);
    }
    if SustainedAt(history, i) {
      var k: nat :| k <= i && UnbrokenFrom(history, k) && history[i].now - history[k].now >= QUEUE_DEPTH_SUSTAINED_MS;
      assert UnbrokenFrom(own, k);
    }
  }

  /** The queue-depth clause of `evaluateOperationalHealth`; absent fields are None. */
  method EvaluateQueueDepth(queueDepth: Option<int>, workerConcurrency: Option<int>, exceededAgeMs: Option<int>)
    returns (alerts: seq<Alert>)
    ensures alerts != [] <==>
      && queueDepth.Some?
      && queueDepth.value > Threshold(if workerConcurrency.Some? then workerConcurrency.value else 1)
      && exceededAgeMs.Some? && exceededAgeMs.value >= QUEUE_DEPTH_SUSTAINED_MS
    ensures alerts != [] ==>
      alerts == [Alert(queueDepth.value, Threshold(if workerConcurrency.Some? then workerConcurrency.value else 1), 2)]
  {
    alerts := [];
    var concurrency := if workerConcurrency.Some? then workerConcurrency.value else 1;
    var threshold := QUEUE_DEPTH_MULTIPLIER * Max(1, concurrency);
    var age := if exceededAgeMs.Some? then exceededAgeMs.value else 0;
    if queueDepth.Some? && queueDepth.value > threshold && age >= QUEUE_DEPTH_SUSTAINED_MS {
      alerts := alerts + [Alert(queueDepth.value, threshold, 2)];
    }
  }

  /** The collector's module state. `history` records the samples since the last reset. */
  class Collector {
    var exceededSinceMs: Option<int>
    ghost var history: seq<Sample>

    ghost predicate Valid()
      reads this
    {
      exceededSinceMs == RunStart(history)
    }

    constructor ()
      ensures Valid() && history == []
    {
      exceededSinceMs := None;
      history := [];
    }

    method Reset()
      modifies this
      ensures Valid() && history == []
    {
      exceededSinceMs := None;
      history := [];
    }

    /** The first half of a collection, up to the database reads: store the start of a run. */
    method Begin(s: Sample) returns (ghost i: nat)
      requires Valid()
      modifies this
      ensures Valid() && history == old(history) + [s] && i == |old(history)|
    {
      var threshold := QUEUE_DEPTH_MULTIPLIER * Max(1, s.workerConcurrency);
      if s.queueDepth > threshold {
        if exceededSinceMs.None? { exceededSinceMs := Some(s.now); }
      } else {
        exceededSinceMs := None;
      }
      i := |history|;
      history := history + [s];
      assert history[..|history| - 1] == old(history);
    }

    /**
     The second half, after the reads: other samples may have been stored meanwhile. A collection
     whose reads fail ends before this.
     */
    method Finish(s: Sample, ghost i: nat) returns (alerts: seq<Alert>)
      requires Valid() && Chronological(history) && i < |history| && history[i] == s
      ensures alerts != [] <==> SustainedAt(history, i)
      ensures alerts != [] ==> alerts == [Alert(s.queueDepth, Threshold(s.workerConcurrency), 2)]
    {
      var age := if exceededSinceMs.None? then 0 else s.now - exceededSinceMs.value;
      alerts := EvaluateQueueDepth(Some(s.queueDepth), Some(s.workerConcurrency), Some(age));
      RunIndexIsLeast(history);
      StoredStartDecidesAt(history, i);
    }

    /** A collection that nothing overlaps. */
    method Tick(s: Sample) returns (alerts: seq<Alert>)
      requires Valid() && Chronological(history + [s])
      modifies this
      ensures Valid() && history == old(history) + [s]
      ensures alerts != [] <==> Sustained(history)
      ensures alerts != [] ==> alerts == [Alert(s.queueDepth, Threshold(s.workerConcurrency), 2)]
    {
      ghost var i := Begin(s);
      alerts := Finish(s, i);
    }
  }
}
