/** The retry machine of the status controller (status.go:135-175): a rate-limited work
    queue that only ever holds one key. */
module StatusQueue {
  import opened Types

  const MAX_REQUEUES := 30

  /** What the work queue knows of the key: the failures counted against it, whether it is
      marked for processing, whether a delayed add is waiting, whether it is being worked
      on. */
  datatype Queue = Queue(requeues: nat, dirty: bool, waiting: bool, processing: bool)

  datatype Event =
    | Trigger               // the informer or the version channel adds the key
    | Expire                // the delay of a rate-limited add is over
    | Start                 // a worker takes the key
    | Finish(failed: bool)  // the worker handles the outcome and is done

  predicate Enabled(q: Queue, e: Event) {
    match e
    case Trigger => true
    case Expire => q.waiting
    case Start => q.dirty && !q.processing
    case Finish(_) => q.processing
  }

  function Step(q: Queue, e: Event): Queue {
    match e
    case Trigger => q.(dirty := true)
    case Expire => q.(waiting := false, dirty := true)
    case Start => q.(dirty := false, processing := true)
    case Finish(failed) =>
      if !failed then q.(requeues := 0, processing := false)
      else if q.requeues < MAX_REQUEUES then q.(requeues := q.requeues + 1, waiting := true, processing := false)
      else q.(requeues := 0, processing := false)
  }

  function Execute(start: Queue, events: seq<Event>): Option<Queue> {
    if events == [] then Some(start)
    else
      var last := |events| - 1;
      match Execute(start, events[..last])
      case None => None
      case Some(q) => if Enabled(q, events[last]) then Some(Step(q, events[last])) else None
  }

  // ---------------------------------------------------------------- the code

  /** The queue as the controller uses it. */
  class StatusController {
    var requeues: nat
    var dirty: bool
    var waiting: bool
    var processing: bool

    constructor ()
      ensures Contents() == Queue(0, false, false, false)
    {
      requeues, dirty, waiting, processing := 0, false, false, false;
    }

    function Contents(): Queue
      reads this
    {
      Queue(requeues, dirty, waiting, processing)
    }

    method Add()
      modifies this
      ensures Contents() == Step(old(Contents()), Trigger)
    {
      if dirty {
        return;
      }
      dirty := true;
    }

    method AddRateLimited()
      modifies this
      ensures Contents() == old(Contents()).(requeues := old(requeues) + 1, waiting := true)
    {
      requeues := requeues + 1;
      waiting := true;
    }

    method Forget()
      modifies this
      ensures Contents() == old(Contents()).(requeues := 0)
    {
      requeues := 0;
    }

    method HandleErr(failed: bool)
      modifies this
      ensures Contents() == Step(old(Contents()), Finish(failed)).(processing := old(processing))
    {
      if !failed {
        Forget();
        return;
      }
      if requeues < MAX_REQUEUES {
        AddRateLimited();
        return;
      }
      Forget();
    }

    /** One round of the worker; the key may be added anew while it is being worked on. */
    method ProcessNextItem(failed: bool, addedMeanwhile: bool)
      requires dirty && !processing
      modifies this
      ensures var taken := Step(old(Contents()), Start);
              Contents() == Step(if addedMeanwhile then Step(taken, Trigger) else taken, Finish(failed))
    {
      processing, dirty := true, false;
      if addedMeanwhile {
        Add();
      }
      HandleErr(failed);
      processing := false;
    }
  }

  // ---------------------------------------------------------------- properties

  /** Failures since the last success. */
  function FailuresInARow(events: seq<Event>): nat {
    if events == [] then 0
    else
      var init := events[..|events| - 1];
      match events[|events| - 1]
      case Finish(failed) => if failed then FailuresInARow(init) + 1 else 0
      case _ => FailuresInARow(init)
  }

  predicate AtRest(q: Queue) {
    !q.dirty && !q.waiting && !q.processing
  }

  const FRESH := Queue(0, false, false, false)

  /** What the counter says about `failures` failures in a row. */
  ghost predicate Counted(q: Queue, failures: nat) {
    && q.requeues == failures % 31 && q.requeues <= MAX_REQUEUES
    && (q.requeues > 0 ==> !AtRest(q))
  }

  lemma OneMoreFailure(failures: nat)
    ensures (failures + 1) % 31 == if failures % 31 == MAX_REQUEUES then 0 else failures % 31 + 1
  {
  }

  lemma StepIsCounted(q: Queue, e: Event, failures: nat)
    requires Counted(q, failures) && Enabled(q, e)
    ensures Counted(Step(q, e), if e.Finish? then if e.failed then failures + 1 else 0 else failures)
  {
    OneMoreFailure(failures);
  }

  /** Bounded retry, over every run: the counter is the number of failures in a row modulo
      31, so it stays within 0..30; and the key is left alone only after a success or after
      a multiple of 31 failures in a row. */
  lemma {:induction false} CounterIsExact(events: seq<Event>)
    requires Execute(FRESH, events).Some?
    ensures var q := Execute(FRESH, events).value;
            && q.requeues == FailuresInARow(events) % 31 && q.requeues <= MAX_REQUEUES
            && (AtRest(q) ==> FailuresInARow(events) % 31 == 0)
            && (q.requeues > 0 ==> !AtRest(q))
  {
    if events != [] {
      var init := events[..|events| - 1];
      CounterIsExact(init);
      StepIsCounted(Execute(FRESH, init).value, events[|events| - 1], FailuresInARow(init));
    }
  }

  /** A trigger is not lost: whatever comes after it, the key does not come to rest before a
      worker takes it up once more. */
  lemma {:induction false} TriggerIsNotLost(start: Queue, before: seq<Event>, after: seq<Event>)
    requires Execute(start, before + [Trigger] + after).Some?
    ensures AtRest(Execute(start, before + [Trigger] + after).value) ==> Start in after
    ensures Start !in after ==> Execute(start, before + [Trigger] + after).value.dirty
    decreases |after|
  {
    var events := before + [Trigger] + after;
    if after == [] {
      assert events[|events| - 1] == Trigger;
    } else {
      var init := after[..|after| - 1];
      assert events[..|events| - 1] == before + [Trigger] + init;
      assert events[|events| - 1] == after[|after| - 1];
      TriggerIsNotLost(start, before, init);
      assert after == init + [after[|after| - 1]];
    }
  }

  function Starts(events: seq<Event>): nat {
    if events == [] then 0
    else Starts(events[..|events| - 1]) + if events[|events| - 1] == Start then 1 else 0
  }

  /** How often the key can still be taken up without a trigger: each mention of the key is
      good for 31 failing rounds, less those already counted; the key being worked on may
      yet be mentioned once more. */
  function Budget(q: Queue): int {
    var mentions := (if q.dirty then 1 else 0) + (if q.waiting then 1 else 0);
    if q.processing then if mentions == 2 then 62 else 31 * mentions + 30 - q.requeues
    else if mentions == 0 then 0
    else 31 * mentions - q.requeues
  }

  /** A bound on the remaining events of any kind but triggers. */
  function Rank(q: Queue): int {
    3 * Budget(q) + (if q.processing then 2 else 0) + if q.waiting then 1 else 0
  }

  lemma StepSpendsBudget(q: Queue, e: Event)
    requires Enabled(q, e) && e != Trigger && q.requeues <= MAX_REQUEUES
    ensures Step(q, e).requeues <= MAX_REQUEUES
    ensures 0 <= Budget(Step(q, e)) <= Budget(q) - if e == Start then 1 else 0
    ensures 0 <= Rank(Step(q, e)) < Rank(q)
  {
  }

  /** Without new triggers the queue drains.  From any state within the counter's range the
      key is taken up at most `Budget` times more, 31 times when it has just been added with
      a clear counter; the run is finite, and it cannot stop before the queue is at rest. */
  lemma {:induction false} QueueDrains(start: Queue, events: seq<Event>)
    requires start.requeues <= MAX_REQUEUES && Trigger !in events
    requires Execute(start, events).Some?
    ensures var end := Execute(start, events).value;
            && end.requeues <= MAX_REQUEUES
            && Starts(events) + Budget(end) <= Budget(start) && 0 <= Budget(end)
            && |events| + Rank(end) <= Rank(start) && 0 <= Rank(end)
            && (AtRest(end) || exists e :: e != Trigger && Enabled(end, e))
    ensures start == Queue(0, true, false, false) ==> Starts(events) <= 31
  {
    if events != [] {
      var init := events[..|events| - 1];
      QueueDrains(start, init);
      StepSpendsBudget(Execute(start, init).value, events[|events| - 1]);
    }
    var end := Execute(start, events).value;
    assert end.processing ==> Enabled(end, Finish(false));
    assert end.waiting ==> Enabled(end, Expire);
    assert end.dirty && !end.processing ==> Enabled(end, Start);
  }

  /** One trigger of a resting queue and nothing but failures. */
  function FailingRounds(n: nat): seq<Event> {
    if n == 0 then [Trigger] else FailingRounds(n - 1) + [Start, Finish(true), Expire]
  }

  lemma ExecuteMore(start: Queue, events: seq<Event>, e: Event)
    requires Execute(start, events).Some? && Enabled(Execute(start, events).value, e)
    ensures Execute(start, events + [e]) == Some(Step(Execute(start, events).value, e))
    ensures Starts(events + [e]) == Starts(events) + if e == Start then 1 else 0
  {
    assert (events + [e])[..|events|] == events;
  }

  lemma FailingRound(start: Queue, events: seq<Event>)
    requires Execute(start, events).Some? && Execute(start, events).value.requeues < MAX_REQUEUES
    requires Execute(start, events).value == Queue(Execute(start, events).value.requeues, true, false, false)
    ensures Execute(start, events + [Start, Finish(true), Expire])
         == Some(Queue(Execute(start, events).value.requeues + 1, true, false, false))
    ensures Starts(events + [Start, Finish(true), Expire]) == Starts(events) + 1
  {
    ExecuteMore(start, events, Start);
    ExecuteMore(start, events + [Start], Finish(true));
    ExecuteMore(start, events + [Start] + [Finish(true)], Expire);
    assert events + [Start, Finish(true), Expire] == events + [Start] + [Finish(true)] + [Expire];
  }

  lemma {:induction false} FailingRoundsCount(n: nat)
    requires n <= MAX_REQUEUES
    ensures Execute(FRESH, FailingRounds(n)) == Some(Queue(n, true, false, false))
    ensures Starts(FailingRounds(n)) == n
  {
    if n == 0 {
      ExecuteMore(FRESH, [], Trigger);
      assert [] + [Trigger] == FailingRounds(0);
    } else {
      FailingRoundsCount(n - 1);
      FailingRound(FRESH, FailingRounds(n - 1));
    }
  }

  /** The bound is attained: one trigger and only failures make 31 rounds, and then the key
      is dropped. */
  lemma ThirtyOneRoundsThenDropped()
    ensures var events := FailingRounds(30) + [Start] + [Finish(true)];
            Starts(events) == 31 && Execute(FRESH, events) == Some(FRESH)
  {
    FailingRoundsCount(30);
    ExecuteMore(FRESH, FailingRounds(30), Start);
    ExecuteMore(FRESH, FailingRounds(30) + [Start], Finish(true));
  }
}
