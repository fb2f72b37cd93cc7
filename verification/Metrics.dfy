/** The two gauges under concurrency: one reconcile worker that stores the maximum and then
    the pending count of a round (pkg/controller/controller.go:176-180), and any number of
    collectors that load the pending count and then the maximum (pkg/metrics/metrics.go). */
module Metrics {
  import opened Types
  import opened Limits

  /** A scrape: a pending count and a maximum, with the rounds that stored them. */
  datatype Scrape = Scrape(pending: U32, pendingRound: nat, max: U32, maxRound: nat)

  datatype Collector = Idle | Loaded(pending: U32, round: nat)

  /** The memory cells, the rounds that last stored to each, and the two values of every
      round so far; round 0 is the program start, when both cells are zero. */
  datatype State = State(
    maxCell: U32, maxRound: nat, pendingCell: U32, pendingRound: nat,
    rounds: seq<(nat, nat)>,
    collectors: seq<Collector>, scrapes: seq<Scrape>)

  /** A round with `max` allowed and `pending` counted begins with one store and ends with
      the other. */
  datatype Event =
    | StoreMax(max: nat, pending: nat)
    | StorePending
    | LoadPending(collector: nat)
    | LoadMax(collector: nat)

  predicate Initial(s: State) {
    && s.maxCell == s.pendingCell == 0 && s.maxRound == s.pendingRound == 0
    && s.rounds == [(0, 0)] && s.scrapes == [] && forall c | c in s.collectors :: c.Idle?
  }

  /** The worker is between rounds, or has stored the maximum only. */
  predicate Enabled(s: State, e: Event) {
    match e
    case StoreMax(_, _) => s.maxRound == s.pendingRound
    case StorePending => s.maxRound == s.pendingRound + 1 && s.maxRound < |s.rounds|
    case LoadPending(c) => c < |s.collectors| && s.collectors[c].Idle?
    case LoadMax(c) => c < |s.collectors| && s.collectors[c].Loaded?
  }

  function Step(s: State, e: Event): State
    requires Enabled(s, e)
  {
    match e
    case StoreMax(max, pending) =>
      s.(maxCell := Wrap(max), maxRound := s.maxRound + 1, rounds := s.rounds + [(max, pending)])
    case StorePending =>
      s.(pendingCell := Wrap(s.rounds[s.maxRound].1), pendingRound := s.pendingRound + 1)
    case LoadPending(c) =>
      s.(collectors := s.collectors[c := Loaded(s.pendingCell, s.pendingRound)])
    case LoadMax(c) =>
      var loaded := s.collectors[c];
      s.(collectors := s.collectors[c := Idle],
         scrapes := s.scrapes + [Scrape(loaded.pending, loaded.round, s.maxCell, s.maxRound)])
  }

  function Execute(start: State, events: seq<Event>): Option<State> {
    if events == [] then Some(start)
    else
      var last := |events| - 1;
      match Execute(start, events[..last])
      case None => None
      case Some(s) => if Enabled(s, events[last]) then Some(Step(s, events[last])) else None
  }

  /** The scrape reports what two rounds stored, the maximum from no earlier round than the
      pending count. */
  ghost predicate Fresh(rounds: seq<(nat, nat)>, x: Scrape) {
    && x.pendingRound <= x.maxRound < |rounds|
    && x.pending == Wrap(rounds[x.pendingRound].1)
    && x.max == Wrap(rounds[x.maxRound].0)
  }

  ghost predicate Inv(s: State) {
    && s.pendingRound <= s.maxRound <= s.pendingRound + 1 && |s.rounds| == s.maxRound + 1
    && s.maxCell == Wrap(s.rounds[s.maxRound].0)
    && s.pendingCell == Wrap(s.rounds[s.pendingRound].1)
    && (forall c | 0 <= c < |s.collectors| && s.collectors[c].Loaded? ::
          s.collectors[c].round <= s.pendingRound && s.collectors[c].pending == Wrap(s.rounds[s.collectors[c].round].1))
    && (forall x | 0 <= x < |s.scrapes| :: Fresh(s.rounds, s.scrapes[x]))
  }

  lemma StepKeepsInv(s: State, e: Event)
    requires Inv(s) && Enabled(s, e)
    ensures Inv(Step(s, e))
  {
    var s' := Step(s, e);
    assert s'.rounds[..|s.rounds|] == s.rounds;
    assert forall k | 0 <= k < |s.rounds| :: s'.rounds[k] == s.rounds[k];
    forall x | 0 <= x < |s'.scrapes| ensures Fresh(s'.rounds, s'.scrapes[x]) {
      if x < |s.scrapes| {
        assert Fresh(s.rounds, s.scrapes[x]);
      }
    }
  }

  /** Metric freshness: in every interleaving, every scrape pairs the pending count of some
      round with the maximum of that or a later round, never with an older one. */
  lemma {:induction false} EveryScrapeIsFresh(start: State, events: seq<Event>)
    requires Initial(start) && Execute(start, events).Some?
    ensures Inv(Execute(start, events).value)
    ensures forall x | x in Execute(start, events).value.scrapes :: Fresh(Execute(start, events).value.rounds, x)
  {
    if events == [] {
      assert forall c | 0 <= c < |start.collectors| :: start.collectors[c] in start.collectors;
    } else {
      var last := |events| - 1;
      EveryScrapeIsFresh(start, events[..last]);
      StepKeepsInv(Execute(start, events[..last]).value, events[last]);
    }
  }

  ghost predicate Small(rounds: seq<(nat, nat)>) {
    forall k | 0 <= k < |rounds| :: rounds[k].0 < 0x1_0000_0000 && rounds[k].1 < 0x1_0000_0000
  }

  /** A round that was over the limit when the worker checked it. */
  ghost predicate GatedRound(round: (nat, nat)) {
    round.1 > round.0
  }

  /** The worker's two events are the two stores of a limit check: after the first the maximum
      is published and the old pending count still stands, after the second both are new. */
  lemma RoundIsTwoEvents(s: State, csrs: seq<CSR>, machines: nat, nodes: nat, now: Time)
    requires Inv(s) && s.maxRound == s.pendingRound
    ensures var first := StoreMax(MaxPending(machines, nodes), Pending(csrs, now));
            && Enabled(s, first)
            && var s1 := Step(s, first);
            && Round(csrs, machines, nodes, now)[0] == MaxStore(s1.maxCell) && s1.pendingCell == s.pendingCell
            && Enabled(s1, StorePending)
            && var s2 := Step(s1, StorePending);
            && Round(csrs, machines, nodes, now) == [MaxStore(s2.maxCell), PendingStore(s2.pendingCell)]
  {
    assert (s.rounds + [(MaxPending(machines, nodes), Pending(csrs, now))])[|s.rounds|].1 == Pending(csrs, now);
  }

  function Min(x: int, y: int): int {
    if x < y then x else y
  }

  /** What the alert on a scrape means, while the counts fit 32 bits, for the round of the
      pending count.  The limit may have moved before the second load: the alert fires for a
      round that was not gated exactly when it shrank below the count, and misses one that
      was exactly when it grew to the count or beyond; otherwise alert and gate agree.  So
      they agree when both loads saw one round, and when the limit did not move across the
      count. */
  lemma AlertMeansGated(start: State, events: seq<Event>, x: Scrape)
    requires Initial(start) && Execute(start, events).Some?
    requires x in Execute(start, events).value.scrapes && Small(Execute(start, events).value.rounds)
    ensures var rounds := Execute(start, events).value.rounds;
            && x.pendingRound <= x.maxRound < |rounds|
            && var (limit, count) := rounds[x.pendingRound];
            && var seen := rounds[x.maxRound].0;
            && ((x.pending > x.max <==> GatedRound(rounds[x.pendingRound])) <==> !(Min(limit, seen) < count <= Max(limit, seen)))
            && (x.pending > x.max && !GatedRound(rounds[x.pendingRound]) <==> seen < count <= limit)
            && (x.pending <= x.max && GatedRound(rounds[x.pendingRound]) <==> limit < count <= seen)
  {
    EveryScrapeIsFresh(start, events);
    var rounds := Execute(start, events).value.rounds;
    assert Fresh(rounds, x);
    WrappedComparison(rounds[x.pendingRound].1, rounds[x.maxRound].0);
  }

  lemma OneMoreEvent(start: State, events: seq<Event>, k: nat, s: State)
    requires k < |events| && Execute(start, events[..k]) == Some(s) && Enabled(s, events[k])
    ensures Execute(start, events[..k + 1]) == Some(Step(s, events[k]))
  {
    assert events[..k + 1][..k] == events[..k];
  }

  /** Five events of a worker and one collector: two rounds, loads in between. */
  lemma TwoRounds(first: (nat, nat), second: (nat, nat)) returns (start: State, events: seq<Event>, end: State)
    ensures Initial(start)
    ensures Execute(start, events) == Some(end)
    ensures end.rounds == [(0, 0), first, second]
    ensures end.scrapes == [Scrape(Wrap(first.1), 1, Wrap(second.0), 2)]
  {
    start := State(0, 0, 0, 0, [(0, 0)], [Idle], []);
    events := [StoreMax(first.0, first.1), StorePending, LoadPending(0), StoreMax(second.0, second.1), LoadMax(0)];
    assert Execute(start, events[..0]) == Some(start);
    end := start;
    OneMoreEvent(start, events, 0, end);
    end := Step(end, events[0]);
    OneMoreEvent(start, events, 1, end);
    end := Step(end, events[1]);
    OneMoreEvent(start, events, 2, end);
    end := Step(end, events[2]);
    OneMoreEvent(start, events, 3, end);
    end := Step(end, events[3]);
    OneMoreEvent(start, events, 4, end);
    end := Step(end, events[4]);
    assert events[..5] == events;
  }

  /** Such a shrinking limit: an alert fires although no round was gated. */
  lemma AlertCanMisfire() returns (start: State, events: seq<Event>, end: State)
    ensures Initial(start) && Execute(start, events) == Some(end) && Small(end.rounds) && |end.scrapes| == 1
    ensures end.scrapes[0].pending > end.scrapes[0].max
    ensures forall k | 0 <= k < |end.rounds| :: !GatedRound(end.rounds[k])
  {
    start, events, end := TwoRounds((200, 150), (100, 50));
  }

  /** And a growing one: the alert stays silent on the count of a gated round. */
  lemma AlertCanStaySilent() returns (start: State, events: seq<Event>, end: State)
    ensures Initial(start) && Execute(start, events) == Some(end) && Small(end.rounds) && |end.scrapes| == 1
    ensures end.scrapes[0].pending <= end.scrapes[0].max
    ensures end.scrapes[0].pendingRound == 1 < |end.rounds| && GatedRound(end.rounds[1])
  {
    start, events, end := TwoRounds((100, 150), (200, 150));
  }
}
