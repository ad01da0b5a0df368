// What a run of the ingestion did and nothing else: a stop request ends the taking of records,
// and every counter is the number, or the sum, of the steps that raise it.
module LiveIngestionEvents {
  import opened Options
  import opened LiveIngestion
  import opened Conservation
  import opened LiveIngestionRuns

  // ------------------------------------------------------------------ after a stop request

  function After(cfg: Config, s: State, actions: seq<Action>): Option<State> {
    if actions == [] then Some(s)
    else
      var before := After(cfg, s, actions[..|actions| - 1]);
      if before.None? then None else Step(cfg, before.value, actions[|actions| - 1])
  }

  lemma {:induction false} AfterRun(cfg: Config, stop: bool, before: seq<Action>, actions: seq<Action>)
    requires Run(cfg, stop, before).Some?
    ensures Run(cfg, stop, before + actions) == After(cfg, Run(cfg, stop, before).value, actions)
  {
    if actions == [] {
      assert before + actions == before;
    } else {
      var init := actions[..|actions| - 1];
      assert (before + actions)[..|before + actions| - 1] == before + init;
      AfterRun(cfg, stop, before, init);
      hide Step;
    }
  }

  predicate LeftLoop(p: Producer) {
    p.Finishing? || p.Delivering? || p.Rebuffed? || p.Gone?
  }

  // Taken since s, or taken by then with the stop flag not yet read.
  predicate TakenLate(s: State, t: State, id: nat) {
    s.next <= id < t.next || s.producer == Taken(id)
  }

  // At most one more record is taken, and a late one is discarded as soon as the flag is read.
  ghost predicate Winding(s: State, t: State) {
    && t.stop && s.next <= t.next <= s.next + 1
    && (t.next > s.next ==> t.producer == Taken(s.next) || LeftLoop(t.producer))
    && (s.producer.Taken? ==> t.next == s.next && (t.producer == s.producer || LeftLoop(t.producer)))
    && (forall id: nat :: TakenLate(s, t, id) ==> t.producer == Taken(id) || id in t.books.ledger.discarded)
  }

  lemma ProducerWinds(cfg: Config, s: State, t: State, a: Action)
    requires Winding(s, t) && ProducerStep(cfg, t, a).Some?
    ensures Winding(s, ProducerStep(cfg, t, a).value)
  {
    hide Fail, Report, MarkMalformed, Drop, NoteWait;
    var u := ProducerStep(cfg, t, a).value;
    ProducerDiscards(cfg, t, a);
    forall id: nat | TakenLate(s, u, id)
      ensures u.producer == Taken(id) || id in u.books.ledger.discarded
    {
      assert TakenLate(s, t, id) || a.Take?;
    }
  }

  // The producer adds to the discarded only the record it holds when it reads the flag as set.
  lemma ProducerDiscards(cfg: Config, s: State, a: Action)
    requires ProducerStep(cfg, s, a).Some?
    ensures ProducerStep(cfg, s, a).value.books.ledger.discarded
         == s.books.ledger.discarded + if s.producer.Taken? && s.stop then [s.producer.id] else []
  {
    assert s.books.ledger.discarded + [] == s.books.ledger.discarded;
  }

  lemma ConsumerLeavesProducer(cfg: Config, s: State, a: Action)
    requires ConsumerStep(cfg, s, a).Some?
    ensures var t := ConsumerStep(cfg, s, a).value;
            && t.stop == s.stop && t.next == s.next && t.producer == s.producer
            && t.books.ledger.discarded == s.books.ledger.discarded
  {
  }

  lemma {:induction false} StopWinds(cfg: Config, s: State, actions: seq<Action>)
    requires s.stop && After(cfg, s, actions).Some?
    ensures Winding(s, After(cfg, s, actions).value)
  {
    if actions != [] {
      var init, last := actions[..|actions| - 1], actions[|actions| - 1];
      StopWinds(cfg, s, init);
      var t := After(cfg, s, init).value;
      hide ProducerStep, ConsumerStep, After;
      if last.RequestStop? {
        assert forall id: nat :: TakenLate(s, t.(stop := true), id) == TakenLate(s, t, id);
      } else if ProducerStep(cfg, t, last).Some? {
        ProducerWinds(cfg, s, t, last);
      } else {
        ConsumerLeavesProducer(cfg, t, last);
        assert forall id: nat :: TakenLate(s, ConsumerStep(cfg, t, last).value, id) == TakenLate(s, t, id);
      }
    }
  }

  // A record in no other place than the discarded ones or in the producer's hand.
  ghost predicate OnlyDiscarded(s: State, id: nat) {
    && (s.producer == Taken(id) || id in s.books.ledger.discarded)
    && id !in Records(s.queue) && id !in InConsumer(s.consumer) && id !in s.books.pending
    && id !in s.books.ledger.persisted && id !in s.books.ledger.rejected && id !in s.books.ledger.quarantined
    && id !in s.books.ledger.malformed && id !in s.books.ledger.reports && id !in s.books.ledger.dropped
    && id !in s.books.ledger.abandoned
  }

  // Once a stop was requested at most one more record is taken, and neither it nor one whose flag
  // was not yet read goes any further.
  lemma StopEndsTaking(cfg: Config, stop: bool, before: seq<Action>, actions: seq<Action>)
    requires cfg.Valid() && Run(cfg, stop, before).Some? && Run(cfg, stop, before).value.stop
    requires Run(cfg, stop, before + actions).Some?
    ensures var s, t := Run(cfg, stop, before).value, Run(cfg, stop, before + actions).value;
            t.next <= s.next + 1 && forall id: nat :: TakenLate(s, t, id) ==> OnlyDiscarded(t, id)
  {
    var s, t := Run(cfg, stop, before).value, Run(cfg, stop, before + actions).value;
    AfterRun(cfg, stop, before, actions);
    StopWinds(cfg, s, actions);
    EveryInterleaving(cfg, stop, before + actions);
    hide Run, After, Counted, Ordered, Bounded, Controlled, Classified, Records, Stock, Moving;
    forall id: nat | TakenLate(s, t, id)
      ensures OnlyDiscarded(t, id)
    {
      NowhereElse(t, id);
    }
  }

  lemma NowhereElse(s: State, id: nat)
    requires Conserved(s) && (s.producer == Taken(id) || id in s.books.ledger.discarded)
    ensures OnlyDiscarded(s, id)
  {
    var l := s.books.ledger;
    assert Stock(s.books, id) + Moving(s, id) <= 1;
    hide Records, Conserved;
    CopiesMember(l.discarded, id);
    CopiesMember(InProducer(s.producer), id);
    CopiesMember(Records(s.queue), id);
    CopiesMember(InConsumer(s.consumer), id);
    CopiesMember(s.books.pending, id);
    CopiesMember(l.persisted, id);
    CopiesMember(l.rejected, id);
    CopiesMember(l.quarantined, id);
    CopiesMember(l.malformed, id);
    CopiesMember(l.reports, id);
    CopiesMember(l.dropped, id);
    CopiesMember(l.abandoned, id);
    hide Copies;
  }

  lemma CopiesMember(ids: seq<nat>, id: nat)
    ensures id in ids <==> Copies(ids, id) >= 1
  {
  }

  // Only a stop request discards, and it discards the last record taken, or none.
  ghost predicate DiscardedByStop(s: State) {
    s.books.ledger.discarded == []
    || (s.stop && LeftLoop(s.producer) && s.next > 0 && s.books.ledger.discarded == [s.next - 1])
  }

  ghost predicate HoldsLatest(s: State) {
    s.producer.Taken? ==> s.next > 0 && s.producer.id == s.next - 1
  }

  lemma DiscardStep(cfg: Config, s: State, a: Action)
    requires ProducerStep(cfg, s, a).Some? && DiscardedByStop(s) && HoldsLatest(s)
    ensures DiscardedByStop(ProducerStep(cfg, s, a).value) && HoldsLatest(ProducerStep(cfg, s, a).value)
  {
    ProducerDiscards(cfg, s, a);
    hide Fail, Report, MarkMalformed, Drop, NoteWait, Discard, Abandon;
  }

  lemma {:induction false} OnlyStopDiscards(cfg: Config, stop: bool, actions: seq<Action>)
    requires Run(cfg, stop, actions).Some?
    ensures DiscardedByStop(Run(cfg, stop, actions).value) && HoldsLatest(Run(cfg, stop, actions).value)
  {
    if actions != [] {
      var init, last := actions[..|actions| - 1], actions[|actions| - 1];
      OnlyStopDiscards(cfg, stop, init);
      var s := Run(cfg, stop, init).value;
      hide ProducerStep, ConsumerStep, Run;
      if !last.RequestStop? {
        if ProducerStep(cfg, s, last).Some? {
          DiscardStep(cfg, s, last);
        } else {
          ConsumerLeavesProducer(cfg, s, last);
        }
      }
    }
  }

  // ------------------------------------------------------------------ what raised each counter

  // Numbers of the events in a run; duplicates and refusedEvents are sums over them.
  datatype Totals = Totals(fullPuts: nat, giveUps: nat, waitsCounted: nat, duplicates: nat, refusals: nat,
                           refusedEvents: nat, raisesWithRecord: nat, raises: nat)

  function Plus(x: Totals, y: Totals): Totals {
    Totals(x.fullPuts + y.fullPuts, x.giveUps + y.giveUps, x.waitsCounted + y.waitsCounted,
           x.duplicates + y.duplicates, x.refusals + y.refusals, x.refusedEvents + y.refusedEvents,
           x.raisesWithRecord + y.raisesWithRecord, x.raises + y.raises)
  }

  const NOTHING := Totals(0, 0, 0, 0, 0, 0, 0, 0)

  // What one step is: a put on a full queue, a record given up, a wait counted, a transaction
  // with its duplicates, one that the store refused, or an exception.
  function EventsOf(cfg: Config, s: State, a: Action): Totals {
    match a
    case Put => NOTHING.(fullPuts := if s.producer.Offering? && |s.queue| >= cfg.capacity then 1 else 0)
    case GiveUp => NOTHING.(giveUps := 1)
    case CountWait => NOTHING.(waitsCounted := 1)
    case Write(outcome) =>
      if s.books.pending == [] then NOTHING
      else if outcome.Committed? then NOTHING.(duplicates := outcome.duplicates)
      else NOTHING.(refusals := 1, refusedEvents := |s.books.pending|)
    case SourceEnds(raised) => NOTHING.(raises := if raised then 1 else 0)
    case DecodeRaises => NOTHING.(raisesWithRecord := 1, raises := 1)
    case NormalizeRaises => NOTHING.(raisesWithRecord := 1, raises := 1)
    case Analyze(raised) =>
      NOTHING.(raises := if raised && s.consumer.Analysing? && Due(cfg, s) then 1 else 0)
    case _ => NOTHING
  }

  // The analysis is called with a full batch, and at the end with any.
  predicate Due(cfg: Config, s: State)
    requires s.consumer.Analysing?
  {
    s.books.batch != [] && (s.consumer.why.Final? || |s.books.batch| >= cfg.batchSize)
  }

  function Happened(cfg: Config, stop: bool, actions: seq<Action>): Totals {
    if actions == [] then NOTHING
    else
      var init, last := actions[..|actions| - 1], actions[|actions| - 1];
      var before := Run(cfg, stop, init);
      Plus(Happened(cfg, stop, init), if before.Some? then EventsOf(cfg, before.value, last) else NOTHING)
  }

  // The counters against the events so far; a wait and a transaction may be under way.
  predicate Explained(s: State, e: Totals) {
    var h, l := s.books.health, s.books.ledger;
    && h.waits == e.giveUps + e.waitsCounted
    && h.waits + (if s.producer.Waiting? || s.producer.Noting? then 1 else 0) == e.fullPuts
    && h.dropped == e.giveUps
    && h.duplicates + (if s.consumer.Settling? then s.consumer.duplicates else 0) == e.duplicates
    && h.quarantinedBatches == e.refusals && h.quarantinedEvents == e.refusedEvents
    && |l.abandoned| == e.raisesWithRecord
    && (h.failed <==> e.raises > 0)
  }

  lemma ProducerExplained(cfg: Config, s: State, a: Action, e: Totals)
    requires ProducerStep(cfg, s, a).Some? && Explained(s, e)
    ensures Explained(ProducerStep(cfg, s, a).value, Plus(e, EventsOf(cfg, s, a)))
  {
  }

  lemma ConsumerExplained(cfg: Config, s: State, a: Action, e: Totals)
    requires cfg.Valid() && ConsumerStep(cfg, s, a).Some? && Explained(s, e)
    ensures Explained(ConsumerStep(cfg, s, a).value, Plus(e, EventsOf(cfg, s, a)))
  {
    hide Without, Within;
  }

  // Every counter is the number of the steps that raise it, or the sum of what they report: a
  // wait begins only on a full queue, failed is an exception, and the flag is a stop request.
  lemma {:induction false} CountersAreEvents(cfg: Config, stop: bool, actions: seq<Action>)
    requires cfg.Valid() && Run(cfg, stop, actions).Some?
    ensures Explained(Run(cfg, stop, actions).value, Happened(cfg, stop, actions))
    ensures Run(cfg, stop, actions).value.stop <==> stop || RequestStop in actions
  {
    if actions != [] {
      var init, last := actions[..|actions| - 1], actions[|actions| - 1];
      CountersAreEvents(cfg, stop, init);
      var s, e := Run(cfg, stop, init).value, Happened(cfg, stop, init);
      assert actions == init + [last];
      StopFlagStep(cfg, s, last);
      hide ProducerStep, ConsumerStep, Run;
      if last.RequestStop? {
        assert Plus(e, NOTHING) == e;
      } else if ProducerStep(cfg, s, last).Some? {
        ProducerExplained(cfg, s, last, e);
      } else {
        ConsumerExplained(cfg, s, last, e);
      }
    }
  }

  lemma StopFlagStep(cfg: Config, s: State, a: Action)
    requires Step(cfg, s, a).Some?
    ensures Step(cfg, s, a).value.stop <==> s.stop || a.RequestStop?
  {
    if ProducerStep(cfg, s, a).None? && !a.RequestStop? {
      ConsumerLeavesProducer(cfg, s, a);
    }
    hide ConsumerStep, Fail, Report, MarkMalformed, Drop, NoteWait, Discard, Abandon;
  }

  // ------------------------------------------------------------------ transactions and batches

  // The kept records are those of the batch that the store did not refuse, the others it did.
  lemma {:induction false} KeptAreNotRejected(ids: seq<nat>, rejected: set<nat>, id: nat)
    ensures id in Without(ids, rejected) <==> id in ids && id !in rejected
    ensures id in Within(ids, rejected) <==> id in ids && id in rejected
  {
    if ids != [] {
      var init, last := ids[..|ids| - 1], ids[|ids| - 1];
      KeptAreNotRejected(init, rejected, id);
      assert ids == init + [last];
    }
  }

  // Analysis is handed the whole batch or nothing: a full one, or at the end what there is.
  lemma AnalysisIsBatched(cfg: Config, s: State, a: Action)
    requires cfg.Valid() && Step(cfg, s, a).Some?
    ensures var handed, given := s.books.ledger.analysed, Step(cfg, s, a).value.books.ledger.analysed;
            if a.Analyze? && s.consumer.Analysing? && Due(cfg, s) then given == handed + s.books.batch
            else given == handed
  {
    if ProducerStep(cfg, s, a).Some? {
      ProducerLeavesAnalysis(cfg, s, a);
    } else if ConsumerStep(cfg, s, a).Some? {
      ConsumerAnalyses(cfg, s, a);
    }
    hide ProducerStep, ConsumerStep;
  }

  lemma ConsumerAnalyses(cfg: Config, s: State, a: Action)
    requires cfg.Valid() && ConsumerStep(cfg, s, a).Some?
    ensures var handed, given := s.books.ledger.analysed, ConsumerStep(cfg, s, a).value.books.ledger.analysed;
            if a.Analyze? && s.consumer.Analysing? && Due(cfg, s) then given == handed + s.books.batch
            else given == handed
  {
    hide Without, Within;
  }

  lemma ProducerLeavesAnalysis(cfg: Config, s: State, a: Action)
    requires ProducerStep(cfg, s, a).Some?
    ensures ProducerStep(cfg, s, a).value.books.ledger.analysed == s.books.ledger.analysed && !a.Analyze?
  {
  }
}
