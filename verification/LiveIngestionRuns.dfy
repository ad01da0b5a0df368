// Whole ingestions: what every interleaving keeps, the accounts that balance at every step, what
// is analysed, and an exit on an empty queue that may leave records uncounted.
module LiveIngestionRuns {
  import opened Options
  import opened LiveIngestion
  import opened Conservation

  // ------------------------------------------------------------------ whole runs

  // What holds in every state that some interleaving reaches.
  ghost predicate Inv(cfg: Config, s: State) {
    Conserved(s) && Counted(cfg, s) && Ordered(s) && Bounded(cfg, s) && Controlled(s) && Classified(cfg, s)
  }

  lemma ProducerKeeps(cfg: Config, s: State, a: Action)
    requires ProducerStep(cfg, s, a).Some? && Inv(cfg, s)
    ensures Inv(cfg, ProducerStep(cfg, s, a).value)
  {
    hide Stock, Moving, Counted, Ordered, Bounded, Controlled, Classified;
    var t := ProducerStep(cfg, s, a).value;
    ProducerCounts(cfg, s, a);
    ProducerOrders(cfg, s, a);
    ProducerBounds(cfg, s, a);
    ProducerControlled(cfg, s, a);
    ProducerClassifies(cfg, s, a);
    ProducerTakes(cfg, s, a);
    hide ProducerStep;
    forall id: nat
      ensures Stock(t.books, id) + Moving(t, id) == if id < t.next then 1 else 0
    {
      ProducerConserves(cfg, s, a, id);
    }
  }

  lemma ProducerTakes(cfg: Config, s: State, a: Action)
    requires ProducerStep(cfg, s, a).Some?
    ensures ProducerStep(cfg, s, a).value.next == s.next + if a.Take? then 1 else 0
  {
  }

  lemma ConsumerKeeps(cfg: Config, s: State, a: Action)
    requires ConsumerStep(cfg, s, a).Some? && cfg.Valid() && Inv(cfg, s)
    ensures Inv(cfg, ConsumerStep(cfg, s, a).value)
  {
    hide Stock, Moving, Counted, Ordered, Bounded, Controlled, Classified;
    var t := ConsumerStep(cfg, s, a).value;
    assert t.next == s.next;
    ConsumerCounts(cfg, s, a);
    ConsumerOrders(cfg, s, a);
    ConsumerBounds(cfg, s, a);
    ConsumerControlled(cfg, s, a);
    ConsumerClassifies(cfg, s, a);
    hide ConsumerStep;
    forall id: nat
      ensures Stock(t.books, id) + Moving(t, id) == if id < t.next then 1 else 0
    {
      ConsumerConserves(cfg, s, a, id);
    }
  }

  lemma StartKeeps(cfg: Config, stop: bool)
    requires cfg.Valid()
    ensures Inv(cfg, Start(stop))
  {
    forall id: nat
      ensures Stock(EMPTY, id) + Moving(Start(stop), id) == 0
    {
      CopiesJoin([], [], id);
    }
  }

  lemma StopKeeps(cfg: Config, s: State)
    requires Inv(cfg, s)
    ensures Inv(cfg, s.(stop := true))
  {
    hide Stock, Records, Tallied, Ascending, WellPlaced, Decoded;
    assert forall id: nat :: Moving(s.(stop := true), id) == Moving(s, id);
  }

  lemma {:induction false} EveryInterleaving(cfg: Config, stop: bool, actions: seq<Action>)
    requires cfg.Valid() && Run(cfg, stop, actions).Some?
    ensures Inv(cfg, Run(cfg, stop, actions).value)
  {
    if actions == [] {
      StartKeeps(cfg, stop);
    } else {
      var init, last := actions[..|actions| - 1], actions[|actions| - 1];
      EveryInterleaving(cfg, stop, init);
      var s := Run(cfg, stop, init).value;
      hide Run, ProducerStep, ConsumerStep, Inv;
      if last.RequestStop? {
        StopKeeps(cfg, s);
      } else if ProducerStep(cfg, s, last).Some? {
        ProducerKeeps(cfg, s, last);
      } else {
        ConsumerKeeps(cfg, s, last);
      }
    }
  }

  // Some interleaving, started with the stop flag set or clear, leads here.
  ghost predicate Reachable(cfg: Config, s: State) {
    exists stop: bool, actions: seq<Action> :: Run(cfg, stop, actions) == Some(s)
  }

  lemma ReachableKeepsInv(cfg: Config, s: State)
    requires cfg.Valid() && Reachable(cfg, s)
    ensures Inv(cfg, s)
  {
    var stop: bool, actions: seq<Action> :| Run(cfg, stop, actions) == Some(s);
    EveryInterleaving(cfg, stop, actions);
  }

  // ------------------------------------------------------------------ the accounts

  function Rested(l: Ledger): seq<nat> {
    l.persisted + (l.rejected + (l.quarantined + (l.malformed
    + (l.reports + (l.dropped + (l.discarded + l.abandoned))))))
  }

  // The records still on their way, the ones nearest to the database first.
  function Line(s: State): seq<nat> {
    s.books.pending + (InConsumer(s.consumer) + (Records(s.queue) + InProducer(s.producer)))
  }

  lemma LineCopies(s: State, id: nat)
    ensures Copies(Line(s), id) == Copies(s.books.pending, id) + Moving(s, id)
  {
    var tail := Records(s.queue) + InProducer(s.producer);
    CopiesJoin(s.books.pending, InConsumer(s.consumer) + tail, id);
    CopiesJoin(InConsumer(s.consumer), tail, id);
    CopiesJoin(Records(s.queue), InProducer(s.producer), id);
    hide Copies, Records;
  }

  lemma RestedCopies(l: Ledger, id: nat)
    ensures Copies(Rested(l), id) == Resting(l, id)
  {
    hide Copies;
    var d := l.discarded + l.abandoned;
    CopiesJoin(l.discarded, l.abandoned, id);
    CopiesJoin(l.dropped, d, id);
    CopiesJoin(l.reports, l.dropped + d, id);
    CopiesJoin(l.malformed, l.reports + (l.dropped + d), id);
    CopiesJoin(l.quarantined, l.malformed + (l.reports + (l.dropped + d)), id);
    CopiesJoin(l.rejected, l.quarantined + (l.malformed + (l.reports + (l.dropped + d))), id);
    CopiesJoin(l.persisted, l.rejected + (l.quarantined + (l.malformed + (l.reports + (l.dropped + d)))), id);
  }

  // One of each record below n.
  function Upto(n: nat): multiset<nat> {
    if n == 0 then multiset{} else Upto(n - 1) + multiset{n - 1}
  }

  lemma {:induction false} UptoCounts(n: nat)
    ensures forall id: nat :: Upto(n)[id] == if id < n then 1 else 0
    ensures |Upto(n)| == n
  {
    if n > 0 {
      UptoCounts(n - 1);
    }
  }

  lemma AllOnce(ids: seq<nat>, n: nat)
    requires forall id: nat :: Copies(ids, id) == if id < n then 1 else 0
    ensures |ids| == n
  {
    UptoCounts(n);
    assert forall id: nat :: multiset(ids)[id] == Copies(ids, id);
    assert multiset(ids) == Upto(n);
  }

  // The records taken are as many as those at rest and on their way.
  lemma TakenIsPlaced(s: State)
    requires Conserved(s)
    ensures s.next == |Rested(s.books.ledger)| + |Line(s)|
  {
    hide Resting, Moving, Rested, Line;
    var all := Rested(s.books.ledger) + Line(s);
    forall id: nat
      ensures Copies(all, id) == if id < s.next then 1 else 0
    {
      CopiesJoin(Rested(s.books.ledger), Line(s), id);
      RestedCopies(s.books.ledger, id);
      LineCopies(s, id);
    }
    AllOnce(all, s.next);
  }

  // What the health record accounts for, with the loss reports, the record a stop request
  // discarded and the records a raising thread abandoned, none of which it counts.
  function Accounted(b: Books): nat {
    b.health.processed + b.health.dropped + b.health.malformed + b.health.quarantinedEvents
    + |b.ledger.reports| + |b.ledger.discarded| + |b.ledger.abandoned|
  }

  // In every reachable state the records taken are those accounted for, those of a committed
  // transaction about to be accounted for, and those on their way.
  lemma AccountsBalance(cfg: Config, s: State)
    requires cfg.Valid() && Reachable(cfg, s)
    ensures s.next == Accounted(s.books) + |Kept(s.consumer)| + RefusedNow(s.consumer)
                    + |s.books.pending| + |InConsumer(s.consumer)| + |Records(s.queue)| + |InProducer(s.producer)|
    ensures s.books.health.dropped <= s.books.health.waits
  {
    ReachableKeepsInv(cfg, s);
    TakenIsPlaced(s);
    hide Records, LostIn, Ordered, Bounded, Controlled, Classified, Conserved;
  }

  // ------------------------------------------------------------------ persistence and analysis

  lemma AscendingSplits(a: seq<nat>, b: seq<nat>, limit: nat)
    requires Ascending(a + b, limit)
    ensures Ascending(a, limit)
    ensures forall i, j | 0 <= i < |a| && 0 <= j < |b| :: a[i] < b[j]
  {
    var whole := a + b;
    forall i, j | 0 <= i < |a| && 0 <= j < |b|
      ensures a[i] < b[j]
    {
      assert whole[i] == a[i] && whole[|a| + j] == b[j];
    }
    assert forall i | 0 <= i < |a| :: a[i] == whole[i];
  }

  lemma AnalysedInOrder(cfg: Config, s: State)
    requires Counted(cfg, s) && Ordered(s)
    ensures s.books.ledger.analysed <= s.books.ledger.persisted && Ascending(s.books.ledger.analysed, s.next)
    ensures forall i, j | 0 <= i < |s.books.ledger.persisted| && 0 <= j < |Line(s)| ::
              s.books.ledger.persisted[i] < Line(s)[j]
  {
    hide Records, LostIn, InConsumer, InProducer, Ascending;
    var analysed, persisted := s.books.ledger.analysed, s.books.ledger.persisted;
    assert Flow(s) == persisted + Line(s);
    AscendingSplits(persisted, Line(s), s.next);
    var after := s.books.batch + Kept(s.consumer);
    assert persisted == analysed + after;
    AscendingSplits(analysed, after, s.next);
  }

  // Only committed events are analysed, each once and in the order they were taken; nothing that
  // is still on its way is older than a committed event.
  lemma OnlyPersistedIsAnalysed(cfg: Config, s: State)
    requires cfg.Valid() && Reachable(cfg, s)
    ensures s.books.ledger.analysed <= s.books.ledger.persisted && Ascending(s.books.ledger.analysed, s.next)
    ensures forall i, j | 0 <= i < |s.books.ledger.persisted| && 0 <= j < |Line(s)| ::
              s.books.ledger.persisted[i] < Line(s)[j]
  {
    ReachableKeepsInv(cfg, s);
    AnalysedInOrder(cfg, s);
    hide *;
  }

  // ------------------------------------------------------------------ leaving

  lemma DoneStep(cfg: Config, s: State, a: Action)
    requires Step(cfg, s, a).Some? && s.done
    requires s.producer.Delivering? || s.producer.Rebuffed? || s.producer.Gone?
    ensures var t := Step(cfg, s, a).value;
            t.done && !a.Put? && !a.Take? && t.next == s.next
  {
    hide Possible, WritePending, Settle, AnalyseBatch, FailToNormalize, NormalizeRecord, Poll;
    if ConsumerStep(cfg, s, a).Some? {
      ConsumerLeavesSource(cfg, s, a);
    }
    hide ConsumerStep;
  }

  lemma ConsumerLeavesSource(cfg: Config, s: State, a: Action)
    requires ConsumerStep(cfg, s, a).Some?
    ensures var t := ConsumerStep(cfg, s, a).value;
            t.done == s.done && t.next == s.next && !a.Put? && !a.Take?
  {
    hide Possible, Quarantine, Commit, Settle, Analyse, MarkMalformed, Abandon, Without, Within;
  }

  // Once done is set the producer takes and puts no record any more.
  lemma NothingIsPutAfterDone(cfg: Config, s: State, a: Action)
    requires cfg.Valid() && Reachable(cfg, s) && s.done && Step(cfg, s, a).Some?
    ensures var t := Step(cfg, s, a).value;
            t.done && !a.Put? && !a.Take? && t.next == s.next
  {
    hide Step, Records, Stock, Counted, Ordered, Bounded, Classified;
    ReachableKeepsInv(cfg, s);
    DoneStep(cfg, s, a);
  }

  // A consumer that left on the sentinel leaves nothing behind: every record taken is accounted
  // for, and everything committed was analysed.
  lemma SentinelExitIsComplete(cfg: Config, s: State)
    requires cfg.Valid() && Reachable(cfg, s) && s.consumer == Ended(BySentinel)
    ensures s.queue == [] && s.producer.Gone?
    ensures s.next == Accounted(s.books) && s.books.ledger.analysed == s.books.ledger.persisted
  {
    AccountsBalance(cfg, s);
    ReachableKeepsInv(cfg, s);
    hide Conserved, Ordered, Classified, LostIn;
  }

  // One that left because a poll found the queue empty and done was then set leaves exactly what
  // was put between the two: so all is accounted for if and only if nothing was.
  lemma EmptyExitResidue(cfg: Config, s: State)
    requires cfg.Valid() && Reachable(cfg, s) && s.consumer == Ended(ByEmpty)
    ensures Records(s.queue) == s.sinceEmpty && s.next == Accounted(s.books) + |s.sinceEmpty|
    ensures s.next == Accounted(s.books) <==> s.sinceEmpty == []
    ensures s.books.ledger.analysed == s.books.ledger.persisted
  {
    AccountsBalance(cfg, s);
    ReachableKeepsInv(cfg, s);
    hide Conserved, Ordered, Classified, LostIn, Records;
  }

  // ------------------------------------------------------------------ a residue nobody counts

  function OneByOne(): Config {
    Config(1, 1, id => Telemetry(true))
  }

  // The poll times out and then the only record is put,
  function PutAfterPoll(): seq<Action> {
    [] + [Get] + [Take] + [ReadStop] + [Decode] + [Put]
  }

  // the source ends and done is set, and only then is done read.
  function DoneBeforeRead(): seq<Action> {
    PutAfterPoll() + [SourceEnds(false)] + [SetDone] + [ReadDone]
  }

  function Overtaken(): seq<Action> {
    DoneBeforeRead() + [Write(Refused)] + [Analyze(false)] + [PutSentinel] + [SeeConsumer]
  }

  lemma RunOn(cfg: Config, stop: bool, before: seq<Action>, s: State, a: Action, t: State)
    requires Run(cfg, stop, before) == Some(s) && Step(cfg, s, a) == Some(t)
    ensures Run(cfg, stop, before + [a]) == Some(t)
  {
    var longer := before + [a];
    assert longer[..|longer| - 1] == before;
    hide Step;
  }

  // The state after the record was put, and the one after done was read.
  function Refilled(): State {
    State(1, false, false, Asking, SawEmpty, [Item(0)], [0], EMPTY)
  }

  function LeavingOnEmpty(): State {
    Refilled().(producer := Delivering, done := true, consumer := Flushing(Final(ByEmpty)))
  }

  lemma PollThenPut()
    ensures Run(OneByOne(), false, PutAfterPoll()) == Some(Refilled())
  {
    var cfg := OneByOne();
    var s0 := Start(false);
    var s1 := s0.(consumer := SawEmpty);
    var s2 := s1.(next := 1, producer := Taken(0));
    var s3 := s2.(producer := Accepted(0));
    var s4 := s3.(producer := Offering(0));
    assert Run(cfg, false, []) == Some(s0);
    hide Run;
    assert [] + [Item(0)] == [Item(0)] && [] + [0] == [0];
    assert PutRecord(s4, 0, Asking) == Refilled();
    RunOn(cfg, false, [], s0, Get, s1);
    RunOn(cfg, false, [] + [Get], s1, Take, s2);
    RunOn(cfg, false, [] + [Get] + [Take], s2, ReadStop, s3);
    RunOn(cfg, false, [] + [Get] + [Take] + [ReadStop], s3, Decode, s4);
    RunOn(cfg, false, [] + [Get] + [Take] + [ReadStop] + [Decode], s4, Put, Refilled());
  }

  lemma DoneThenRead()
    ensures Run(OneByOne(), false, DoneBeforeRead()) == Some(LeavingOnEmpty())
  {
    var cfg, p := OneByOne(), PutAfterPoll();
    PollThenPut();
    hide Run, PutAfterPoll;
    var s5 := Refilled();
    var s6 := s5.(producer := Finishing);
    var s7 := s6.(producer := Delivering, done := true);
    RunOn(cfg, false, p, s5, SourceEnds(false), s6);
    RunOn(cfg, false, p + [SourceEnds(false)], s6, SetDone, s7);
    RunOn(cfg, false, p + [SourceEnds(false)] + [SetDone], s7, ReadDone, LeavingOnEmpty());
  }

  // Both threads end, nothing failed, no counter moved, and the record taken is in the queue.
  lemma ResidueIsPossible()
    ensures var s := Run(OneByOne(), false, Overtaken());
            && s.Some? && s.value.producer.Gone? && s.value.consumer == Ended(ByEmpty)
            && s.value.next == 1 && s.value.queue == [Item(0)]
            && s.value.books == EMPTY && !s.value.books.health.failed
  {
    var cfg, p := OneByOne(), DoneBeforeRead();
    DoneThenRead();
    hide Run, DoneBeforeRead;
    var s8 := LeavingOnEmpty();
    var s9 := s8.(consumer := Analysing(Final(ByEmpty)));
    var s10 := s9.(consumer := Ended(ByEmpty));
    var s11 := s10.(producer := Rebuffed);
    var s12 := s11.(producer := Gone);
    RunOn(cfg, false, p, s8, Write(Refused), s9);
    RunOn(cfg, false, p + [Write(Refused)], s9, Analyze(false), s10);
    RunOn(cfg, false, p + [Write(Refused)] + [Analyze(false)], s10, PutSentinel, s11);
    RunOn(cfg, false, p + [Write(Refused)] + [Analyze(false)] + [PutSentinel], s11, SeeConsumer, s12);
  }
}
