// The bounded-queue ingestion of pipeline/live_ingestion.py: what each thread does between two
// points where the other can intervene, and the books both keep.
module LiveIngestion {
  import opened Options

  // What decoding and normalizing a record of the source would find. A loss report carries the
  // count it claims, when one can be read.
  datatype Content = Undecodable | LossReport(lost: Option<int>) | Telemetry(canonical: bool)

  // Records are named by their position in the source.
  datatype Config = Config(capacity: nat, batchSize: nat, content: nat -> Content) {
    ghost predicate Valid() {
      capacity >= 1 && batchSize >= 1
    }
  }

  // ------------------------------------------------------------------ the books

  // The counters of the health record; failed is the sticky status.
  datatype Health = Health(
    processed: nat, duplicates: nat, malformed: nat, dropped: nat, waits: nat, kernelLost: nat,
    quarantinedBatches: nat, quarantinedEvents: nat, failed: bool)

  // Where the records that left the pipeline went, in order; analysed is what the analysis
  // received.
  datatype Ledger = Ledger(
    persisted: seq<nat>, rejected: seq<nat>, quarantined: seq<nat>, malformed: seq<nat>, reports: seq<nat>,
    dropped: seq<nat>, discarded: seq<nat>, abandoned: seq<nat>, analysed: seq<nat>)

  // pending awaits its transaction and batch its analysis.
  datatype Books = Books(pending: seq<nat>, batch: seq<nat>, health: Health, ledger: Ledger)

  // A transaction commits all but the records it refuses beforehand, some of them already
  // stored, or it raises with nothing written.
  datatype Outcome = Committed(rejected: set<nat>, duplicates: nat) | Refused

  function Without(ids: seq<nat>, rejected: set<nat>): seq<nat> {
    if ids == [] then []
    else Without(ids[..|ids| - 1], rejected) + if ids[|ids| - 1] in rejected then [] else [ids[|ids| - 1]]
  }

  function Within(ids: seq<nat>, rejected: set<nat>): seq<nat> {
    if ids == [] then []
    else Within(ids[..|ids| - 1], rejected) + if ids[|ids| - 1] in rejected then [ids[|ids| - 1]] else []
  }

  predicate Possible(ids: seq<nat>, outcome: Outcome) {
    outcome.Committed? ==>
      && (forall id | id in outcome.rejected :: id in ids)
      && outcome.duplicates <= |Without(ids, outcome.rejected)|
  }

  function Discard(b: Books, id: nat): Books {
    b.(ledger := b.ledger.(discarded := b.ledger.discarded + [id]))
  }

  function MarkMalformed(b: Books, id: nat): Books {
    b.(health := b.health.(malformed := b.health.malformed + 1),
       ledger := b.ledger.(malformed := b.ledger.malformed + [id]))
  }

  function Report(b: Books, id: nat, lost: Option<int>): Books {
    if lost.None? || lost.value <= 0 then MarkMalformed(b, id)
    else b.(health := b.health.(kernelLost := b.health.kernelLost + lost.value),
            ledger := b.ledger.(reports := b.ledger.reports + [id]))
  }

  function Drop(b: Books, id: nat): Books {
    b.(health := b.health.(waits := b.health.waits + 1, dropped := b.health.dropped + 1),
       ledger := b.ledger.(dropped := b.ledger.dropped + [id]))
  }

  function NoteWait(b: Books): Books {
    b.(health := b.health.(waits := b.health.waits + 1))
  }

  function Fail(b: Books): Books {
    b.(health := b.health.(failed := true))
  }

  function Abandon(b: Books, ids: seq<nat>): Books {
    Fail(b).(ledger := b.ledger.(abandoned := b.ledger.abandoned + ids))
  }

  function Quarantine(b: Books): Books {
    b.(pending := [],
       health := b.health.(quarantinedBatches := b.health.quarantinedBatches + 1,
                           quarantinedEvents := b.health.quarantinedEvents + |b.pending|),
       ledger := b.ledger.(quarantined := b.ledger.quarantined + b.pending))
  }

  // The transaction itself, and the bookkeeping the consumer does once it returns.
  function Commit(b: Books, rejected: set<nat>): Books {
    b.(pending := [],
       ledger := b.ledger.(persisted := b.ledger.persisted + Without(b.pending, rejected),
                           rejected := b.ledger.rejected + Within(b.pending, rejected)))
  }

  function Settle(b: Books, kept: seq<nat>, refused: nat, duplicates: nat): Books {
    b.(batch := b.batch + kept,
       health := b.health.(processed := b.health.processed + |kept|,
                           duplicates := b.health.duplicates + duplicates,
                           malformed := b.health.malformed + refused))
  }

  // What a whole flush does when no one intervenes.
  function Flush(b: Books, outcome: Outcome): Books {
    if b.pending == [] then b
    else match outcome
      case Refused => Quarantine(b)
      case Committed(rejected, duplicates) =>
        Settle(Commit(b, rejected), Without(b.pending, rejected), |Within(b.pending, rejected)|, duplicates)
  }

  function Analyse(b: Books, raises: bool): Books {
    var handed := b.(batch := [], ledger := b.ledger.(analysed := b.ledger.analysed + b.batch));
    if raises then Fail(handed) else handed
  }

  // ------------------------------------------------------------------ the service

  // The service's fields and the consumer's two lists, updated in place.
  class Service {
    const batchSize: nat
    var pending: seq<nat>
    var batch: seq<nat>
    var processedCount: nat
    var duplicateCount: nat
    var malformedCount: nat
    var droppedEventCount: nat
    var backpressureWaitCount: nat
    var kernelLostEventCount: nat
    var quarantinedBatchCount: nat
    var quarantinedEventCount: nat
    var failed: bool
    ghost var ledger: Ledger

    ghost function Value(): Books
      reads this
    {
      Books(pending, batch,
            Health(processedCount, duplicateCount, malformedCount, droppedEventCount, backpressureWaitCount,
                   kernelLostEventCount, quarantinedBatchCount, quarantinedEventCount, failed),
            ledger)
    }

    constructor (batchSize: nat)
      ensures this.batchSize == batchSize && Value() == EMPTY
    {
      this.batchSize := batchSize;
      pending, batch := [], [];
      processedCount, duplicateCount, malformedCount, droppedEventCount := 0, 0, 0, 0;
      backpressureWaitCount, kernelLostEventCount := 0, 0;
      quarantinedBatchCount, quarantinedEventCount, failed := 0, 0, false;
      ledger := EMPTY.ledger;
    }

    method RecordDrop(id: nat)
      modifies this
      ensures Value() == Drop(old(Value()), id)
    {
      backpressureWaitCount := backpressureWaitCount + 1;
      droppedEventCount := droppedEventCount + 1;
      ledger := ledger.(dropped := ledger.dropped + [id]);
    }

    method RecordKernelLoss(id: nat, lost: Option<int>)
      modifies this
      ensures Value() == Report(old(Value()), id, lost)
    {
      if lost.None? || lost.value <= 0 {
        malformedCount := malformedCount + 1;
        ledger := ledger.(malformed := ledger.malformed + [id]);
        return;
      }
      kernelLostEventCount := kernelLostEventCount + lost.value;
      ledger := ledger.(reports := ledger.reports + [id]);
    }

    method QuarantineBatch()
      modifies this
      ensures Value() == Quarantine(old(Value()))
    {
      quarantinedBatchCount := quarantinedBatchCount + 1;
      quarantinedEventCount := quarantinedEventCount + |pending|;
      ledger := ledger.(quarantined := ledger.quarantined + pending);
      pending := [];
    }

    // The store's answer to the transaction is given.
    method FlushPending(outcome: Outcome)
      requires Possible(pending, outcome)
      modifies this
      ensures Value() == Flush(old(Value()), outcome)
    {
      if pending == [] {
        return;
      }
      match outcome {
        case Refused =>
          QuarantineBatch();
        case Committed(rejected, duplicates) =>
          var persisted := [];
          var refused := 0;
          var i := 0;
          while i < |pending|
            invariant i <= |pending|
            invariant persisted == Without(pending[..i], rejected)
            invariant refused == |Within(pending[..i], rejected)|
          {
            assert pending[..i + 1][..i] == pending[..i];
            if pending[i] in rejected {
              refused := refused + 1;
            } else {
              persisted := persisted + [pending[i]];
            }
            i := i + 1;
          }
          assert pending[..i] == pending;
          ledger := Commit(Value(), rejected).ledger;
          processedCount := processedCount + |persisted|;
          duplicateCount := duplicateCount + duplicates;
          malformedCount := malformedCount + refused;
          batch := batch + persisted;
          pending := [];
      }
    }

    method MaybeAnalyse(raises: bool)
      modifies this
      ensures Value() == if |old(batch)| < batchSize then old(Value()) else Analyse(old(Value()), raises)
    {
      if |batch| < batchSize {
        return;
      }
      ledger := ledger.(analysed := ledger.analysed + batch);
      failed := failed || raises;
      batch := [];
    }
  }

  const EMPTY := Books([], [], Health(0, 0, 0, 0, 0, 0, 0, 0, false), Ledger([], [], [], [], [], [], [], [], []))

  // ------------------------------------------------------------------ the two threads

  datatype Slot = Item(id: nat) | Sentinel

  // How the consumer left its loop, and why it is flushing.
  datatype Exit = BySentinel | ByEmpty | Crashed
  datatype Why = Idle | Full | Final(exit: Exit)

  datatype Producer =
    | Asking                  // about to take a record
    | Taken(id: nat)          // the stop flag not yet read
    | Accepted(id: nat)       // the stop flag read as clear
    | Offering(id: nat)       // decoded telemetry, about to be put without waiting
    | Waiting(id: nat)        // the queue was full
    | Noting                  // put after waiting, the wait not yet counted
    | Finishing               // out of the loop, done not yet set
    | Delivering              // done set, about to put the sentinel
    | Rebuffed                // the queue was full for the sentinel
    | Gone

  datatype Consumer =
    | Polling
    | SawEmpty                // the poll timed out, done not yet read
    | Holding(id: nat)
    | Flushing(why: Why)
    | Settling(why: Why, kept: seq<nat>, refused: nat, duplicates: nat)
    | Analysing(why: Why)
    | Ended(exit: Exit)

  // sinceEmpty is what was put since the consumer last found the queue empty.
  datatype State = State(
    next: nat, stop: bool, done: bool, producer: Producer, consumer: Consumer, queue: seq<Slot>,
    sinceEmpty: seq<nat>, books: Books)

  datatype Action =
    | RequestStop
    // the producer
    | Take | SourceEnds(raised: bool) | ReadStop | Decode | DecodeRaises
    | Put | GiveUp | CountWait | SetDone | PutSentinel | SeeConsumer
    // the consumer
    | Get | ReadDone | Normalize | NormalizeRaises | Write(outcome: Outcome) | Account | Analyze(raises: bool)

  // Whether the service was stopped before it started is left open.
  function Start(stop: bool): State {
    State(0, stop, false, Asking, Polling, [], [], EMPTY)
  }

  // What the producer does, by the state it is in.

  function TakeRecord(s: State): State {
    s.(next := s.next + 1, producer := Taken(s.next))
  }

  function LeaveLoop(s: State, raised: bool): State {
    s.(producer := Finishing, books := if raised then Fail(s.books) else s.books)
  }

  function CheckStop(s: State, id: nat): State {
    if s.stop then s.(producer := Finishing, books := Discard(s.books, id)) else s.(producer := Accepted(id))
  }

  function DecodeRecord(s: State, id: nat, content: Content): State {
    match content
    case Undecodable => s.(producer := Asking, books := MarkMalformed(s.books, id))
    case LossReport(lost) => s.(producer := Asking, books := Report(s.books, id, lost))
    case Telemetry(_) => s.(producer := Offering(id))
  }

  function FailToDecode(s: State, id: nat): State {
    s.(producer := Finishing, books := Abandon(s.books, [id]))
  }

  function PutRecord(s: State, id: nat, after: Producer): State {
    s.(queue := s.queue + [Item(id)], sinceEmpty := s.sinceEmpty + [id], producer := after)
  }

  function DropRecord(s: State, id: nat): State {
    s.(producer := Asking, books := Drop(s.books, id))
  }

  function OfferSentinel(s: State, room: bool): State {
    if room then s.(queue := s.queue + [Sentinel], producer := Gone) else s.(producer := Rebuffed)
  }

  function ProducerStep(cfg: Config, s: State, a: Action): Option<State> {
    var room := |s.queue| < cfg.capacity;
    match s.producer
    case Asking => (
      match a
      case Take => Some(TakeRecord(s))
      case SourceEnds(raised) => Some(LeaveLoop(s, raised))
      case _ => None)
    case Taken(id) => if a.ReadStop? then Some(CheckStop(s, id)) else None
    case Accepted(id) => (
      match a
      case Decode => Some(DecodeRecord(s, id, cfg.content(id)))
      case DecodeRaises => Some(FailToDecode(s, id))
      case _ => None)
    case Offering(id) =>
      if !a.Put? then None
      else Some(if room then PutRecord(s, id, Asking) else s.(producer := Waiting(id)))
    case Waiting(id) => (
      match a
      case Put => if room then Some(PutRecord(s, id, Noting)) else None
      // the deadline has passed or a stop was requested
      case GiveUp => Some(DropRecord(s, id))
      case _ => None)
    case Noting => if a.CountWait? then Some(s.(producer := Asking, books := NoteWait(s.books))) else None
    case Finishing => if a.SetDone? then Some(s.(done := true, producer := Delivering)) else None
    case Delivering => if a.PutSentinel? then Some(OfferSentinel(s, room)) else None
    case Rebuffed =>
      if a.SeeConsumer? then Some(s.(producer := if s.consumer.Ended? then Gone else Delivering)) else None
    case Gone => None
  }

  // What the consumer does, by the state it is in.

  function Poll(s: State): State {
    if s.queue == [] then s.(consumer := SawEmpty, sinceEmpty := [])
    else s.(queue := s.queue[1..],
            consumer := if s.queue[0].Sentinel? then Flushing(Final(BySentinel)) else Holding(s.queue[0].id))
  }

  function NormalizeRecord(s: State, id: nat, content: Content, batchSize: nat): State {
    if content == Telemetry(true) then
      s.(books := s.books.(pending := s.books.pending + [id]),
         consumer := if |s.books.pending| + 1 >= batchSize then Flushing(Full) else Polling)
    else s.(books := MarkMalformed(s.books, id), consumer := Polling)
  }

  function FailToNormalize(s: State, id: nat): State {
    s.(consumer := Ended(Crashed), books := Abandon(s.books, [id]))
  }

  function WritePending(s: State, why: Why, outcome: Outcome): State {
    if s.books.pending == [] then s.(consumer := Analysing(why))
    else match outcome
      case Refused => s.(books := Quarantine(s.books), consumer := Analysing(why))
      case Committed(rejected, duplicates) =>
        s.(books := Commit(s.books, rejected),
           consumer := Settling(why, Without(s.books.pending, rejected),
                                |Within(s.books.pending, rejected)|, duplicates))
  }

  // At the end every remaining event is analysed, and otherwise only a full batch.
  function AnalyseBatch(s: State, why: Why, batchSize: nat, raises: bool): State {
    var due := if why.Final? then s.books.batch != [] else |s.books.batch| >= batchSize;
    s.(books := if due then Analyse(s.books, raises) else s.books,
       consumer := if why.Final? then Ended(why.exit) else Polling)
  }

  function ConsumerStep(cfg: Config, s: State, a: Action): Option<State> {
    match s.consumer
    case Polling => if a.Get? then Some(Poll(s)) else None
    case SawEmpty =>
      if a.ReadDone? then Some(s.(consumer := Flushing(if s.done then Final(ByEmpty) else Idle))) else None
    case Holding(id) => (
      match a
      case Normalize => Some(NormalizeRecord(s, id, cfg.content(id), cfg.batchSize))
      case NormalizeRaises => Some(FailToNormalize(s, id))
      case _ => None)
    case Flushing(why) =>
      if a.Write? && Possible(s.books.pending, a.outcome) then Some(WritePending(s, why, a.outcome)) else None
    case Settling(why, kept, refused, duplicates) =>
      if a.Account? then Some(s.(books := Settle(s.books, kept, refused, duplicates), consumer := Analysing(why)))
      else None
    case Analysing(why) => if a.Analyze? then Some(AnalyseBatch(s, why, cfg.batchSize, a.raises)) else None
    case Ended(_) => None
  }

  function Step(cfg: Config, s: State, a: Action): Option<State> {
    if a.RequestStop? then Some(s.(stop := true))
    else if ProducerStep(cfg, s, a).Some? then ProducerStep(cfg, s, a)
    else ConsumerStep(cfg, s, a)
  }

  // Where a run of actions leads, when each of them is possible.
  function Run(cfg: Config, stop: bool, actions: seq<Action>): Option<State> {
    if actions == [] then Some(Start(stop))
    else
      var before := Run(cfg, stop, actions[..|actions| - 1]);
      if before.None? then None else Step(cfg, before.value, actions[|actions| - 1])
  }

  // The two steps of a flush, taken together, are what the service's method does.
  lemma FlushIsTwoSteps(cfg: Config, s: State, outcome: Outcome)
    requires s.consumer.Flushing? && Possible(s.books.pending, outcome)
    ensures var written := ConsumerStep(cfg, s, Write(outcome));
            && written.Some?
            && var after := if written.value.consumer.Settling? then ConsumerStep(cfg, written.value, Account)
                               else written;
               after == Some(s.(books := Flush(s.books, outcome), consumer := Analysing(s.consumer.why)))
  {
  }
}

// What every interleaving of the ingestion threads keeps: each record taken is in exactly one
// place, the counters say how many are where, and the survivors stay in order.
module Conservation {
  import opened Options
  import opened LiveIngestion

  // ------------------------------------------------------------------ where the records are

  function InProducer(p: Producer): seq<nat> {
    match p
    case Taken(id) => [id]
    case Accepted(id) => [id]
    case Offering(id) => [id]
    case Waiting(id) => [id]
    case _ => []
  }

  function InConsumer(c: Consumer): seq<nat> {
    if c.Holding? then [c.id] else []
  }

  function Records(queue: seq<Slot>): seq<nat> {
    if queue == [] then []
    else Carried(queue[0]) + Records(queue[1..])
  }

  function Carried(slot: Slot): seq<nat> {
    if slot.Item? then [slot.id] else []
  }

  lemma {:induction false} RecordsAppend(queue: seq<Slot>, slot: Slot)
    ensures Records(queue + [slot]) == Records(queue) + Carried(slot)
  {
    var longer := queue + [slot];
    if queue == [] {
      assert longer[1..] == [];
    } else {
      assert longer[0] == queue[0] && longer[1..] == queue[1..] + [slot];
      assert Records(longer) == Carried(queue[0]) + Records(queue[1..] + [slot]);
      assert Records(queue) == Carried(queue[0]) + Records(queue[1..]);
      hide Carried, Records;
      RecordsAppend(queue[1..], slot);
    }
  }

  function Copies(ids: seq<nat>, id: nat): nat {
    multiset(ids)[id]
  }

  lemma CopiesJoin(a: seq<nat>, b: seq<nat>, id: nat)
    ensures Copies(a + b, id) == Copies(a, id) + Copies(b, id)
    ensures Copies([], id) == 0
  {
  }

  // How often a record is among those that reached a resting place, or await their transaction.
  function Resting(l: Ledger, id: nat): nat {
    Copies(l.persisted, id) + Copies(l.rejected, id) + Copies(l.quarantined, id) + Copies(l.malformed, id)
    + Copies(l.reports, id) + Copies(l.dropped, id) + Copies(l.discarded, id) + Copies(l.abandoned, id)
  }

  function Stock(b: Books, id: nat): nat {
    Resting(b.ledger, id) + Copies(b.pending, id)
  }

  function Moving(s: State, id: nat): nat {
    Copies(InConsumer(s.consumer), id) + Copies(Records(s.queue), id) + Copies(InProducer(s.producer), id)
  }

  // Every record taken so far is in exactly one place, once, and no other is anywhere.
  ghost predicate Conserved(s: State) {
    forall id: nat :: Stock(s.books, id) + Moving(s, id) == if id < s.next then 1 else 0
  }

  function One(x: nat, id: nat): nat {
    if x == id then 1 else 0
  }

  lemma CopiesOfOne(x: nat, id: nat)
    ensures Copies([x], id) == One(x, id)
  {
  }

  lemma BookedOnce(b: Books, x: nat, id: nat)
    ensures Stock(Discard(b, x), id) == Stock(b, id) + One(x, id)
    ensures Stock(MarkMalformed(b, x), id) == Stock(b, id) + One(x, id)
    ensures Stock(Drop(b, x), id) == Stock(b, id) + One(x, id)
    ensures Stock(Abandon(b, [x]), id) == Stock(b, id) + One(x, id)
    ensures Stock(b.(pending := b.pending + [x]), id) == Stock(b, id) + One(x, id)
  {
    CopiesOfOne(x, id);
    CopiesJoin(b.ledger.discarded, [x], id);
    CopiesJoin(b.ledger.malformed, [x], id);
    CopiesJoin(b.ledger.dropped, [x], id);
    CopiesJoin(b.ledger.abandoned, [x], id);
    CopiesJoin(b.pending, [x], id);
    hide Copies;
  }

  lemma ReportedOnce(b: Books, x: nat, lost: Option<int>, id: nat)
    ensures Stock(Report(b, x, lost), id) == Stock(b, id) + One(x, id)
  {
    BookedOnce(b, x, id);
    CopiesOfOne(x, id);
    CopiesJoin(b.ledger.reports, [x], id);
    hide Copies, MarkMalformed;
  }

  lemma NothingMoves(b: Books, kept: seq<nat>, refused: nat, duplicates: nat, raises: bool, id: nat)
    ensures Stock(NoteWait(b), id) == Stock(b, id)
    ensures Stock(Fail(b), id) == Stock(b, id)
    ensures Stock(Settle(b, kept, refused, duplicates), id) == Stock(b, id)
    ensures Stock(Analyse(b, raises), id) == Stock(b, id)
  {
    hide Copies;
  }

  lemma {:induction false} SplitPending(ids: seq<nat>, rejected: set<nat>, id: nat)
    ensures Copies(Without(ids, rejected), id) + Copies(Within(ids, rejected), id) == Copies(ids, id)
  {
    if ids != [] {
      var init, last := ids[..|ids| - 1], ids[|ids| - 1];
      assert ids == init + [last];
      SplitPending(init, rejected, id);
      CopiesJoin(init, [last], id);
      CopiesJoin(Without(init, rejected), [last], id);
      CopiesJoin(Within(init, rejected), [last], id);
      hide Copies;
    }
  }

  lemma PendingRests(b: Books, rejected: set<nat>, id: nat)
    ensures Stock(Quarantine(b), id) == Stock(b, id)
    ensures Stock(Commit(b, rejected), id) == Stock(b, id)
  {
    SplitPending(b.pending, rejected, id);
    CopiesJoin(b.ledger.quarantined, b.pending, id);
    CopiesJoin(b.ledger.persisted, Without(b.pending, rejected), id);
    CopiesJoin(b.ledger.rejected, Within(b.pending, rejected), id);
    hide Copies, Without, Within;
  }

  lemma QueueGrows(queue: seq<Slot>, slot: Slot, id: nat)
    ensures Copies(Records(queue + [slot]), id) == Copies(Records(queue), id) + Copies(Carried(slot), id)
  {
    RecordsAppend(queue, slot);
    CopiesJoin(Records(queue), Carried(slot), id);
  }

  lemma QueueShrinks(queue: seq<Slot>, id: nat)
    requires queue != []
    ensures Copies(Records(queue), id) == Copies(Carried(queue[0]), id) + Copies(Records(queue[1..]), id)
  {
    CopiesJoin(Carried(queue[0]), Records(queue[1..]), id);
  }

  lemma ProducerConserves(cfg: Config, s: State, a: Action, id: nat)
    requires ProducerStep(cfg, s, a).Some?
    ensures var t := ProducerStep(cfg, s, a).value;
            Stock(t.books, id) + Moving(t, id)
            == Stock(s.books, id) + Moving(s, id) + if a.Take? then One(s.next, id) else 0
  {
    hide Records, Stock, Copies, Discard, MarkMalformed, Report, Drop, Abandon, Fail, NoteWait, InConsumer;
    CopiesJoin([], [], id);
    match s.producer {
      case Asking =>
        NothingMoves(s.books, [], 0, 0, false, id);
        CopiesOfOne(s.next, id);
      case Taken(x) =>
        BookedOnce(s.books, x, id);
        CopiesOfOne(x, id);
      case Accepted(x) =>
        BookedOnce(s.books, x, id);
        CopiesOfOne(x, id);
        if cfg.content(x).LossReport? {
          ReportedOnce(s.books, x, cfg.content(x).lost, id);
        }
      case Offering(x) => QueueGrows(s.queue, Item(x), id);
      case Waiting(x) =>
        QueueGrows(s.queue, Item(x), id);
        BookedOnce(s.books, x, id);
        CopiesOfOne(x, id);
      case Noting => NothingMoves(s.books, [], 0, 0, false, id);
      case Delivering => QueueGrows(s.queue, Sentinel, id);
      case _ =>
    }
  }

  lemma ConsumerConserves(cfg: Config, s: State, a: Action, id: nat)
    requires ConsumerStep(cfg, s, a).Some?
    ensures var t := ConsumerStep(cfg, s, a).value;
            Stock(t.books, id) + Moving(t, id) == Stock(s.books, id) + Moving(s, id)
  {
    hide Records, Stock, Copies, MarkMalformed, Abandon, Fail, Settle, Analyse, Quarantine, Commit, InProducer;
    CopiesJoin([], [], id);
    match s.consumer {
      case Polling =>
        if s.queue != [] {
          QueueShrinks(s.queue, id);
        }
      case Holding(x) =>
        BookedOnce(s.books, x, id);
        CopiesOfOne(x, id);
      case Flushing(_) =>
        PendingRests(s.books, if a.outcome.Committed? then a.outcome.rejected else {}, id);
      case Settling(_, kept, refused, duplicates) =>
        NothingMoves(s.books, kept, refused, duplicates, false, id);
      case Analysing(_) =>
        NothingMoves(s.books, [], 0, 0, a.raises, id);
      case _ =>
    }
  }

  // ------------------------------------------------------------------ the counters

  // The samples the kernel lost, by the reports that could be read.
  function LostIn(cfg: Config, reports: seq<nat>): int {
    if reports == [] then 0
    else
      LostIn(cfg, reports[..|reports| - 1])
      + match cfg.content(reports[|reports| - 1])
        case LossReport(Some(lost)) => lost
        case _ => 0
  }

  function Kept(c: Consumer): seq<nat> {
    if c.Settling? then c.kept else []
  }

  function RefusedNow(c: Consumer): nat {
    if c.Settling? then c.refused else 0
  }

  // The counters are the numbers of records at each place, save for a transaction whose result
  // is not yet accounted for; what was committed is analysed in order, once, or awaits analysis.
  ghost predicate Tallied(cfg: Config, b: Books, kept: seq<nat>, refused: nat) {
    var h, l := b.health, b.ledger;
    && h.processed + |kept| == |l.persisted|
    && l.analysed + b.batch + kept == l.persisted
    && h.malformed + refused == |l.malformed| + |l.rejected|
    && h.duplicates <= h.processed
    && |l.dropped| == h.dropped <= h.waits
    && h.quarantinedBatches <= h.quarantinedEvents == |l.quarantined|
    && h.kernelLost == LostIn(cfg, l.reports)
    && (l.abandoned != [] ==> h.failed)
  }

  lemma EntriesTallied(cfg: Config, b: Books, kept: seq<nat>, refused: nat, x: nat)
    requires Tallied(cfg, b, kept, refused)
    ensures Tallied(cfg, Discard(b, x), kept, refused)
    ensures Tallied(cfg, MarkMalformed(b, x), kept, refused)
    ensures Tallied(cfg, Drop(b, x), kept, refused)
    ensures Tallied(cfg, Abandon(b, [x]), kept, refused)
    ensures Tallied(cfg, Fail(b), kept, refused)
    ensures Tallied(cfg, NoteWait(b), kept, refused)
    ensures Tallied(cfg, b.(pending := b.pending + [x]), kept, refused)
  {
    hide LostIn;
  }

  lemma LostGrows(cfg: Config, reports: seq<nat>, x: nat)
    requires cfg.content(x).LossReport?
    ensures LostIn(cfg, reports + [x])
            == LostIn(cfg, reports) + if cfg.content(x).lost.Some? then cfg.content(x).lost.value else 0
  {
    assert (reports + [x])[..|reports|] == reports;
  }

  lemma ReportTallied(cfg: Config, b: Books, kept: seq<nat>, refused: nat, x: nat)
    requires Tallied(cfg, b, kept, refused) && cfg.content(x).LossReport?
    ensures Tallied(cfg, Report(b, x, cfg.content(x).lost), kept, refused)
  {
    hide LostIn, MarkMalformed;
    LostGrows(cfg, b.ledger.reports, x);
    EntriesTallied(cfg, b, kept, refused, x);
  }

  lemma FlushTallied(cfg: Config, b: Books, rejected: set<nat>)
    requires Tallied(cfg, b, [], 0)
    ensures b.pending != [] ==> Tallied(cfg, Quarantine(b), [], 0)
    ensures Tallied(cfg, Commit(b, rejected), Without(b.pending, rejected), |Within(b.pending, rejected)|)
  {
    hide LostIn, Without, Within;
  }

  lemma SettleTallied(cfg: Config, b: Books, kept: seq<nat>, refused: nat, duplicates: nat)
    requires Tallied(cfg, b, kept, refused) && duplicates <= |kept|
    ensures Tallied(cfg, Settle(b, kept, refused, duplicates), [], 0)
  {
    hide LostIn;
  }

  lemma AnalyseTallied(cfg: Config, b: Books, raises: bool)
    requires Tallied(cfg, b, [], 0)
    ensures Tallied(cfg, Analyse(b, raises), [], 0)
  {
    hide LostIn;
    assert b.ledger.analysed + b.batch + [] == b.ledger.analysed + b.batch;
  }

  ghost predicate Counted(cfg: Config, s: State) {
    && Tallied(cfg, s.books, Kept(s.consumer), RefusedNow(s.consumer))
    && (s.consumer.Settling? ==> s.consumer.duplicates <= |s.consumer.kept|)
  }

  lemma ProducerCounts(cfg: Config, s: State, a: Action)
    requires ProducerStep(cfg, s, a).Some? && Counted(cfg, s)
    ensures Counted(cfg, ProducerStep(cfg, s, a).value)
  {
    hide Tallied, Kept, RefusedNow, Discard, MarkMalformed, Report, Drop, Abandon, Fail, NoteWait;
    var x := if InProducer(s.producer) == [] then 0 else InProducer(s.producer)[0];
    EntriesTallied(cfg, s.books, Kept(s.consumer), RefusedNow(s.consumer), x);
    if s.producer.Accepted? && cfg.content(x).LossReport? {
      ReportTallied(cfg, s.books, Kept(s.consumer), RefusedNow(s.consumer), x);
    }
  }

  lemma ConsumerCounts(cfg: Config, s: State, a: Action)
    requires ConsumerStep(cfg, s, a).Some? && Counted(cfg, s)
    ensures Counted(cfg, ConsumerStep(cfg, s, a).value)
  {
    hide Tallied, MarkMalformed, Abandon, Fail, Settle, Analyse, Quarantine, Commit, Without, Within, LostIn;
    match s.consumer {
      case Holding(x) => EntriesTallied(cfg, s.books, [], 0, x);
      case Flushing(_) => FlushTallied(cfg, s.books, if a.outcome.Committed? then a.outcome.rejected else {});
      case Settling(_, kept, refused, duplicates) => SettleTallied(cfg, s.books, kept, refused, duplicates);
      case Analysing(_) => AnalyseTallied(cfg, s.books, a.raises);
      case _ =>
    }
  }

  // ------------------------------------------------------------------ order

  ghost predicate Ascending(ids: seq<nat>, limit: nat) {
    && (forall a, b | 0 <= a < b < |ids| :: ids[a] < ids[b])
    && (forall a | 0 <= a < |ids| :: ids[a] < limit)
  }

  // The committed records and those still moving, the oldest first.
  function Flow(s: State): seq<nat> {
    s.books.ledger.persisted
    + (s.books.pending + (InConsumer(s.consumer) + (Records(s.queue) + InProducer(s.producer))))
  }

  // Nothing overtakes: the survivors stay in the order they were taken.
  ghost predicate Ordered(s: State) {
    Ascending(Flow(s), s.next)
  }

  lemma CutMiddle(a: seq<nat>, b: seq<nat>, c: seq<nat>, limit: nat)
    requires Ascending(a + (b + c), limit)
    ensures Ascending(a + c, limit)
  {
    var whole, cut := a + (b + c), a + c;
    forall k | 0 <= k < |cut|
      ensures cut[k] == whole[if k < |a| then k else k + |b|]
    {
    }
  }

  lemma {:induction false} FilterMiddle(a: seq<nat>, b: seq<nat>, c: seq<nat>, rejected: set<nat>, limit: nat)
    requires Ascending(a + (b + c), limit)
    ensures Ascending(a + (Without(b, rejected) + c), limit)
    decreases |b|
  {
    if b != [] {
      var init, last := b[..|b| - 1], b[|b| - 1];
      var rest := if last in rejected then c else [last] + c;
      assert b + c == init + ([last] + c);
      if last in rejected {
        assert a + (b + c) == (a + init) + ([last] + c);
        CutMiddle(a + init, [last], c, limit);
        assert (a + init) + c == a + (init + c);
      }
      FilterMiddle(a, init, rest, rejected, limit);
      assert Without(b, rejected) + c == Without(init, rejected) + rest;
    }
  }

  // The flow up to the record the producer holds.
  function Upstream(s: State): seq<nat> {
    s.books.ledger.persisted + (s.books.pending + (InConsumer(s.consumer) + Records(s.queue)))
  }

  lemma FlowEndsAtProducer(s: State)
    ensures Flow(s) == Upstream(s) + InProducer(s.producer)
  {
    hide Records, InConsumer, InProducer;
  }

  lemma PutKeepsFlow(s: State, x: nat, after: Producer)
    requires InProducer(s.producer) == [x] && InProducer(after) == []
    ensures Flow(PutRecord(s, x, after)) == Flow(s)
  {
    RecordsAppend(s.queue, Item(x));
    hide Records, InConsumer, InProducer;
  }

  lemma SentinelKeepsFlow(s: State)
    ensures Records(s.queue + [Sentinel]) == Records(s.queue)
  {
    RecordsAppend(s.queue, Sentinel);
  }

  lemma ProducerOrders(cfg: Config, s: State, a: Action)
    requires ProducerStep(cfg, s, a).Some? && Ordered(s)
    ensures Ordered(ProducerStep(cfg, s, a).value)
  {
    hide Records, Ascending, InConsumer, Flow;
    var t := ProducerStep(cfg, s, a).value;
    FlowEndsAtProducer(s);
    FlowEndsAtProducer(t);
    assert Upstream(t) + [] == Upstream(t) && Upstream(s) + [] == Upstream(s);
    match s.producer {
      case Asking => AscendingNext(Flow(s), s.next);
      case Offering(x) => PutKeepsFlow(s, x, Asking);
      case Waiting(x) => PutKeepsFlow(s, x, Noting);
      case Delivering => SentinelKeepsFlow(s);
      case _ =>
    }
    CutEnd(Upstream(s), InProducer(s.producer), s.next);
  }

  lemma CutEnd(a: seq<nat>, b: seq<nat>, limit: nat)
    requires Ascending(a + b, limit)
    ensures Ascending(a, limit)
  {
    assert a + b == a + (b + []);
    CutMiddle(a, b, [], limit);
    assert a + [] == a;
  }

  lemma AscendingNext(ids: seq<nat>, limit: nat)
    requires Ascending(ids, limit)
    ensures Ascending(ids + [limit], limit + 1)
  {
  }

  lemma PollKeepsFlow(s: State)
    requires s.consumer.Polling?
    ensures Flow(Poll(s)) == Flow(s)
  {
    if s.queue != [] {
      assert Records(s.queue) == Carried(s.queue[0]) + Records(s.queue[1..]);
    }
    hide Records, InProducer;
  }

  // Where a record that the consumer holds joins the pending ones, or leaves.
  lemma HeldMoves(persisted: seq<nat>, pending: seq<nat>, x: nat, rest: seq<nat>, limit: nat)
    requires Ascending(persisted + (pending + ([x] + rest)), limit)
    ensures Ascending(persisted + ((pending + [x]) + rest), limit) && Ascending(persisted + (pending + rest), limit)
  {
    hide Ascending;
    assert persisted + (pending + ([x] + rest)) == persisted + ((pending + [x]) + rest);
    assert persisted + (pending + ([x] + rest)) == (persisted + pending) + ([x] + rest);
    CutMiddle(persisted + pending, [x], rest, limit);
    assert (persisted + pending) + rest == persisted + (pending + rest);
  }

  // Where the pending records are set aside, or committed but for the refused ones.
  lemma PendingMoves(persisted: seq<nat>, pending: seq<nat>, rest: seq<nat>, rejected: set<nat>, limit: nat)
    requires Ascending(persisted + (pending + rest), limit)
    ensures Ascending(persisted + rest, limit)
    ensures Ascending((persisted + Without(pending, rejected)) + rest, limit)
  {
    hide Ascending, Without;
    CutMiddle(persisted, pending, rest, limit);
    FilterMiddle(persisted, pending, rest, rejected, limit);
    assert persisted + (Without(pending, rejected) + rest) == (persisted + Without(pending, rejected)) + rest;
  }

  lemma ConsumerOrders(cfg: Config, s: State, a: Action)
    requires ConsumerStep(cfg, s, a).Some? && Ordered(s)
    ensures Ordered(ConsumerStep(cfg, s, a).value)
  {
    hide Records, Ascending, InProducer, Without, Within;
    var persisted, pending := s.books.ledger.persisted, s.books.pending;
    var rest := Records(s.queue) + InProducer(s.producer);
    assert [] + rest == rest;
    match s.consumer {
      case Polling => PollKeepsFlow(s);
      case Holding(x) => HeldMoves(persisted, pending, x, rest, s.next);
      case Flushing(_) =>
        PendingMoves(persisted, pending, rest, if a.outcome.Committed? then a.outcome.rejected else {}, s.next);
      case _ =>
    }
  }

  // ------------------------------------------------------------------ bounds and control

  lemma {:induction false} WithoutShorter(ids: seq<nat>, rejected: set<nat>)
    ensures |Without(ids, rejected)| <= |ids|
  {
    if ids != [] {
      WithoutShorter(ids[..|ids| - 1], rejected);
    }
  }

  // The queue, the transaction and the analysis stay within their sizes.
  ghost predicate Bounded(cfg: Config, s: State) {
    var size := cfg.batchSize;
    && |s.queue| <= cfg.capacity
    && |s.books.pending| <= size
    && |s.books.batch| < 2 * size
    && (s.consumer.Settling? ==> s.books.pending == [] && |s.consumer.kept| <= size && |s.books.batch| < size)
    && (s.consumer.Flushing? ==> |s.books.batch| < size)
    && (s.consumer.Analysing? ==> s.books.pending == [])
    && (s.consumer.Polling? || s.consumer.SawEmpty? || s.consumer.Holding? || s.consumer == Ended(Crashed) ==>
          |s.books.pending| < size && |s.books.batch| < size)
    && (s.consumer.Ended? && s.consumer.exit != Crashed ==> s.books.pending == [] && s.books.batch == [])
  }

  // The producer leaves the consumer's own lists alone.
  lemma ProducerFrame(cfg: Config, s: State, a: Action)
    requires ProducerStep(cfg, s, a).Some?
    ensures var t := ProducerStep(cfg, s, a).value;
            && t.consumer == s.consumer && t.books.pending == s.books.pending && t.books.batch == s.books.batch
            && |t.queue| <= if |s.queue| < cfg.capacity then cfg.capacity else |s.queue|
  {
  }

  lemma ProducerBounds(cfg: Config, s: State, a: Action)
    requires ProducerStep(cfg, s, a).Some? && Bounded(cfg, s)
    ensures Bounded(cfg, ProducerStep(cfg, s, a).value)
  {
    ProducerFrame(cfg, s, a);
    hide ProducerStep;
  }

  lemma ConsumerBounds(cfg: Config, s: State, a: Action)
    requires ConsumerStep(cfg, s, a).Some? && cfg.Valid() && Bounded(cfg, s) && Controlled(s)
    ensures Bounded(cfg, ConsumerStep(cfg, s, a).value)
  {
    hide Without, Within, Records;
    if a.Write? && a.outcome.Committed? {
      WithoutShorter(s.books.pending, a.outcome.rejected);
    }
  }

  // The consumer is on its way out, or out, by an exit.
  predicate Leaves(c: Consumer, exit: Exit) {
    match c
    case Flushing(why) => why == Final(exit)
    case Settling(why, _, _, _) => why == Final(exit)
    case Analysing(why) => why == Final(exit)
    case Ended(e) => e == exit
    case _ => false
  }

  ghost predicate Controlled(s: State) {
    && (s.done <==> s.producer.Delivering? || s.producer.Rebuffed? || s.producer.Gone?)
    && (forall k | 0 <= k < |s.queue| :: s.queue[k].Sentinel? ==> k == |s.queue| - 1 && s.producer.Gone?)
    && (Leaves(s.consumer, BySentinel) ==> s.queue == [] && s.producer.Gone?)
    && (s.consumer.SawEmpty? || Leaves(s.consumer, ByEmpty) ==> Records(s.queue) == s.sinceEmpty)
    && (Leaves(s.consumer, ByEmpty) ==> s.done)
    && (Leaves(s.consumer, Crashed) ==> s.consumer.Ended? && s.books.health.failed)
    && (s.producer.Gone? && !s.consumer.Ended? && !Leaves(s.consumer, BySentinel) ==>
          s.queue != [] && s.queue[|s.queue| - 1] == Sentinel)
  }

  lemma ProducerControlled(cfg: Config, s: State, a: Action)
    requires ProducerStep(cfg, s, a).Some? && Controlled(s)
    ensures Controlled(ProducerStep(cfg, s, a).value)
  {
    hide Records;
    match s.producer {
      case Offering(x) => RecordsAppend(s.queue, Item(x));
      case Waiting(x) => RecordsAppend(s.queue, Item(x));
      case Delivering => RecordsAppend(s.queue, Sentinel);
      case _ =>
    }
  }

  lemma ConsumerControlled(cfg: Config, s: State, a: Action)
    requires ConsumerStep(cfg, s, a).Some? && Controlled(s)
    ensures Controlled(ConsumerStep(cfg, s, a).value)
  {
    hide Without, Within, Possible, MarkMalformed, Quarantine, Commit, Settle, Analyse;
    assert s.queue == [] ==> Records(s.queue) == [];
    hide Records;
  }

  // ------------------------------------------------------------------ what ends up where

  ghost predicate Canonical(cfg: Config, ids: seq<nat>) {
    forall k | 0 <= k < |ids| :: cfg.content(ids[k]) == Telemetry(true)
  }

  ghost predicate Decoded(cfg: Config, ids: seq<nat>) {
    forall k | 0 <= k < |ids| :: cfg.content(ids[k]).Telemetry?
  }

  predicate Readable(content: Content) {
    content.LossReport? && content.lost.Some? && content.lost.value > 0
  }

  ghost predicate Reports(cfg: Config, ids: seq<nat>) {
    forall k | 0 <= k < |ids| :: Readable(cfg.content(ids[k]))
  }

  ghost predicate Faulty(cfg: Config, ids: seq<nat>) {
    forall k | 0 <= k < |ids| :: !Readable(cfg.content(ids[k])) && cfg.content(ids[k]) != Telemetry(true)
  }

  // Only canonical telemetry is written or set aside, only decoded telemetry waits in the queue
  // or is dropped, and a loss report that can be read is counted and never lost to congestion.
  ghost predicate WellPlaced(cfg: Config, b: Books) {
    && Canonical(cfg, b.pending) && Canonical(cfg, b.ledger.persisted)
    && Canonical(cfg, b.ledger.rejected) && Canonical(cfg, b.ledger.quarantined)
    && Decoded(cfg, b.ledger.dropped) && Reports(cfg, b.ledger.reports) && Faulty(cfg, b.ledger.malformed)
  }

  ghost predicate Classified(cfg: Config, s: State) {
    && WellPlaced(cfg, s.books)
    && Decoded(cfg, Records(s.queue))
    && Decoded(cfg, InConsumer(s.consumer))
    && (s.producer.Offering? || s.producer.Waiting? ==> cfg.content(s.producer.id).Telemetry?)
  }

  lemma {:induction false} SplitCanonical(cfg: Config, ids: seq<nat>, rejected: set<nat>)
    requires Canonical(cfg, ids)
    ensures Canonical(cfg, Without(ids, rejected)) && Canonical(cfg, Within(ids, rejected))
  {
    if ids != [] {
      SplitCanonical(cfg, ids[..|ids| - 1], rejected);
    }
  }

  lemma EntriesWellPlaced(cfg: Config, b: Books, x: nat, lost: Option<int>)
    requires WellPlaced(cfg, b)
    ensures WellPlaced(cfg, Discard(b, x)) && WellPlaced(cfg, Abandon(b, [x]))
            && WellPlaced(cfg, Fail(b)) && WellPlaced(cfg, NoteWait(b))
    ensures cfg.content(x).Telemetry? ==> WellPlaced(cfg, Drop(b, x))
    ensures cfg.content(x).Undecodable? || cfg.content(x) == Telemetry(false) ==> WellPlaced(cfg, MarkMalformed(b, x))
    ensures cfg.content(x) == LossReport(lost) ==> WellPlaced(cfg, Report(b, x, lost))
    ensures cfg.content(x) == Telemetry(true) ==> WellPlaced(cfg, b.(pending := b.pending + [x]))
  {
  }

  lemma FlushWellPlaced(cfg: Config, b: Books, rejected: set<nat>)
    requires WellPlaced(cfg, b)
    ensures WellPlaced(cfg, Quarantine(b)) && WellPlaced(cfg, Commit(b, rejected))
  {
    SplitCanonical(cfg, b.pending, rejected);
    hide Without, Within;
  }

  lemma HandlingWellPlaced(cfg: Config, b: Books, kept: seq<nat>, refused: nat, duplicates: nat, raises: bool)
    requires WellPlaced(cfg, b)
    ensures WellPlaced(cfg, Settle(b, kept, refused, duplicates)) && WellPlaced(cfg, Analyse(b, raises))
  {
  }

  lemma QueueClassified(cfg: Config, queue: seq<Slot>, slot: Slot)
    requires Decoded(cfg, Records(queue)) && Decoded(cfg, Carried(slot))
    ensures Decoded(cfg, Records(queue + [slot]))
  {
    RecordsAppend(queue, slot);
    hide Records, Carried;
  }

  lemma HeadClassified(cfg: Config, queue: seq<Slot>)
    requires queue != [] && Decoded(cfg, Records(queue))
    ensures Decoded(cfg, Carried(queue[0])) && Decoded(cfg, Records(queue[1..]))
  {
    var head, tail, all := Carried(queue[0]), Records(queue[1..]), Records(queue);
    assert all == head + tail;
    hide Records, Carried;
    assert forall k | 0 <= k < |head| :: head[k] == all[k];
    assert forall k | 0 <= k < |tail| :: tail[k] == all[k + |head|];
  }

  lemma ProducerQueueClassified(cfg: Config, s: State, a: Action)
    requires ProducerStep(cfg, s, a).Some? && Classified(cfg, s)
    ensures Decoded(cfg, Records(ProducerStep(cfg, s, a).value.queue))
  {
    hide Records, WellPlaced, InConsumer;
    match s.producer {
      case Offering(x) => QueueClassified(cfg, s.queue, Item(x));
      case Waiting(x) => QueueClassified(cfg, s.queue, Item(x));
      case Delivering => QueueClassified(cfg, s.queue, Sentinel);
      case _ =>
    }
    hide Decoded;
  }

  lemma DecodeWellPlaced(cfg: Config, s: State, x: nat)
    requires WellPlaced(cfg, s.books)
    ensures WellPlaced(cfg, DecodeRecord(s, x, cfg.content(x)).books)
  {
    hide WellPlaced, MarkMalformed, Report;
    EntriesWellPlaced(cfg, s.books, x, if cfg.content(x).LossReport? then cfg.content(x).lost else None);
  }

  lemma ProducerBooksWellPlaced(cfg: Config, s: State, a: Action)
    requires ProducerStep(cfg, s, a).Some? && Classified(cfg, s)
    ensures WellPlaced(cfg, ProducerStep(cfg, s, a).value.books)
  {
    hide Records, WellPlaced, Discard, Drop, Abandon, Fail, NoteWait, InConsumer, Decoded, DecodeRecord;
    match s.producer {
      case Taken(x) => EntriesWellPlaced(cfg, s.books, x, None);
      case Accepted(x) =>
        DecodeWellPlaced(cfg, s, x);
        EntriesWellPlaced(cfg, s.books, x, None);
      case Waiting(x) => EntriesWellPlaced(cfg, s.books, x, None);
      case Asking => EntriesWellPlaced(cfg, s.books, 0, None);
      case Noting => EntriesWellPlaced(cfg, s.books, 0, None);
      case _ =>
    }
  }

  lemma ProducerClassifies(cfg: Config, s: State, a: Action)
    requires ProducerStep(cfg, s, a).Some? && Classified(cfg, s)
    ensures Classified(cfg, ProducerStep(cfg, s, a).value)
  {
    hide Records, WellPlaced, InConsumer, Decoded;
    ProducerQueueClassified(cfg, s, a);
    ProducerBooksWellPlaced(cfg, s, a);
    ProducerFrame(cfg, s, a);
  }

  lemma ConsumerClassifies(cfg: Config, s: State, a: Action)
    requires ConsumerStep(cfg, s, a).Some? && Classified(cfg, s)
    ensures Classified(cfg, ConsumerStep(cfg, s, a).value)
  {
    hide Records, WellPlaced, MarkMalformed, Abandon, Fail, Settle, Analyse, Quarantine, Commit, Without, Within;
    match s.consumer {
      case Polling =>
        if s.queue != [] {
          HeadClassified(cfg, s.queue);
        }
      case Holding(x) =>
        assert InConsumer(s.consumer)[0] == x;
        EntriesWellPlaced(cfg, s.books, x, None);
      case Flushing(_) => FlushWellPlaced(cfg, s.books, if a.outcome.Committed? then a.outcome.rejected else {});
      case Settling(_, kept, refused, duplicates) => HandlingWellPlaced(cfg, s.books, kept, refused, duplicates, false);
      case Analysing(_) => HandlingWellPlaced(cfg, s.books, [], 0, 0, a.raises);
      case _ =>
    }
  }
}
