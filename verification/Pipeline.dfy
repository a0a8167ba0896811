/** The event fan-out with its bounded queues, the queue workers, and reload, as steps that may
    interleave in any order. */
module Pipelines {
  import opened Base

  /** Sinks and asynchronous processors are registered in two maps; one key type covers both. */
  datatype Name = Sink(name: string) | Processor(name: string)

  /** One queue ever created, with its worker and its whole history. */
  datatype Chan<Ev> = Chan(
    closed: bool,
    closes: nat,
    buf: seq<Ev>,            // waiting in the queue
    inHand: Option<Ev>,      // taken by the worker, not yet handed over
    done: bool,              // the worker has returned
    accepted: seq<Ev>,       // every event the queue took
    consumed: seq<Ev>,       // every event handed to the client
    offers: nat,             // every attempt to send
    drops: nat)              // every drop counted against this queue

  /** The goroutine that calls `Emit`: between events, or part-way through one snapshot. */
  datatype Producer<Ev> = Idle | Offering(ev: Ev, todo: set<nat>)

  /** A goroutine that stops workers: not doing so, closing the queues it took, or past the wait. */
  datatype Control = Running | Closing(todo: set<nat>) | Stopped

  /** The reload goroutine starts and stops workers; the shutdown one cancels, then stops them. */
  datatype Who = Reloader | Closer

  datatype State<Ev> = State(
    chans: seq<Chan<Ev>>,
    current: map<Name, nat>,
    producer: Producer<Ev>,
    reload: Control,
    closer: Control,
    cancelled: bool,
    emitted: seq<Ev>)

  datatype Action<Ev> =
    | EmitSnapshot(ev: Ev)         // processors done; copy the queue maps under the lock
    | TrySend(id: nat)             // one non-blocking send of the fan-out, in any map order
    | EmitReturn
    | SwapOut(who: Who)            // take the queue maps and leave empty ones
    | CloseNext(who: Who, id: nat) // close one queue taken
    | WaitReturns(who: Who)        // every worker ever started has returned
    | StartWorkers(names: seq<Name>)
    | Receive(id: nat)             // a worker takes the next event
    | HandOver(id: nat)            // its client call returns, with or without an error
    | SeeClosed(id: nat)           // a worker finds its queue closed and empty
    | SeeCancelled(id: nat)        // a worker finds the run context cancelled
    | Cancel

  function NewChan<Ev>(): Chan<Ev> {
    Chan(false, 0, [], None, false, [], [], 0, 0)
  }

  /** The non-blocking send: a closed queue panics, which is caught and counted like a full one. */
  function Offered<Ev>(c: Chan<Ev>, ev: Ev, queueSize: nat): Chan<Ev> {
    if !c.closed && |c.buf| < queueSize then
      c.(offers := c.offers + 1, buf := c.buf + [ev], accepted := c.accepted + [ev])
    else
      c.(offers := c.offers + 1, drops := c.drops + 1)
  }

  /** Registers one queue per name; a repeated name replaces the map entry of the earlier queue. */
  function Register(names: seq<Name>, first: nat): map<Name, nat> {
    if names == [] then map[]
    else Register(names[..|names| - 1], first)[names[|names| - 1] := first + |names| - 1]
  }

  function ControlOf<Ev>(s: State<Ev>, who: Who): Control {
    if who.Reloader? then s.reload else s.closer
  }

  function WithControl<Ev>(s: State<Ev>, who: Who, c: Control): State<Ev> {
    if who.Reloader? then s.(reload := c) else s.(closer := c)
  }

  predicate Enabled<Ev>(s: State<Ev>, a: Action<Ev>) {
    match a
    case EmitSnapshot(_) => s.producer.Idle?
    case TrySend(id) => s.producer.Offering? && id in s.producer.todo && id < |s.chans|
    case EmitReturn => s.producer.Offering? && s.producer.todo == {}
    case SwapOut(who) => ControlOf(s, who).Running? && (who.Closer? ==> s.cancelled)
    case CloseNext(who, id) => ControlOf(s, who).Closing? && id in ControlOf(s, who).todo && id < |s.chans|
    case WaitReturns(who) =>
      ControlOf(s, who) == Closing({}) && forall id :: 0 <= id < |s.chans| ==> s.chans[id].done
    case StartWorkers(_) => s.reload.Stopped?
    case Receive(id) => id < |s.chans| && !s.chans[id].done && s.chans[id].inHand.None? && s.chans[id].buf != []
    case HandOver(id) => id < |s.chans| && s.chans[id].inHand.Some?
    case SeeClosed(id) =>
      id < |s.chans| && !s.chans[id].done && s.chans[id].inHand.None?
      && s.chans[id].closed && s.chans[id].buf == []
    case SeeCancelled(id) => id < |s.chans| && !s.chans[id].done && s.chans[id].inHand.None? && s.cancelled
    case Cancel => true
  }

  function Update<Ev>(s: State<Ev>, id: nat, c: Chan<Ev>): State<Ev>
    requires id < |s.chans|
  {
    s.(chans := s.chans[id := c])
  }

  function Next<Ev>(s: State<Ev>, queueSize: nat, a: Action<Ev>): State<Ev>
    requires Enabled(s, a)
  {
    match a
    case EmitSnapshot(ev) =>
      s.(producer := Offering(ev, s.current.Values), emitted := s.emitted + [ev])
    case TrySend(id) =>
      Update(s, id, Offered(s.chans[id], s.producer.ev, queueSize))
        .(producer := s.producer.(todo := s.producer.todo - {id}))
    case EmitReturn => s.(producer := Idle)
    case SwapOut(who) => WithControl(s, who, Closing(s.current.Values)).(current := map[])
    case CloseNext(who, id) =>
      WithControl(Update(s, id, s.chans[id].(closed := true, closes := s.chans[id].closes + 1)),
                  who, Closing(ControlOf(s, who).todo - {id}))
    case WaitReturns(who) => WithControl(s, who, Stopped)
    case StartWorkers(names) =>
      s.(chans := s.chans + seq(|names|, _ => NewChan()), current := Register(names, |s.chans|), reload := Running)
    case Receive(id) =>
      var c := s.chans[id];
      Update(s, id, c.(inHand := Some(c.buf[0]), buf := c.buf[1..]))
    case HandOver(id) =>
      var c := s.chans[id];
      Update(s, id, c.(inHand := None, consumed := c.consumed + [c.inHand.value]))
    case SeeClosed(id) => Update(s, id, s.chans[id].(done := true))
    case SeeCancelled(id) => Update(s, id, s.chans[id].(done := true))
    case Cancel => s.(cancelled := true)
  }

  function Init<Ev>(): State<Ev> {
    State([], map[], Idle, Stopped, Running, false, [])
  }

  /** The state a run from s leads to; None when some action of it was not possible. */
  function RunFrom<Ev>(s: State<Ev>, queueSize: nat, acts: seq<Action<Ev>>): Option<State<Ev>> {
    if acts == [] then Some(s) else
    var before := RunFrom(s, queueSize, acts[..|acts| - 1]);
    var a := acts[|acts| - 1];
    if before.Some? && Enabled(before.value, a) then Some(Next(before.value, queueSize, a)) else None
  }

  function Run<Ev>(queueSize: nat, acts: seq<Action<Ev>>): Option<State<Ev>> {
    RunFrom(Init(), queueSize, acts)
  }

  /** No plugin name is used twice in one start. */
  ghost predicate NamesDistinct<Ev>(acts: seq<Action<Ev>>) {
    forall i :: 0 <= i < |acts| && acts[i].StartWorkers? ==> NoDup(acts[i].names)
  }

  // ---------------------------------------------------------------- per-queue histories

  function Hand<Ev>(c: Chan<Ev>): seq<Ev> {
    if c.inHand.Some? then [c.inHand.value] else []
  }

  /** What the queue took is what was handed over, then what the worker holds, then what waits;
      every offer was taken or counted as a drop. */
  ghost predicate Accounted<Ev>(c: Chan<Ev>, queueSize: nat) {
    && c.accepted == c.consumed + Hand(c) + c.buf
    && |c.buf| <= queueSize
    && c.offers == |c.accepted| + c.drops
  }

  /** a is b with some elements left out. */
  ghost predicate Subsequence<T>(a: seq<T>, b: seq<T>) {
    if a == [] then true
    else if b == [] then false
    else if a[|a| - 1] == b[|b| - 1] && Subsequence(a[..|a| - 1], b[..|b| - 1]) then true
    else Subsequence(a, b[..|b| - 1])
  }

  lemma {:induction false} SubsequenceSkip<T>(a: seq<T>, b: seq<T>, x: T)
    requires Subsequence(a, b)
    ensures Subsequence(a, b + [x])
  {
    assert (b + [x])[..|b|] == b;
  }

  lemma {:induction false} SubsequenceTake<T>(a: seq<T>, b: seq<T>, x: T)
    requires Subsequence(a, b)
    ensures Subsequence(a + [x], b + [x])
  {
    assert (a + [x])[..|a|] == a && (b + [x])[..|b|] == b;
  }

  /** The emitted events that have been offered to queue id by now. */
  ghost function OfferedSoFar<Ev>(s: State<Ev>, id: nat): seq<Ev> {
    if s.producer.Offering? && id in s.producer.todo && s.emitted != [] then s.emitted[..|s.emitted| - 1]
    else s.emitted
  }

  ghost predicate TakenBy<Ev>(s: State<Ev>, who: Who, id: nat) {
    ControlOf(s, who).Closing? && id in ControlOf(s, who).todo
  }

  /** The queues somebody can still close: in the maps, or taken out of them to be closed. */
  ghost predicate Open<Ev>(s: State<Ev>, id: nat) {
    id in s.current.Values || TakenBy(s, Reloader, id) || TakenBy(s, Closer, id)
  }

  /** What holds of one queue, given what was offered to it and whether it is open. */
  ghost predicate ChanOk<Ev>(c: Chan<Ev>, queueSize: nat, offered: seq<Ev>, open: bool, cancelled: bool) {
    && Accounted(c, queueSize)
    && Subsequence(c.accepted, offered)
    && c.closes == (if c.closed then 1 else 0)
    && (c.done ==> c.inHand.None?)
    && (c.done && !cancelled ==> c.closed && c.buf == [])
    && (open ==> !c.closed)
  }

  ghost predicate ChansOk<Ev>(s: State<Ev>, queueSize: nat) {
    forall id :: 0 <= id < |s.chans| ==> ChanOk(s.chans[id], queueSize, OfferedSoFar(s, id), Open(s, id), s.cancelled)
  }

  /** Open queues exist, and each has one place only: the maps or one taker. */
  ghost predicate PlacesOk<Ev>(s: State<Ev>) {
    && (forall id: nat :: Open(s, id) ==> id < |s.chans|)
    && (forall id: nat :: !(TakenBy(s, Reloader, id) && TakenBy(s, Closer, id)))
    && (forall id: nat :: id in s.current.Values ==> s.reload.Running? && !TakenBy(s, Closer, id))
  }

  ghost predicate ProducerOk<Ev>(s: State<Ev>) {
    s.producer.Offering? ==>
      && s.emitted != [] && s.emitted[|s.emitted| - 1] == s.producer.ev
      && forall id :: id in s.producer.todo ==> id < |s.chans|
  }

  ghost predicate Inv<Ev>(s: State<Ev>, queueSize: nat) {
    ChansOk(s, queueSize) && PlacesOk(s) && ProducerOk(s)
  }

  lemma {:induction false} RegisterIds(names: seq<Name>, first: nat)
    ensures forall n :: n in Register(names, first) ==> first <= Register(names, first)[n] < first + |names|
  {
    if names == [] {
    } else {
      RegisterIds(names[..|names| - 1], first);
    }
  }

  /** An existing queue is never opened again, and the one being closed stops being open. */
  lemma {:induction false} OpenShrinks<Ev>(s: State<Ev>, queueSize: nat, a: Action<Ev>, id: nat)
    requires PlacesOk(s) && Enabled(s, a) && id < |s.chans|
    ensures Open(Next(s, queueSize, a), id) ==> Open(s, id)
    ensures a.CloseNext? && a.id == id ==> !Open(Next(s, queueSize, a), id)
  {
    if a.StartWorkers? {
      RegisterIds(a.names, |s.chans|);
    }
    if a.CloseNext? && a.id == id {
      assert TakenBy(s, a.who, id);
    }
  }

  /** One offer is accounted for: taken at the end of the queue, or dropped and counted. */
  lemma {:induction false} OfferedOk<Ev>(c: Chan<Ev>, ev: Ev, queueSize: nat, offered: seq<Ev>, open: bool,
          cancelled: bool)
    requires ChanOk(c, queueSize, offered, open, cancelled)
    ensures ChanOk(Offered(c, ev, queueSize), queueSize, offered + [ev], open, cancelled)
  {
    SubsequenceSkip(c.accepted, offered, ev);
    SubsequenceTake(c.accepted, offered, ev);
    hide Subsequence;
    assert c.consumed + Hand(c) + (c.buf + [ev]) == c.accepted + [ev];
  }

  lemma {:induction false} SkippedOk<Ev>(c: Chan<Ev>, ev: Ev, queueSize: nat, offered: seq<Ev>, open: bool,
          cancelled: bool)
    requires ChanOk(c, queueSize, offered, open, cancelled)
    ensures ChanOk(c, queueSize, offered + [ev], open, cancelled)
  {
    SubsequenceSkip(c.accepted, offered, ev);
  }

  lemma {:induction false} ChanOfProducer<Ev>(s: State<Ev>, queueSize: nat, a: Action<Ev>, id: nat)
    requires Enabled(s, a) && ProducerOk(s) && id < |s.chans|
    requires a.EmitSnapshot? || a.TrySend? || a.EmitReturn?
    requires ChanOk(s.chans[id], queueSize, OfferedSoFar(s, id), Open(s, id), s.cancelled)
    ensures var s' := Next(s, queueSize, a);
            ChanOk(s'.chans[id], queueSize, OfferedSoFar(s', id), Open(s, id), s'.cancelled)
  {
    hide Open, ChanOk, Offered;
    var c, s' := s.chans[id], Next(s, queueSize, a);
    if a.EmitSnapshot? {
      assert s'.emitted[..|s'.emitted| - 1] == s.emitted;
      SkippedOk(c, a.ev, queueSize, s.emitted, Open(s, id), s.cancelled);
    } else if a.TrySend? && id == a.id {
      assert s.emitted == OfferedSoFar(s, id) + [s.producer.ev];
      OfferedOk(c, s.producer.ev, queueSize, OfferedSoFar(s, id), Open(s, id), s.cancelled);
    }
  }

  lemma {:induction false} ChanOfWorker<Ev>(s: State<Ev>, queueSize: nat, a: Action<Ev>, id: nat)
    requires Enabled(s, a) && id < |s.chans|
    requires a.Receive? || a.HandOver? || a.SeeClosed? || a.SeeCancelled? || a.Cancel?
    requires ChanOk(s.chans[id], queueSize, OfferedSoFar(s, id), Open(s, id), s.cancelled)
    ensures var s' := Next(s, queueSize, a);
            ChanOk(s'.chans[id], queueSize, OfferedSoFar(s', id), Open(s, id), s'.cancelled)
  {
    hide Open, Subsequence;
  }

  lemma {:induction false} AccountedClosed<Ev>(c: Chan<Ev>, queueSize: nat)
    requires Accounted(c, queueSize)
    ensures Accounted(c.(closed := true, closes := c.closes + 1), queueSize)
  {
  }

  lemma {:induction false} ChanOfControl<Ev>(s: State<Ev>, queueSize: nat, a: Action<Ev>, id: nat, open: bool)
    requires Enabled(s, a) && id < |s.chans|
    requires a.SwapOut? || a.CloseNext? || a.WaitReturns? || a.StartWorkers?
    requires ChanOk(s.chans[id], queueSize, OfferedSoFar(s, id), Open(s, id), s.cancelled)
    requires open ==> Open(s, id)
    requires a.CloseNext? && a.id == id ==> Open(s, id) && !open
    ensures var s' := Next(s, queueSize, a);
            ChanOk(s'.chans[id], queueSize, OfferedSoFar(s', id), open, s'.cancelled)
  {
    hide Open, Subsequence, Accounted;
    AccountedClosed(s.chans[id], queueSize);
  }

  /** Whatever happens, each queue keeps its account. */
  lemma {:induction false} ChanStep<Ev>(s: State<Ev>, queueSize: nat, a: Action<Ev>, id: nat)
    requires Enabled(s, a) && PlacesOk(s) && ProducerOk(s) && id < |s.chans|
    requires ChanOk(s.chans[id], queueSize, OfferedSoFar(s, id), Open(s, id), s.cancelled)
    ensures var s' := Next(s, queueSize, a);
            ChanOk(s'.chans[id], queueSize, OfferedSoFar(s', id), Open(s', id), s'.cancelled)
  {
    OpenShrinks(s, queueSize, a, id);
    if a.EmitSnapshot? || a.TrySend? || a.EmitReturn? {
      ChanOfProducer(s, queueSize, a, id);
    } else if a.SwapOut? || a.CloseNext? || a.WaitReturns? || a.StartWorkers? {
      ChanOfControl(s, queueSize, a, id, Open(Next(s, queueSize, a), id));
    } else {
      ChanOfWorker(s, queueSize, a, id);
    }
  }

  lemma {:induction false} ChansStep<Ev>(s: State<Ev>, queueSize: nat, a: Action<Ev>)
    requires Inv(s, queueSize) && Enabled(s, a)
    ensures ChansOk(Next(s, queueSize, a), queueSize)
  {
    var s' := Next(s, queueSize, a);
    forall id | 0 <= id < |s'.chans|
      ensures ChanOk(s'.chans[id], queueSize, OfferedSoFar(s', id), Open(s', id), s'.cancelled)
    {
      if id < |s.chans| {
        ChanStep(s, queueSize, a, id);
      }
    }
  }

  lemma {:induction false} PlacesStep<Ev>(s: State<Ev>, queueSize: nat, a: Action<Ev>)
    requires PlacesOk(s) && Enabled(s, a)
    ensures PlacesOk(Next(s, queueSize, a))
  {
    var s' := Next(s, queueSize, a);
    if a.StartWorkers? {
      RegisterIds(a.names, |s.chans|);
    }
    forall id: nat
      ensures Open(s', id) ==> id < |s'.chans|
      ensures !(TakenBy(s', Reloader, id) && TakenBy(s', Closer, id))
      ensures id in s'.current.Values ==> s'.reload.Running? && !TakenBy(s', Closer, id)
    {
      assert TakenBy(s, Reloader, id) ==> Open(s, id);
      assert TakenBy(s, Closer, id) ==> Open(s, id);
      assert id in s.current.Values ==> Open(s, id);
      assert TakenBy(s', Reloader, id) ==> TakenBy(s, Reloader, id) || id in s.current.Values;
      assert TakenBy(s', Closer, id) ==> TakenBy(s, Closer, id) || id in s.current.Values;
    }
  }

  lemma {:induction false} ProducerStep<Ev>(s: State<Ev>, queueSize: nat, a: Action<Ev>)
    requires PlacesOk(s) && ProducerOk(s) && Enabled(s, a)
    ensures ProducerOk(Next(s, queueSize, a))
  {
    if a.EmitSnapshot? {
      assert forall id :: id in s.current.Values ==> Open(s, id);
    }
  }

  lemma {:induction false} StepInv<Ev>(s: State<Ev>, queueSize: nat, a: Action<Ev>)
    requires Inv(s, queueSize) && Enabled(s, a)
    ensures Inv(Next(s, queueSize, a), queueSize)
  {
    hide Next, Enabled, ChansOk, PlacesOk, ProducerOk;
    ChansStep(s, queueSize, a);
    PlacesStep(s, queueSize, a);
    ProducerStep(s, queueSize, a);
  }

  lemma {:induction false} RunInv<Ev>(queueSize: nat, acts: seq<Action<Ev>>)
    requires Run(queueSize, acts).Some?
    ensures Inv(Run(queueSize, acts).value, queueSize)
  {
    if acts == [] {
    } else {
      hide Next, Enabled, ChansOk, PlacesOk, ProducerOk;
      RunInv(queueSize, acts[..|acts| - 1]);
      StepInv(Run(queueSize, acts[..|acts| - 1]).value, queueSize, acts[|acts| - 1]);
    }
  }

  /** For every queue ever created and every interleaving of emitting, working, reloading, closing
      and cancelling: accepted = handed over ++ in hand ++ waiting, within the queue size; offers =
      accepted + drops, offers to closed queues included; what was accepted is in emission order;
      and no queue is closed twice. */
  lemma {:induction false} QueueHistories<Ev>(queueSize: nat, acts: seq<Action<Ev>>, id: nat)
    requires Run(queueSize, acts).Some? && id < |Run(queueSize, acts).value.chans|
    ensures var s := Run(queueSize, acts).value;
            && Accounted(s.chans[id], queueSize)
            && Subsequence(s.chans[id].accepted, s.emitted)
            && s.chans[id].closes <= 1
  {
    hide Run, Next, Enabled, Subsequence, PlacesOk, Open, Accounted;
    RunInv(queueSize, acts);
    var s := Run(queueSize, acts).value;
    var offered := OfferedSoFar(s, id);
    assert ChanOk(s.chans[id], queueSize, offered, Open(s, id), s.cancelled);
    if s.producer.Offering? && id in s.producer.todo {
      SubsequenceSkip(s.chans[id].accepted, offered, s.producer.ev);
      assert s.emitted == offered + [s.producer.ev];
    }
  }

  // ---------------------------------------------------------------- what is taken and what is dropped

  /** One offer: an open queue with room takes the event at its end; a closed or full one only counts
      it as dropped. */
  lemma {:induction false} OfferStep<Ev>(s: State<Ev>, queueSize: nat, id: nat)
    requires Enabled(s, TrySend(id))
    ensures var c, c', ev := s.chans[id], Next(s, queueSize, TrySend(id)).chans[id], s.producer.ev;
            && c'.offers == c.offers + 1 && c'.closed == c.closed && c'.consumed == c.consumed
            && (!c.closed && |c.buf| < queueSize ==>
                  c'.accepted == c.accepted + [ev] && c'.buf == c.buf + [ev] && c'.drops == c.drops)
            && (c.closed || |c.buf| >= queueSize ==>
                  c'.accepted == c.accepted && c'.buf == c.buf && c'.drops == c.drops + 1)
  {
  }

  /** Nothing else that happens takes or drops an event of a queue. */
  lemma {:induction false} OtherSteps<Ev>(s: State<Ev>, queueSize: nat, a: Action<Ev>, id: nat)
    requires Enabled(s, a) && id < |s.chans| && a != TrySend(id)
    ensures var c, c' := s.chans[id], Next(s, queueSize, a).chans[id];
            c'.accepted == c.accepted && c'.drops == c.drops && c'.offers == c.offers
  {
  }

  /** The offer finds its queue closed, or with no room. */
  predicate Refused<Ev>(s: State<Ev>, queueSize: nat, a: Action<Ev>, id: nat) {
    a == TrySend(id) && id < |s.chans| && (s.chans[id].closed || |s.chans[id].buf| >= queueSize)
  }

  function Refusals<Ev>(queueSize: nat, acts: seq<Action<Ev>>, id: nat): nat {
    if acts == [] then 0 else
    var before, a := acts[..|acts| - 1], acts[|acts| - 1];
    var s := Run(queueSize, before);
    Refusals(queueSize, before, id) + (if s.Some? && Refused(s.value, queueSize, a, id) then 1 else 0)
  }

  lemma {:induction false} DropsStep<Ev>(s: State<Ev>, queueSize: nat, a: Action<Ev>, id: nat)
    requires Enabled(s, a)
    ensures var s' := Next(s, queueSize, a);
            && (id < |s.chans| ==>
                  id < |s'.chans|
                  && s'.chans[id].drops == s.chans[id].drops + (if Refused(s, queueSize, a, id) then 1 else 0))
            && (id >= |s.chans| ==> !Refused(s, queueSize, a, id) && (id < |s'.chans| ==> s'.chans[id].drops == 0))
  {
    if id < |s.chans| {
      if a == TrySend(id) {
        OfferStep(s, queueSize, id);
      } else {
        OtherSteps(s, queueSize, a, id);
      }
    }
  }

  /** A queue's drops are exactly its offers that came when it was closed or full. */
  lemma {:induction false} DropsAreRefusals<Ev>(queueSize: nat, acts: seq<Action<Ev>>, id: nat)
    requires Run(queueSize, acts).Some?
    ensures if id < |Run(queueSize, acts).value.chans|
            then Run(queueSize, acts).value.chans[id].drops == Refusals(queueSize, acts, id)
            else Refusals(queueSize, acts, id) == 0
  {
    if acts == [] {
    } else {
      var before, a := acts[..|acts| - 1], acts[|acts| - 1];
      DropsAreRefusals(queueSize, before, id);
      DropsStep(Run(queueSize, before).value, queueSize, a, id);
      hide Next, Enabled, Refused;
    }
  }

  /** The events emitted since the queue was created. */
  function EmittedSince<Ev>(queueSize: nat, acts: seq<Action<Ev>>, id: nat): seq<Ev> {
    if acts == [] then [] else
    var before, a := acts[..|acts| - 1], acts[|acts| - 1];
    var s := Run(queueSize, before);
    EmittedSince(queueSize, before, id)
    + (if a.EmitSnapshot? && s.Some? && id < |s.value.chans| then [a.ev] else [])
  }

  /** The event being fanned out, if this queue's turn is still to come. */
  function Pending<Ev>(s: State<Ev>, id: nat): seq<Ev> {
    if s.producer.Offering? && id in s.producer.todo then [s.producer.ev] else []
  }

  lemma {:induction false} NoneBefore<Ev>(queueSize: nat, acts: seq<Action<Ev>>, id: nat)
    requires Run(queueSize, acts).Some? && id >= |Run(queueSize, acts).value.chans|
    ensures EmittedSince(queueSize, acts, id) == []
  {
    if acts == [] {
    } else {
      var before := acts[..|acts| - 1];
      assert |Run(queueSize, before).value.chans| <= |Run(queueSize, acts).value.chans|;
      NoneBefore(queueSize, before, id);
    }
  }

  /** One step of a registered queue that refuses nothing. */
  lemma {:induction false} TakesStep<Ev>(s: State<Ev>, queueSize: nat, a: Action<Ev>, id: nat, since: seq<Ev>)
    requires Enabled(s, a) && PlacesOk(s) && ProducerOk(s) && !Refused(s, queueSize, a, id)
    requires id in Next(s, queueSize, a).current.Values
    requires id in s.current.Values ==> id < |s.chans| && s.chans[id].accepted + Pending(s, id) == since
    requires id >= |s.chans| ==> since == []
    ensures var s' := Next(s, queueSize, a);
            && id < |s'.chans|
            && s'.chans[id].accepted + Pending(s', id)
               == since + (if a.EmitSnapshot? && id < |s.chans| then [a.ev] else [])
  {
    if a.StartWorkers? {
      RegisterIds(a.names, |s.chans|);
    } else {
      assert id in s.current.Values;
      if a == TrySend(id) {
        OfferStep(s, queueSize, id);
      } else {
        OtherSteps(s, queueSize, a, id);
      }
    }
  }

  /** A registered queue none of whose offers was refused has taken exactly the events emitted since
      it was created, in order, up to the one being fanned out. */
  lemma {:induction false} UnrefusedTakesAll<Ev>(queueSize: nat, acts: seq<Action<Ev>>, id: nat)
    requires Run(queueSize, acts).Some? && id in Run(queueSize, acts).value.current.Values
    requires Refusals(queueSize, acts, id) == 0
    ensures var s := Run(queueSize, acts).value;
            id < |s.chans| && s.chans[id].accepted + Pending(s, id) == EmittedSince(queueSize, acts, id)
  {
    if acts == [] {
    } else {
      var before, a := acts[..|acts| - 1], acts[|acts| - 1];
      var s := Run(queueSize, before).value;
      RunInv(queueSize, before);
      if id in s.current.Values {
        UnrefusedTakesAll(queueSize, before, id);
      }
      if id >= |s.chans| {
        NoneBefore(queueSize, before, id);
      }
      hide Next, Enabled, PlacesOk, ProducerOk, ChansOk, Refused, Pending;
      TakesStep(s, queueSize, a, id, EmittedSince(queueSize, before, id));
    }
  }

  // ---------------------------------------------------------------- reload

  /** Every queue not yet closed can still be found by whoever has to close it, and the shutdown
      goroutine has taken none before the context is cancelled. */
  ghost predicate Findable<Ev>(s: State<Ev>) {
    && (forall id :: 0 <= id < |s.chans| && !s.chans[id].closed ==> Open(s, id))
    && (s.cancelled || s.closer.Running?)
  }

  /** The map entry of a name is the queue of its last occurrence. */
  lemma {:induction false} LastRegistered(names: seq<Name>, first: nat, i: nat)
    requires i < |names| && forall j :: i < j < |names| ==> names[j] != names[i]
    ensures names[i] in Register(names, first) && Register(names, first)[names[i]] == first + i
  {
    if i < |names| - 1 {
      LastRegistered(names[..|names| - 1], first, i);
    }
  }

  lemma {:induction false} StepFindable<Ev>(s: State<Ev>, queueSize: nat, a: Action<Ev>)
    requires PlacesOk(s) && Findable(s) && Enabled(s, a) && (a.StartWorkers? ==> NoDup(a.names))
    ensures Findable(Next(s, queueSize, a))
  {
    var s' := Next(s, queueSize, a);
    forall id | 0 <= id < |s'.chans| && !s'.chans[id].closed
      ensures Open(s', id)
    {
      if id < |s.chans| {
        assert Open(s, id);
      } else {
        LastRegistered(a.names, |s.chans|, id - |s.chans|);
      }
    }
  }

  lemma {:induction false} RunFindable<Ev>(queueSize: nat, acts: seq<Action<Ev>>)
    requires Run(queueSize, acts).Some? && NamesDistinct(acts)
    ensures Findable(Run(queueSize, acts).value)
  {
    if acts == [] {
    } else {
      var before, a := acts[..|acts| - 1], acts[|acts| - 1];
      assert NamesDistinct(before) by {
        assert forall i :: 0 <= i < |before| ==> before[i] == acts[i];
      }
      hide Next, Enabled, ChansOk, PlacesOk, ProducerOk, Findable;
      RunFindable(queueSize, before);
      RunInv(queueSize, before);
      StepFindable(Run(queueSize, before).value, queueSize, a);
    }
  }

  /** Without cancellation, when the reload stops waiting for the workers every queue ever created
      has been closed exactly once, and everything it accepted has been handed to its client, once
      and in order. */
  lemma {:induction false} ReloadDrains<Ev>(queueSize: nat, acts: seq<Action<Ev>>, id: nat)
    requires Run(queueSize, acts).Some?
    requires var s := Run(queueSize, acts).value;
             Enabled(s, WaitReturns(Reloader)) && !s.cancelled && id < |s.chans|
    ensures var c := Run(queueSize, acts).value.chans[id];
            c.closes == 1 && c.consumed == c.accepted
  {
    RunInv(queueSize, acts);
    var s := Run(queueSize, acts).value;
    assert ChanOk(s.chans[id], queueSize, OfferedSoFar(s, id), Open(s, id), s.cancelled);
  }

  /** What a worker still has to do once its queue takes nothing more: each waiting event is taken
      and handed over, and then it returns. */
  function Left<Ev>(c: Chan<Ev>): nat {
    if c.done then 0 else 2 * |c.buf| + |Hand(c)| + 1
  }

  function WorkLeft<Ev>(chans: seq<Chan<Ev>>): nat {
    if chans == [] then 0 else WorkLeft(chans[..|chans| - 1]) + Left(chans[|chans| - 1])
  }

  predicate WorkerStep<Ev>(a: Action<Ev>) {
    a.Receive? || a.HandOver? || a.SeeClosed? || a.SeeCancelled?
  }

  function WorkerSteps<Ev>(acts: seq<Action<Ev>>): nat {
    if acts == [] then 0 else
    WorkerSteps(acts[..|acts| - 1]) + (if WorkerStep(acts[|acts| - 1]) then 1 else 0)
  }

  /** The reload has closed every queue and waits. */
  ghost predicate Waiting<Ev>(s: State<Ev>) {
    && s.reload == Closing({})
    && forall id :: 0 <= id < |s.chans| ==> s.chans[id].closed && (s.chans[id].done ==> s.chans[id].inHand.None?)
  }

  lemma {:induction false} WorkLeftUpdate<Ev>(chans: seq<Chan<Ev>>, id: nat, c: Chan<Ev>)
    requires id < |chans|
    ensures WorkLeft(chans[id := c]) + Left(chans[id]) == WorkLeft(chans) + Left(c)
  {
    var n := |chans| - 1;
    if id == n {
      assert chans[id := c][..n] == chans[..n];
    } else {
      WorkLeftUpdate(chans[..n], id, c);
      assert chans[id := c][..n] == chans[..n][id := c];
    }
  }

  lemma {:induction false} AllDone<Ev>(chans: seq<Chan<Ev>>)
    ensures WorkLeft(chans) == 0 <==> forall id :: 0 <= id < |chans| ==> chans[id].done
  {
    if chans == [] {
    } else {
      AllDone(chans[..|chans| - 1]);
    }
  }

  /** A closed queue only shrinks, and every step of its worker takes something off it. */
  lemma {:induction false} LeftShrinks<Ev>(s: State<Ev>, queueSize: nat, a: Action<Ev>)
    requires Waiting(s) && Enabled(s, a) && (WorkerStep(a) || a.TrySend? || a.CloseNext?)
    ensures Left(Next(s, queueSize, a).chans[a.id]) + (if WorkerStep(a) then 1 else 0) <= Left(s.chans[a.id])
    ensures Next(s, queueSize, a).chans == s.chans[a.id := Next(s, queueSize, a).chans[a.id]]
  {
  }

  lemma {:induction false} StillWaiting<Ev>(s: State<Ev>, queueSize: nat, a: Action<Ev>)
    requires Waiting(s) && Enabled(s, a) && a != WaitReturns(Reloader)
    ensures Waiting(Next(s, queueSize, a))
    ensures !WorkerStep(a) && !a.TrySend? && !a.CloseNext? ==> Next(s, queueSize, a).chans == s.chans
  {
  }

  /** While the reload waits, no step adds work to any worker, and each step of a worker takes at
      least one unit off. */
  lemma {:induction false} WaitingStep<Ev>(s: State<Ev>, queueSize: nat, a: Action<Ev>)
    requires Waiting(s) && Enabled(s, a) && a != WaitReturns(Reloader)
    ensures Waiting(Next(s, queueSize, a))
    ensures WorkLeft(Next(s, queueSize, a).chans) + (if WorkerStep(a) then 1 else 0) <= WorkLeft(s.chans)
  {
    StillWaiting(s, queueSize, a);
    if WorkerStep(a) || a.TrySend? || a.CloseNext? {
      LeftShrinks(s, queueSize, a);
      hide Next, Waiting;
      WorkLeftUpdate(s.chans, a.id, Next(s, queueSize, a).chans[a.id]);
    }
  }

  predicate CanMove<Ev>(s: State<Ev>, id: nat) {
    Enabled(s, Receive(id)) || Enabled(s, HandOver(id)) || Enabled(s, SeeClosed(id))
  }

  lemma {:induction false} ReloadWaits<Ev>(queueSize: nat, acts: seq<Action<Ev>>)
    requires Run(queueSize, acts).Some? && NamesDistinct(acts)
    requires Run(queueSize, acts).value.reload == Closing({}) && !Run(queueSize, acts).value.cancelled
    ensures Waiting(Run(queueSize, acts).value)
  {
    RunInv(queueSize, acts);
    RunFindable(queueSize, acts);
    var s := Run(queueSize, acts).value;
    forall id | 0 <= id < |s.chans|
      ensures s.chans[id].closed && (s.chans[id].done ==> s.chans[id].inHand.None?)
    {
      assert ChanOk(s.chans[id], queueSize, OfferedSoFar(s, id), Open(s, id), s.cancelled);
      assert !Open(s, id);
    }
  }

  lemma {:induction false} WaitingRun<Ev>(s: State<Ev>, queueSize: nat, more: seq<Action<Ev>>)
    requires Waiting(s) && RunFrom(s, queueSize, more).Some? && WaitReturns(Reloader) !in more
    ensures Waiting(RunFrom(s, queueSize, more).value)
    ensures WorkLeft(RunFrom(s, queueSize, more).value.chans) + WorkerSteps(more) <= WorkLeft(s.chans)
  {
    if more == [] {
    } else {
      hide Next, Enabled, Waiting, WorkerStep;
      var before := more[..|more| - 1];
      WaitingRun(s, queueSize, before);
      WaitingStep(RunFrom(s, queueSize, before).value, queueSize, more[|more| - 1]);
    }
  }

  /** With distinct names, a reload that has closed what it took waits for at most `WorkLeft` worker
      steps: whatever the other goroutines do, every worker step leaves fewer, every worker that has
      not returned can take one, and exactly when none remains the wait returns. */
  lemma {:induction false} ReloadReturns<Ev>(queueSize: nat, acts: seq<Action<Ev>>, more: seq<Action<Ev>>)
    requires Run(queueSize, acts).Some? && NamesDistinct(acts)
    requires Run(queueSize, acts).value.reload == Closing({}) && !Run(queueSize, acts).value.cancelled
    requires RunFrom(Run(queueSize, acts).value, queueSize, more).Some? && WaitReturns(Reloader) !in more
    ensures var s := Run(queueSize, acts).value;
            var t := RunFrom(s, queueSize, more).value;
            && WorkLeft(t.chans) + WorkerSteps(more) <= WorkLeft(s.chans)
            && (Enabled(t, WaitReturns(Reloader)) <==> WorkLeft(t.chans) == 0)
            && forall id :: 0 <= id < |t.chans| && !t.chans[id].done ==> CanMove(t, id)
  {
    var s := Run(queueSize, acts).value;
    ReloadWaits(queueSize, acts);
    WaitingRun(s, queueSize, more);
    var t := RunFrom(s, queueSize, more).value;
    AllDone(t.chans);
  }

  /** The reloading goroutine itself gets there: while queues it took remain, it can close the next,
      and then one fewer remains. */
  lemma {:induction false} ClosingProceeds<Ev>(queueSize: nat, acts: seq<Action<Ev>>, id: nat)
    requires Run(queueSize, acts).Some?
    requires Run(queueSize, acts).value.reload.Closing? && id in Run(queueSize, acts).value.reload.todo
    ensures var s := Run(queueSize, acts).value;
            && Enabled(s, CloseNext(Reloader, id))
            && Next(s, queueSize, CloseNext(Reloader, id)).reload == Closing(s.reload.todo - {id})
  {
    hide Run;
    RunInv(queueSize, acts);
    assert TakenBy(Run(queueSize, acts).value, Reloader, id);
    assert Open(Run(queueSize, acts).value, id);
  }

  lemma {:induction false} ClosedStep<Ev>(s: State<Ev>, queueSize: nat, a: Action<Ev>, id: nat)
    requires Enabled(s, a) && id < |s.chans| && s.chans[id].closed
    ensures var c, c' := s.chans[id], Next(s, queueSize, a).chans[id];
            c'.closed && c'.accepted == c.accepted && c'.offers - c.offers == c'.drops - c.drops
  {
  }

  /** A closed queue takes nothing more, whoever still holds it in an old snapshot: every later
      offer is a counted drop. */
  lemma {:induction false} ClosedIsFinal<Ev>(queueSize: nat, acts: seq<Action<Ev>>, k: nat, id: nat)
    requires k <= |acts| && Run(queueSize, acts[..k]).Some? && Run(queueSize, acts).Some?
    requires id < |Run(queueSize, acts[..k]).value.chans| && Run(queueSize, acts[..k]).value.chans[id].closed
    ensures id < |Run(queueSize, acts).value.chans|
    ensures var c, c' := Run(queueSize, acts[..k]).value.chans[id], Run(queueSize, acts).value.chans[id];
            c'.closed && c'.accepted == c.accepted && c'.offers - c.offers == c'.drops - c.drops
  {
    if k < |acts| {
      var before := acts[..|acts| - 1];
      assert before[..k] == acts[..k];
      ClosedIsFinal(queueSize, before, k, id);
      ClosedStep(Run(queueSize, before).value, queueSize, acts[|acts| - 1], id);
    } else {
      assert acts[..k] == acts;
    }
  }

  // ---------------------------------------------------------------- a name used twice

  /** A queue nobody can close any more while its worker still runs. */
  ghost predicate Orphan<Ev>(s: State<Ev>, id: nat) {
    && id < |s.chans| && !s.chans[id].closed && !s.chans[id].done
    && !Open(s, id) && !s.cancelled
  }

  /** Only its own name leads to a queue. */
  lemma {:induction false} RegisterBelow(names: seq<Name>, first: nat, i: nat)
    requires i < |names|
    ensures forall n :: n in Register(names, first) && Register(names, first)[n] == first + i ==> n == names[i]
  {
    if i < |names| - 1 {
      RegisterBelow(names[..|names| - 1], first, i);
    } else {
      RegisterIds(names[..|names| - 1], first);
    }
  }

  /** The later of two equal names takes the map entry. */
  lemma {:induction false} RegisterTwice(names: seq<Name>, first: nat, i: nat, j: nat)
    requires i < j < |names| && names[i] == names[j]
    ensures first + i !in Register(names, first).Values
  {
    var m := Register(names, first);
    if j < |names| - 1 {
      RegisterTwice(names[..|names| - 1], first, i, j);
    } else {
      RegisterIds(names[..|names| - 1], first);
      RegisterBelow(names[..|names| - 1], first, i);
    }
  }

  lemma {:induction false} OrphanStays<Ev>(s: State<Ev>, queueSize: nat, a: Action<Ev>, id: nat)
    requires Inv(s, queueSize) && Orphan(s, id) && Enabled(s, a) && !a.Cancel?
    ensures Orphan(Next(s, queueSize, a), id) && !a.WaitReturns?
  {
    if a.StartWorkers? {
      RegisterIds(a.names, |s.chans|);
    }
  }

  /** A name used twice in one start leaves a queue that no reload can find. */
  lemma {:induction false} TwiceOrphans<Ev>(s: State<Ev>, queueSize: nat, names: seq<Name>, i: nat, j: nat)
    requires Inv(s, queueSize) && Enabled(s, StartWorkers(names)) && !s.cancelled
    requires i < j < |names| && names[i] == names[j]
    ensures Orphan(Next(s, queueSize, StartWorkers(names)), |s.chans| + i)
  {
    RegisterTwice(names, |s.chans|, i, j);
    assert !Open(s, |s.chans| + i);
  }

  ghost predicate NeverCancelled<Ev>(acts: seq<Action<Ev>>) {
    forall k :: 0 <= k < |acts| ==> !acts[k].Cancel?
  }

  lemma {:induction false} NotCancelled<Ev>(queueSize: nat, acts: seq<Action<Ev>>)
    requires Run(queueSize, acts).Some? && NeverCancelled(acts)
    ensures !Run(queueSize, acts).value.cancelled
  {
    if acts == [] {
    } else {
      NotCancelled(queueSize, acts[..|acts| - 1]);
      assert !acts[|acts| - 1].Cancel?;
    }
  }

  lemma {:induction false} OrphanForever<Ev>(queueSize: nat, acts: seq<Action<Ev>>, k: nat, i: nat, j: nat)
    requires Run(queueSize, acts).Some? && NeverCancelled(acts)
    requires k < |acts| && acts[k].StartWorkers? && i < j < |acts[k].names| && acts[k].names[i] == acts[k].names[j]
    ensures exists id :: Orphan(Run(queueSize, acts).value, id)
    ensures k < |acts| - 1 ==> !acts[|acts| - 1].WaitReturns?
  {
    var before, a := acts[..|acts| - 1], acts[|acts| - 1];
    assert NeverCancelled(before) && !a.Cancel?;
    var s := Run(queueSize, before).value;
    hide Next, Enabled, Inv, Orphan;
    RunInv(queueSize, before);
    if k == |acts| - 1 {
      NotCancelled(queueSize, before);
      TwiceOrphans(s, queueSize, a.names, i, j);
    } else {
      OrphanForever(queueSize, before, k, i, j);
      var id :| Orphan(s, id);
      OrphanStays(s, queueSize, a, id);
    }
  }

  /** With a name used twice, no later wait for the workers ever returns unless the context is
      cancelled: with `ReloadReturns`, distinct names are exactly what the wait needs. */
  lemma {:induction false} DuplicateHangs<Ev>(queueSize: nat, acts: seq<Action<Ev>>, k: nat, m: nat)
    requires Run(queueSize, acts).Some? && NeverCancelled(acts)
    requires k < m < |acts| && acts[k].StartWorkers? && !NoDup(acts[k].names)
    ensures !acts[m].WaitReturns?
    decreases |acts|
  {
    if m < |acts| - 1 {
      var before := acts[..|acts| - 1];
      assert NeverCancelled(before) by {
        assert forall n :: 0 <= n < |before| ==> before[n] == acts[n];
      }
      DuplicateHangs(queueSize, before, k, m);
    } else {
      var i, j :| 0 <= i < j < |acts[k].names| && acts[k].names[i] == acts[k].names[j];
      OrphanForever(queueSize, acts, k, i, j);
    }
  }

  /** Once the context is cancelled, worker i returns, whatever waits in its queue, as soon as its
      client call does. */
  lemma {:induction false} CancelFreesOne<Ev>(s: State<Ev>, queueSize: nat, i: nat) returns (steps: seq<Action<Ev>>)
    requires s.cancelled && i < |s.chans|
    ensures |steps| <= 2 && forall k :: 0 <= k < |steps| ==> steps[k] in {HandOver(i), SeeCancelled(i)}
    ensures RunFrom(s, queueSize, steps).Some?
    ensures var s' := RunFrom(s, queueSize, steps).value;
            && s'.cancelled && s'.reload == s.reload && s'.closer == s.closer && |s'.chans| == |s.chans|
            && s'.chans[i].done && forall id :: 0 <= id < |s.chans| && id != i ==> s'.chans[id] == s.chans[id]
  {
    var c := s.chans[i];
    steps := if c.done && c.inHand.None? then []
             else if c.done then [HandOver(i)]
             else if c.inHand.None? then [SeeCancelled(i)]
             else [HandOver(i), SeeCancelled(i)];
    assert RunFrom(s, queueSize, []) == Some(s);
    if |steps| > 0 {
      assert steps[..1] == [steps[0]] && steps[..0] == [];
      assert RunFrom(s, queueSize, [steps[0]]) == Some(Next(s, queueSize, steps[0]));
    }
  }

  lemma {:induction false} RunOn<Ev>(s: State<Ev>, queueSize: nat, a: seq<Action<Ev>>, b: seq<Action<Ev>>)
    requires RunFrom(s, queueSize, a).Some?
    ensures RunFrom(s, queueSize, a + b) == RunFrom(RunFrom(s, queueSize, a).value, queueSize, b)
  {
    hide Next, Enabled;
    if b == [] {
      assert a + b == a;
    } else {
      RunOn(s, queueSize, a, b[..|b| - 1]);
      assert (a + b)[..|a + b| - 1] == a + b[..|b| - 1];
    }
  }

  /** A client call that returns, or a worker that leaves because of the cancellation. */
  predicate Leaving<Ev>(a: Action<Ev>) {
    a.HandOver? || a.SeeCancelled?
  }

  lemma {:induction false} CancelFrees<Ev>(s: State<Ev>, queueSize: nat, n: nat) returns (steps: seq<Action<Ev>>)
    requires s.cancelled && n <= |s.chans|
    ensures |steps| <= 2 * n && forall k :: 0 <= k < |steps| ==> Leaving(steps[k])
    ensures RunFrom(s, queueSize, steps).Some?
    ensures var s' := RunFrom(s, queueSize, steps).value;
            && s'.cancelled && s'.reload == s.reload && s'.closer == s.closer && |s'.chans| == |s.chans|
            && forall id :: 0 <= id < n ==> s'.chans[id].done
  {
    hide Next, Enabled;
    if n == 0 {
      steps := [];
    } else {
      var first := CancelFrees(s, queueSize, n - 1);
      var last := CancelFreesOne(RunFrom(s, queueSize, first).value, queueSize, n - 1);
      RunOn(s, queueSize, first, last);
      steps := first + last;
    }
  }

  /** Once the context is cancelled and the queues taken are closed, the workers can all return at
      once, each after at most the client call it is in, repeated names or not, and then the wait does. */
  lemma {:induction false} ShutdownReturns<Ev>(queueSize: nat, acts: seq<Action<Ev>>, who: Who)
    returns (steps: seq<Action<Ev>>)
    requires Run(queueSize, acts).Some?
    requires Run(queueSize, acts).value.cancelled && ControlOf(Run(queueSize, acts).value, who) == Closing({})
    ensures |steps| <= 2 * |Run(queueSize, acts).value.chans| && forall k :: 0 <= k < |steps| ==> Leaving(steps[k])
    ensures Run(queueSize, acts + steps).Some? && Enabled(Run(queueSize, acts + steps).value, WaitReturns(who))
  {
    var s := Run(queueSize, acts).value;
    steps := CancelFrees(s, queueSize, |s.chans|);
    RunOn(Init(), queueSize, acts, steps);
    hide RunFrom, Next, Leaving;
  }

  // ---------------------------------------------------------------- the code behind the steps

  datatype Verdict<Ev> = Replaced(ev: Ev) | Kept | Failed

  /** The event after the synchronous processors, each given what the one before it left. */
  function Processed<Ev>(ev: Ev, procs: seq<Ev -> Verdict<Ev>>): Ev {
    if procs == [] then ev else
    var before := Processed(ev, procs[..|procs| - 1]);
    var v := procs[|procs| - 1](before);
    if v.Replaced? then v.ev else before
  }

  /** The first processor sees the event itself; the others, and the queues, see its replacement if it
      returned one, and the event again if it returned none or failed. */
  lemma {:induction false} ProcessorsInOrder<Ev>(ev: Ev, first: Ev -> Verdict<Ev>, others: seq<Ev -> Verdict<Ev>>)
    ensures Processed(ev, []) == ev
    ensures first(ev).Replaced? ==> Processed(ev, [first] + others) == Processed(first(ev).ev, others)
    ensures first(ev).Kept? || first(ev).Failed? ==> Processed(ev, [first] + others) == Processed(ev, others)
  {
    var procs := [first] + others;
    if others == [] {
      assert procs[..0] == [] && procs[0] == first;
    } else {
      var n := |others| - 1;
      ProcessorsInOrder(ev, first, others[..n]);
      assert procs[..|procs| - 1] == [first] + others[..n];
    }
  }

  /** One offer of the event to each of these queues. */
  function OfferedAll<Ev>(chans: seq<Chan<Ev>>, ids: set<nat>, ev: Ev, queueSize: nat): seq<Chan<Ev>> {
    seq(|chans|, id requires 0 <= id < |chans| =>
      if id in ids then Offered(chans[id], ev, queueSize) else chans[id])
  }

  class Pipeline<Ev> {
    const queueSize: nat
    var chans: seq<Chan<Ev>>
    var queues: map<Name, nat>

    ghost predicate Valid()
      reads this
    {
      forall n :: n in queues ==> queues[n] < |chans|
    }

    constructor (requested: int)
      ensures Valid() && queues == map[] && chans == []
      ensures queueSize == if requested <= 0 then 256 else requested
    {
      queueSize, chans, queues := if requested <= 0 then 256 else requested, [], map[];
    }

    method Process(ev: Ev, procs: seq<Ev -> Verdict<Ev>>) returns (cur: Ev)
      ensures cur == Processed(ev, procs)
    {
      cur := ev;
      for i := 0 to |procs|
        invariant cur == Processed(ev, procs[..i])
      {
        assert procs[..i + 1][..i] == procs[..i];
        var v := procs[i](cur);
        if v.Replaced? {
          cur := v.ev;
        }
      }
      assert procs[..|procs|] == procs;
    }

    method TrySend(id: nat, ev: Ev) returns (ok: bool)
      requires id < |chans|
      modifies `chans
      ensures chans == old(chans)[id := Offered(old(chans[id]), ev, queueSize)]
      ensures ok <==> chans[id].accepted == old(chans[id]).accepted + [ev]
    {
      var c := chans[id];
      ok := !c.closed && |c.buf| < queueSize;
      if ok {
        chans := chans[id := c.(offers := c.offers + 1, buf := c.buf + [ev], accepted := c.accepted + [ev])];
      } else {
        chans := chans[id := c.(offers := c.offers + 1, drops := c.drops + 1)];
      }
    }

    /** Undisturbed, one event is offered once to every mapped queue and to no other. */
    method Emit(ev: Ev, procs: seq<Ev -> Verdict<Ev>>)
      requires Valid()
      modifies `chans
      ensures Valid() && chans == OfferedAll(old(chans), queues.Values, Processed(ev, procs), queueSize)
    {
      var cur := Process(ev, procs);
      var todo := queues.Values;
      while todo != {}
        invariant todo <= queues.Values
        invariant chans == OfferedAll(old(chans), queues.Values - todo, cur, queueSize)
      {
        var id :| id in todo;
        todo := todo - {id};
        var _ := TrySend(id, cur);
      }
    }

    /** Undisturbed, exactly the mapped queues are closed, once each, and the map is left empty. */
    method CloseQueues()
      requires Valid()
      modifies `chans, `queues
      ensures Valid() && queues == map[] && |chans| == |old(chans)|
      ensures forall id :: 0 <= id < |chans| ==>
                chans[id] == if id in old(queues).Values
                             then old(chans[id]).(closed := true, closes := old(chans[id]).closes + 1)
                             else old(chans[id])
    {
      var todo := queues.Values;
      queues := map[];
      while todo != {}
        invariant |chans| == |old(chans)| && todo <= old(queues).Values && queues == map[]
        invariant forall id :: 0 <= id < |chans| ==>
                    chans[id] == if id in old(queues).Values - todo
                                 then old(chans[id]).(closed := true, closes := old(chans[id]).closes + 1)
                                 else old(chans[id])
      {
        var id :| id in todo;
        todo := todo - {id};
        chans := chans[id := chans[id].(closed := true, closes := chans[id].closes + 1)];
      }
    }

    /** One new queue per name, in order; a later queue of the same name takes the earlier one's entry. */
    method StartWorkers(names: seq<Name>)
      requires Valid()
      modifies `chans, `queues
      ensures Valid() && chans == old(chans) + seq(|names|, _ => NewChan())
      ensures queues == old(queues) + Register(names, |old(chans)|)
    {
      for i := 0 to |names|
        invariant Valid() && chans == old(chans) + seq(i, _ => NewChan())
        invariant queues == old(queues) + Register(names[..i], |old(chans)|)
      {
        assert names[..i + 1][..i] == names[..i];
        queues := queues[names[i] := |chans|];
        chans := chans + [NewChan()];
      }
      assert names[..|names|] == names;
    }
  }

  /** The steps of a fan-out up to the k-th queue of some order. */
  function FanOut<Ev>(ev: Ev, order: seq<nat>, k: nat): seq<Action<Ev>>
    requires k <= |order|
  {
    if k == 0 then [EmitSnapshot(ev)] else FanOut(ev, order, k - 1) + [TrySend(order[k - 1])]
  }

  ghost function Firsts(order: seq<nat>, k: nat): set<nat>
    requires k <= |order|
  {
    set i | 0 <= i < k :: order[i]
  }

  /** The queues and the producer once the first k of some order have been offered the event. */
  ghost function Halfway<Ev>(s: State<Ev>, queueSize: nat, ev: Ev, done: set<nat>): State<Ev> {
    s.(emitted := s.emitted + [ev], producer := Offering(ev, s.current.Values - done),
       chans := OfferedAll(s.chans, done, ev, queueSize))
  }

  lemma {:induction false} OfferedOneMore<Ev>(chans: seq<Chan<Ev>>, done: set<nat>, id: nat, ev: Ev, queueSize: nat)
    requires id < |chans| && id !in done
    ensures OfferedAll(chans, done, ev, queueSize)[id := Offered(chans[id], ev, queueSize)]
            == OfferedAll(chans, done + {id}, ev, queueSize)
  {
    hide Offered;
  }

  lemma {:induction false} HalfwayBegins<Ev>(s: State<Ev>, queueSize: nat, ev: Ev)
    requires s.producer.Idle?
    ensures RunFrom(s, queueSize, [EmitSnapshot(ev)]) == Some(Halfway(s, queueSize, ev, {}))
  {
    var acts: seq<Action<Ev>> := [EmitSnapshot(ev)];
    assert acts[..0] == [] && RunFrom(s, queueSize, acts[..0]) == Some(s);
    assert OfferedAll(s.chans, {}, ev, queueSize) == s.chans;
    assert s.current.Values - {} == s.current.Values;
  }

  lemma {:induction false} HalfwayNext<Ev>(s: State<Ev>, queueSize: nat, ev: Ev, done: set<nat>, id: nat)
    requires id in s.current.Values && id < |s.chans| && id !in done
    ensures var h := Halfway(s, queueSize, ev, done);
            Enabled(h, TrySend(id)) && Next(h, queueSize, TrySend(id)) == Halfway(s, queueSize, ev, done + {id})
  {
    OfferedOneMore(s.chans, done, id, ev, queueSize);
    assert s.current.Values - done - {id} == s.current.Values - (done + {id});
    hide Offered;
  }

  lemma {:induction false} HalfwayEnds<Ev>(s: State<Ev>, queueSize: nat, ev: Ev)
    requires s.producer.Idle?
    ensures var h := Halfway(s, queueSize, ev, s.current.Values);
            && Enabled(h, EmitReturn)
            && Next(h, queueSize, EmitReturn)
               == s.(emitted := s.emitted + [ev], chans := OfferedAll(s.chans, s.current.Values, ev, queueSize))
  {
  }

  lemma {:induction false} FanOutRuns<Ev>(s: State<Ev>, queueSize: nat, ev: Ev, order: seq<nat>, k: nat)
    requires PlacesOk(s) && s.producer.Idle? && NoDup(order) && k <= |order|
    requires forall id :: id in order ==> id in s.current.Values
    ensures RunFrom(s, queueSize, FanOut(ev, order, k)) == Some(Halfway(s, queueSize, ev, Firsts(order, k)))
  {
    hide Next, Enabled, Halfway;
    if k == 0 {
      HalfwayBegins(s, queueSize, ev);
      assert Firsts(order, 0) == {};
    } else {
      FanOutRuns(s, queueSize, ev, order, k - 1);
      var acts: seq<Action<Ev>> := FanOut(ev, order, k);
      assert acts[..|acts| - 1] == FanOut(ev, order, k - 1);
      var id := order[k - 1];
      assert id in order && Open(s, id);
      assert Firsts(order, k) == Firsts(order, k - 1) + {id} && id !in Firsts(order, k - 1);
      HalfwayNext(s, queueSize, ev, Firsts(order, k - 1), id);
    }
  }

  /** The steps of one event, undisturbed and in whatever order the map is walked, do exactly what
      `Pipeline.Emit` does to the queues. */
  lemma {:induction false} EmitIsRun<Ev>(s: State<Ev>, queueSize: nat, ev: Ev, order: seq<nat>)
    requires PlacesOk(s) && s.producer.Idle? && NoDup(order)
    requires forall id :: id in order <==> id in s.current.Values
    ensures RunFrom(s, queueSize, FanOut(ev, order, |order|) + [EmitReturn])
            == Some(s.(emitted := s.emitted + [ev], chans := OfferedAll(s.chans, s.current.Values, ev, queueSize)))
  {
    FanOutRuns(s, queueSize, ev, order, |order|);
    assert Firsts(order, |order|) == s.current.Values;
    var acts: seq<Action<Ev>> := FanOut(ev, order, |order|) + [EmitReturn];
    assert acts[..|acts| - 1] == FanOut(ev, order, |order|);
    HalfwayEnds(s, queueSize, ev);
    hide Next, Enabled, Halfway, PlacesOk;
  }
}
