/** The websocket hub: broadcasts fanned out to clients, slow ones evicted. */
module Hubs {
  import opened Base

  const SEND_QUEUE := 256

  /** One connection ever made: its send queue, and what its writer has taken from it. */
  datatype Client<M> = Client(
    buf: seq<M>,
    taken: seq<M>,
    closed: bool,
    closes: nat,    // history: how often the queue was closed
    first: nat,     // history: number of the first broadcast after registration
    next: nat)      // history: number of the first broadcast it was not sent

  /** A queue has been given every broadcast from registration on, without a gap, until its client
      was evicted or unregistered; it is closed exactly then, and once. */
  ghost predicate ClientOk<M>(c: Client<M>, registered: bool, broadcasts: seq<M>) {
    && c.first <= c.next <= |broadcasts|
    && c.taken + c.buf == broadcasts[c.first..c.next]
    && |c.buf| <= SEND_QUEUE
    && c.closed == !registered
    && c.closes == (if c.closed then 1 else 0)
    && (registered ==> c.next == |broadcasts|)
  }

  function Closed<M>(c: Client<M>): Client<M> {
    c.(closed := true, closes := c.closes + 1)
  }

  /** A registered client with room gets the message, one without is evicted. */
  function AfterBroadcast<M>(c: Client<M>, registered: bool, msg: M): Client<M> {
    if !registered then c
    else if |c.buf| < SEND_QUEUE then c.(buf := c.buf + [msg], next := c.next + 1)
    else Closed(c)
  }

  /** One broadcast keeps every client's slice gap-free, whether it gets the message or not. */
  lemma {:induction false} OneMore<M>(c: Client<M>, registered: bool, broadcasts: seq<M>, msg: M)
    requires ClientOk(c, registered, broadcasts)
    ensures ClientOk(AfterBroadcast(c, registered, msg), registered && |c.buf| < SEND_QUEUE, broadcasts + [msg])
  {
    assert (broadcasts + [msg])[c.first..c.next] == broadcasts[c.first..c.next];
    if registered {
      assert (broadcasts + [msg])[c.first..c.next + 1] == broadcasts[c.first..c.next] + [msg];
    }
  }

  lemma {:induction false} Registered<M>(c: Client<M>, broadcasts: seq<M>)
    requires ClientOk(c, true, broadcasts)
    ensures !c.closed
  {
  }

  // ---------------------------------------------------------------- runs

  /** What the hub's loop and the clients' writers react to, in whatever order it happens. Clients
      are numbered as they join. */
  datatype Event<M> = Join | Leave(c: nat) | Message(msg: M) | Written(c: nat)

  function Messages<M>(events: seq<Event<M>>): seq<M> {
    if events == [] then [] else
    var last := events[|events| - 1];
    Messages(events[..|events| - 1]) + (if last.Message? then [last.msg] else [])
  }

  function Joins<M>(events: seq<Event<M>>): nat {
    if events == [] then 0 else
    Joins(events[..|events| - 1]) + (if events[|events| - 1].Join? then 1 else 0)
  }

  /** How many messages wait for the client that joined at j when the p-th event is reached, if it
      is still there: one more per message, one less per message its writer takes. */
  function Backlog<M>(events: seq<Event<M>>, j: nat, p: nat): nat
    requires j < p <= |events|
  {
    if p == j + 1 then 0 else
    var before, last := Backlog(events, j, p - 1), events[p - 1];
    if last.Message? then before + 1
    else if last.Written? && last.c == Joins(events[..j]) && before > 0 then before - 1
    else before
  }

  /** The client that joined at j leaves at p, or a message at p finds its queue full. */
  predicate EndsAt<M>(events: seq<Event<M>>, j: nat, p: nat)
    requires j < p < |events|
  {
    || (events[p].Leave? && events[p].c == Joins(events[..j]))
    || (events[p].Message? && Backlog(events, j, p) >= 256)
  }

  /** Where the stay of the client that joined at j ends: the first such event, or the end of the run. */
  function EndFrom<M>(events: seq<Event<M>>, j: nat, p: nat): (e: nat)
    requires j < p <= |events|
    ensures p <= e <= |events|
    ensures forall q :: p <= q < e ==> !EndsAt(events, j, q)
    ensures e < |events| ==> EndsAt(events, j, e)
    decreases |events| - p
  {
    if p == |events| || EndsAt(events, j, p) then p else EndFrom(events, j, p + 1)
  }

  datatype State<M> = State(clients: set<nat>, all: seq<Client<M>>, broadcasts: seq<M>)

  function Empty<M>(): State<M> {
    State({}, [], [])
  }

  function Drained<M>(c: Client<M>): Client<M> {
    if c.buf == [] then c else c.(buf := c.buf[1..], taken := c.taken + [c.buf[0]])
  }

  function React<M>(s: State<M>, e: Event<M>): State<M> {
    match e
    case Join =>
      var n := |s.broadcasts|;
      s.(clients := s.clients + {|s.all|}, all := s.all + [Client([], [], false, 0, n, n)])
    case Leave(c) =>
      if c in s.clients && c < |s.all| then s.(clients := s.clients - {c}, all := s.all[c := Closed(s.all[c])]) else s
    case Message(msg) =>
      State(set i | i in s.clients && i < |s.all| && |s.all[i].buf| < SEND_QUEUE,
            seq(|s.all|, i requires 0 <= i < |s.all| => AfterBroadcast(s.all[i], i in s.clients, msg)),
            s.broadcasts + [msg])
    case Written(c) => if c < |s.all| then s.(all := s.all[c := Drained(s.all[c])]) else s
  }

  function ReactAll<M>(s: State<M>, events: seq<Event<M>>): State<M> {
    if events == [] then s else React(ReactAll(s, events[..|events| - 1]), events[|events| - 1])
  }

  /** The client that joined at j was given exactly the messages between joining and its end, and
      its queue was closed exactly if that end has come, and then once. */
  ghost predicate ServedFrom<M>(events: seq<Event<M>>, j: nat, s: State<M>)
    requires j < |events|
  {
    var c, e := Joins(events[..j]), EndFrom(events, j, j + 1);
    && c < |s.all| && s.all[c].first == |Messages(events[..j])|
    && s.all[c].taken + s.all[c].buf == Messages(events[j..e])
    && (c in s.clients <==> e == |events|)
    && s.all[c].closed == (e < |events|)
    && s.all[c].closes == (if e < |events| then 1 else 0)
  }

  ghost predicate Served<M>(events: seq<Event<M>>, s: State<M>) {
    && s.broadcasts == Messages(events) && |s.all| == Joins(events)
    && forall j :: 0 <= j < |events| && events[j].Join? ==> ServedFrom(events, j, s)
  }

  lemma {:induction false} Counts<M>(events: seq<Event<M>>)
    ensures ReactAll(Empty(), events).broadcasts == Messages(events)
    ensures |ReactAll(Empty(), events).all| == Joins(events)
  {
    if events == [] {
    } else {
      Counts(events[..|events| - 1]);
    }
  }

  /** The client during its stay: everything since joining is taken or waiting, in order. */
  ghost predicate Staying<M>(events: seq<Event<M>>, j: nat, n: nat, s: State<M>)
    requires j < n <= |events|
  {
    var c := Joins(events[..j]);
    && c in s.clients && c < |s.all| && !s.all[c].closed && s.all[c].closes == 0
    && s.all[c].first == |Messages(events[..j])|
    && |s.all[c].buf| == Backlog(events, j, n)
    && s.all[c].taken + s.all[c].buf == Messages(events[j..n])
  }

  /** The client after its stay: nothing it was given changes any more. */
  ghost predicate Left<M>(events: seq<Event<M>>, j: nat, e: nat, s: State<M>)
    requires j < e <= |events|
  {
    var c := Joins(events[..j]);
    && c !in s.clients && c < |s.all| && s.all[c].closed && s.all[c].closes == 1
    && s.all[c].first == |Messages(events[..j])|
    && s.all[c].taken + s.all[c].buf == Messages(events[j..e])
  }

  lemma {:induction false} StayNext<M>(events: seq<Event<M>>, j: nat, n: nat, s: State<M>)
    requires j < n < |events| && Staying(events, j, n, s)
    ensures if EndsAt(events, j, n) then Left(events, j, n, React(s, events[n]))
            else Staying(events, j, n + 1, React(s, events[n]))
  {
    assert events[j..n + 1][..n - j] == events[j..n];
    var c := Joins(events[..j]);
    assert s.all[c].buf != [] ==> s.all[c].taken + s.all[c].buf
                                  == (s.all[c].taken + [s.all[c].buf[0]]) + s.all[c].buf[1..];
  }

  lemma {:induction false} LeftNext<M>(events: seq<Event<M>>, j: nat, e: nat, s: State<M>, next: Event<M>)
    requires j < e <= |events| && Left(events, j, e, s)
    ensures Left(events, j, e, React(s, next))
  {
    var c := Joins(events[..j]);
    assert s.all[c].buf != [] ==> s.all[c].taken + s.all[c].buf
                                  == (s.all[c].taken + [s.all[c].buf[0]]) + s.all[c].buf[1..];
  }

  lemma {:induction false} StayBegins<M>(events: seq<Event<M>>, j: nat)
    requires j < |events| && events[j].Join?
    ensures Staying(events, j, j + 1, ReactAll(Empty(), events[..j + 1]))
  {
    Counts(events[..j]);
    assert events[..j + 1][..j] == events[..j];
    assert events[j..j + 1] == [events[j]] && Messages(events[j..j + 1]) == [];
  }

  lemma {:induction false} ServedUpTo<M>(events: seq<Event<M>>, j: nat, n: nat)
    requires j < n <= |events| && events[j].Join?
    ensures var s, e := ReactAll(Empty(), events[..n]), EndFrom(events, j, j + 1);
            if n <= e then Staying(events, j, n, s) else Left(events, j, e, s)
  {
    hide React, Staying, Left, EndsAt;
    if n == j + 1 {
      StayBegins(events, j);
    } else {
      assert events[..n][..n - 1] == events[..n - 1];
      ServedUpTo(events, j, n - 1);
      var s, e := ReactAll(Empty(), events[..n - 1]), EndFrom(events, j, j + 1);
      if n - 1 <= e {
        StayNext(events, j, n - 1, s);
      } else {
        LeftNext(events, j, e, s, events[n - 1]);
      }
    }
  }

  /** For every run from an empty hub: each client is given a gap-free slice of the messages, from
      its joining to the first message that finds its queue full, its leaving, or the end. */
  lemma {:induction false} EveryClientServed<M>(events: seq<Event<M>>)
    ensures Served(events, ReactAll(Empty(), events))
  {
    Counts(events);
    assert events[..|events|] == events;
    forall j | 0 <= j < |events| && events[j].Join?
      ensures ServedFrom(events, j, ReactAll(Empty(), events))
    {
      ServedUpTo(events, j, |events|);
    }
  }

  class Hub<M> {
    var clients: set<nat>         // registered, by connection number
    var all: seq<Client<M>>       // every connection ever registered
    var broadcasts: seq<M>        // history: every message the hub has processed

    ghost predicate Valid()
      reads this
    {
      && (forall c :: c in clients ==> c < |all|)
      && (forall i :: 0 <= i < |all| ==> ClientOk(all[i], i in clients, broadcasts))
    }

    constructor ()
      ensures Valid() && clients == {} && all == [] && broadcasts == []
    {
      clients, all, broadcasts := {}, [], [];
    }

    method Register() returns (c: nat)
      requires Valid()
      modifies `clients, `all
      ensures Valid() && c == |old(all)| && clients == old(clients) + {c}
      ensures all == old(all) + [Client([], [], false, 0, |broadcasts|, |broadcasts|)]
    {
      c := |all|;
      clients, all := clients + {c}, all + [Client([], [], false, 0, |broadcasts|, |broadcasts|)];
    }

    method CloseQueue(c: nat)
      requires c < |all| && !all[c].closed
      modifies `all
      ensures all == old(all)[c := Closed(old(all[c]))]
    {
      all := all[c := all[c].(closed := true, closes := all[c].closes + 1)];
    }

    /** Also called for a client that was evicted before: nothing happens then. */
    method Unregister(c: nat)
      requires Valid()
      modifies `clients, `all
      ensures Valid() && clients == old(clients) - {c} && |all| == |old(all)|
      ensures forall i :: 0 <= i < |all| ==>
                all[i] == if i == c && c in old(clients) then Closed(old(all[i])) else old(all[i])
    {
      if c in clients {
        clients := clients - {c};
        CloseQueue(c);
      }
    }

    /** A send that does not block; it would panic on a closed queue. */
    method TrySend(c: nat, msg: M) returns (ok: bool)
      requires c < |all| && !all[c].closed
      modifies `all
      ensures ok <==> |old(all[c]).buf| < SEND_QUEUE
      ensures all == if ok
                     then old(all)[c := old(all[c]).(buf := old(all[c]).buf + [msg], next := old(all[c]).next + 1)]
                     else old(all)
    {
      ok := |all[c].buf| < SEND_QUEUE;
      if ok {
        all := all[c := all[c].(buf := all[c].buf + [msg], next := all[c].next + 1)];
      }
    }

    /** Sends to every registered client, and evicts exactly those whose queue is full. */
    method Broadcast(msg: M)
      requires Valid()
      modifies this
      ensures Valid() && broadcasts == old(broadcasts) + [msg] && |all| == |old(all)|
      ensures forall i :: i in clients <==> i in old(clients) && |old(all[i]).buf| < SEND_QUEUE
      ensures forall i :: 0 <= i < |all| ==> all[i] == AfterBroadcast(old(all[i]), i in old(clients), msg)
    {
      hide ClientOk;
      var todo := clients;
      broadcasts := broadcasts + [msg];
      forall i | 0 <= i < |all| && i !in clients
        ensures ClientOk(all[i], false, broadcasts)
      {
        OneMore(all[i], false, old(broadcasts), msg);
        assert AfterBroadcast(all[i], false, msg) == all[i];
      }
      while todo != {}
        invariant broadcasts == old(broadcasts) + [msg] && |all| == |old(all)|
        invariant todo <= clients <= old(clients)
        invariant forall i :: i in clients <==> i in todo || (i in old(clients) && |old(all[i]).buf| < SEND_QUEUE)
        invariant forall i :: 0 <= i < |all| ==> all[i] == AfterBroadcast(old(all[i]), i in old(clients) - todo, msg)
        invariant forall i :: 0 <= i < |all| && i !in todo ==> ClientOk(all[i], i in clients, broadcasts)
      {
        var c :| c in todo;
        OneMore(all[c], true, old(broadcasts), msg);
        Registered(all[c], old(broadcasts));
        todo := todo - {c};
        var ok := TrySend(c, msg);
        if !ok {
          CloseQueue(c);
          clients := clients - {c};
        }
      }
    }

    /** A client's writer takes the next message. */
    method Take(c: nat) returns (msg: Option<M>)
      requires Valid() && c < |all|
      modifies `all
      ensures Valid() && |all| == |old(all)|
      ensures msg == if old(all[c]).buf == [] then None else Some(old(all[c]).buf[0])
      ensures all == old(all)[c := Drained(old(all[c]))]
    {
      if all[c].buf == [] {
        return None;
      }
      msg := Some(all[c].buf[0]);
      all := all[c := all[c].(buf := all[c].buf[1..], taken := all[c].taken + [all[c].buf[0]])];
    }

    ghost function Now(): State<M>
      reads this
    {
      State(clients, all, broadcasts)
    }

    /** For any run of a new hub: each client is given exactly the messages from its joining to the
        one that finds its queue full, its leaving, or the end; its queue is closed exactly then,
        once, and given nothing after. */
    method Run(events: seq<Event<M>>)
      requires Valid()
      modifies this
      ensures Valid() && Now() == ReactAll(old(Now()), events)
      ensures old(Now()) == Empty() ==> Served(events, Now())
    {
      hide ClientOk, Served;
      EveryClientServed(events);
      var i := 0;
      while i < |events|
        invariant 0 <= i <= |events|
        invariant Valid() && Now() == ReactAll(old(Now()), events[..i])
      {
        assert events[..i + 1][..i] == events[..i];
        ghost var before := Now();
        match events[i] {
          case Join => var _ := Register();
          case Leave(c) => Unregister(c);
          case Message(msg) => Broadcast(msg);
          case Written(c) =>
            if c < |all| {
              var _ := Take(c);
            }
        }
        assert clients == React(before, events[i]).clients;
        assert all == React(before, events[i]).all;
        i := i + 1;
      }
      assert events[..i] == events;
    }
  }
}
