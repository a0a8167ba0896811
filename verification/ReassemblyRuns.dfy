/** What holds over every stream of records: what is held, what is emitted, what expires. */
module ReassemblyRuns {
  import opened Base
  import opened ReassemblySpec
  import opened Fragments

  // ---------------------------------------------------------------- one step

  /** What a usable record can do: leave its entry open, add its own piece to it, or, with the
      piece that was missing, emit the write and close the entry. Other entries only go away. */
  lemma {:induction false} StepShape(s: State, cfg: Config, ev: SslEvent, c: Clock)
    requires Usable(ev)
    ensures var s' := Step(s, cfg, Record(ev, c));
            var k, e := KeyOf(ev), EntryFor(s.table, ev, c);
            && (forall l :: l in s'.table && l != k ==> l in s.table && s'.table[l] == s.table[l])
            && (k in s'.table ==> s'.table[k] == e
                                  || (ev.fragIdx < e.fragCnt && s'.table[k] == WithPiece(e, ev)))
            && (s'.emitted == s.emitted
                || (&& ev.fragIdx !in e.frags && ev.fragIdx < e.fragCnt
                    && |WithPiece(e, ev).frags| == e.fragCnt
                    && k !in s'.table
                    && s'.emitted == s.emitted + [CaptureOf(WithPiece(e, ev), ev)]))
  {
    hide EntryFor, CaptureOf, Expired, Held;
  }

  // ---------------------------------------------------------------- in-flight bound

  /** At least one piece is there and at least one is missing. */
  ghost predicate PartlyFilled(e: Entry) {
    e.frags.Keys <= Range(e.fragCnt) && 1 <= |e.frags| < e.fragCnt
  }

  /** Between records the pool is not overdrawn and every entry is partly filled. */
  ghost predicate InFlight(table: map<Key, Entry>, cap: nat) {
    && |Held(table)| <= cap
    && (forall k :: k in table ==> PartlyFilled(table[k]))
  }

  lemma {:induction false} PieceAdded(e: Entry, ev: SslEvent)
    requires ev.fragIdx !in e.frags
    ensures WithPiece(e, ev).frags.Keys == e.frags.Keys + {ev.fragIdx}
    ensures |WithPiece(e, ev).frags| == |e.frags| + 1
  {
    var frags' := WithPiece(e, ev).frags;
    assert frags'.Keys == e.frags.Keys + {ev.fragIdx};
    assert |frags'| == |frags'.Keys| && |e.frags| == |e.frags.Keys|;
  }

  lemma {:induction false} InFlightPut(t: map<Key, Entry>, k: Key, e: Entry, cap: nat)
    requires InFlight(t, cap) && PartlyFilled(e) && |Held(t[k := e])| <= cap
    ensures InFlight(t[k := e], cap)
  {
  }

  lemma {:induction false} UpdateTwice(t: map<Key, Entry>, k: Key, e: Entry, e': Entry)
    ensures t[k := e] - {k} == t - {k}
    ensures t[k := e][k := e'] == t[k := e']
    ensures t[k := e'] - {k} == t - {k}
  {
  }

  lemma {:induction false} InFlightAt(t: map<Key, Entry>, k: Key, cap: nat)
    requires InFlight(t, cap)
    ensures |Held(t)| <= cap
    ensures k in t ==> PartlyFilled(t[k])
  {
  }

  lemma {:induction false} SamePartly(e: Entry, e': Entry)
    requires PartlyFilled(e) && e'.frags == e.frags && e'.fragCnt == e.fragCnt
    ensures PartlyFilled(e')
  {
  }

  lemma {:induction false} StillPartly(e: Entry, ev: SslEvent)
    requires PartlyFilled(e) || e.frags == map[]
    requires ev.fragIdx !in e.frags && ev.fragIdx < e.fragCnt
    ensures WithPiece(e, ev).fragCnt == e.fragCnt && |WithPiece(e, ev).frags| == |e.frags| + 1 <= e.fragCnt
    ensures |WithPiece(e, ev).frags| != e.fragCnt ==> PartlyFilled(WithPiece(e, ev))
  {
    PieceAdded(e, ev);
    FullRange(WithPiece(e, ev).frags.Keys, e.fragCnt);
    assert |WithPiece(e, ev).frags| == |WithPiece(e, ev).frags.Keys|;
  }

  lemma {:induction false} HeldAtLeast(t: map<Key, Entry>, k: Key)
    requires k in t
    ensures |t[k].frags| <= |Held(t)|
  {
    HeldRemove(t, k);
  }

  lemma {:induction false} SweepInFlight(t: map<Key, Entry>, gone: set<Key>, cap: nat)
    requires InFlight(t, cap)
    ensures InFlight(t - gone, cap)
  {
    SubsetSize(Held(t - gone), Held(t));
  }

  lemma {:induction false} PlaceInFlight(t: map<Key, Entry>, cap: nat, ev: SslEvent, e: Entry)
    requires InFlight(t, cap) && Usable(ev)
    requires KeyOf(ev) in t ==> e.frags == t[KeyOf(ev)].frags && e.fragCnt == t[KeyOf(ev)].fragCnt
    requires KeyOf(ev) !in t ==> e.frags == map[] && e.fragCnt == ev.fragCnt
    ensures InFlight(Place(t[KeyOf(ev) := e], cap, ev).table, cap)
    ensures Place(t[KeyOf(ev) := e], cap, ev).out != [] ==> e.fragCnt <= cap
  {
    hide Held, InFlight, PartlyFilled, WithPiece;
    var k, t1, e' := KeyOf(ev), t[KeyOf(ev) := e], WithPiece(e, ev);
    UpdateTwice(t, k, e, e');
    HeldUpdate(t, k, e);
    HeldUpdate(t, k, e');
    HeldAtLeast(t1, k);
    SweepInFlight(t, {k}, cap);
    InFlightAt(t, k, cap);
    if k in t {
      SamePartly(t[k], e);
      InFlightPut(t, k, e, cap);
    }
    if ev.fragIdx !in e.frags && ev.fragIdx < e.fragCnt {
      StillPartly(e, ev);
      if |e'.frags| != e.fragCnt && |Held(t1)| < cap {
        InFlightPut(t, k, e', cap);
      }
    }
  }

  lemma {:induction false} StepInFlight(s: State, cfg: Config, input: Input)
    requires InFlight(s.table, cfg.cap)
    ensures InFlight(Step(s, cfg, input).table, cfg.cap)
  {
    if input.Record? && Usable(input.ev) {
      PlaceInFlight(s.table, cfg.cap, input.ev, EntryFor(s.table, input.ev, input.clock));
      SweepInFlight(Accept(s, cfg.cap, input.ev, input.clock).table,
                    Expired(Accept(s, cfg.cap, input.ev, input.clock).table, cfg.ttl, input.clock.now), cfg.cap);
    }
  }

  lemma {:induction false} EntriesBelowHeld(t: map<Key, Entry>)
    requires forall k :: k in t ==> |t[k].frags| >= 1
    ensures |t| <= |Held(t)|
  {
    if |t| > 0 {
      var k :| k in t;
      EntriesBelowHeld(t - {k});
      HeldRemove(t, k);
    }
  }

  /** On every stream every live entry is strictly between empty and complete, so a complete write
      never waits for another record, and the chunks in use fit in the pool. */
  lemma {:induction false} InFlightBound(t0: int, cfg: Config, ins: seq<Input>)
    ensures InFlight(Run(Init(t0), cfg, ins).table, cfg.cap)
  {
    if ins == [] {
      assert Held(Init(t0).table) == {};
    } else {
      InFlightBound(t0, cfg, ins[..|ins| - 1]);
      StepInFlight(Run(Init(t0), cfg, ins[..|ins| - 1]), cfg, ins[|ins| - 1]);
    }
  }

  /** Live entries <= chunks in use <= capacity. */
  lemma {:induction false} EntriesWithinPool(t0: int, cfg: Config, ins: seq<Input>)
    ensures var t := Run(Init(t0), cfg, ins).table; |t| <= |Held(t)| <= cfg.cap
  {
    InFlightBound(t0, cfg, ins);
    EntriesBelowHeld(Run(Init(t0), cfg, ins).table);
  }

  // ---------------------------------------------------------------- delivery count

  ghost predicate UsableFor(input: Input, k: Key) {
    input.Record? && Usable(input.ev) && KeyOf(input.ev) == k
  }

  /** How many records could have delivered fragment i of write k. */
  ghost function Receipts(ins: seq<Input>, k: Key, i: nat): nat {
    if ins == [] then 0 else
    var last := ins[|ins| - 1];
    Receipts(ins[..|ins| - 1], k, i) + (if UsableFor(last, k) && last.ev.fragIdx == i then 1 else 0)
  }

  ghost function Deliveries(out: seq<CaptureEvent>, k: Key): nat {
    if out == [] then 0 else
    Deliveries(out[..|out| - 1], k) + (if EventKey(out[|out| - 1]) == k then 1 else 0)
  }

  /** Deliveries so far plus one if fragment i is held right now. */
  ghost function Spent(s: State, k: Key, i: nat): nat {
    Deliveries(s.emitted, k) + (if k in s.table && i in s.table[k].frags then 1 else 0)
  }

  ghost predicate SlotsAgree(table: map<Key, Entry>, k: Key, n: nat) {
    k in table ==> table[k].fragCnt == n && table[k].frags.Keys <= Range(n)
  }

  lemma {:induction false} StepSpends(s: State, cfg: Config, ev: SslEvent, c: Clock, k: Key, n: nat, i: nat)
    requires Usable(ev) && SlotsAgree(s.table, k, n) && i < n
    requires KeyOf(ev) == k ==> ev.fragCnt == n
    ensures var s' := Step(s, cfg, Record(ev, c));
            && SlotsAgree(s'.table, k, n)
            && Spent(s', k, i) <= Spent(s, k, i) + (if KeyOf(ev) == k && ev.fragIdx == i then 1 else 0)
  {
    StepShape(s, cfg, ev, c);
    var e := EntryFor(s.table, ev, c);
    var e' := WithPiece(e, ev);
    var s' := Step(s, cfg, Record(ev, c));
    hide Step;
    if s'.emitted != s.emitted {
      assert s'.emitted[..|s'.emitted| - 1] == s.emitted;
      if KeyOf(ev) == k {
        FullRange(e'.frags.Keys, n);
        assert |e'.frags| == |e'.frags.Keys|;
        assert i in Range(n);
      }
    }
  }

  /** Only a write whose fragments fit in the pool can be emitted. */
  lemma {:induction false} StepFits(s: State, cfg: Config, ev: SslEvent, c: Clock)
    requires Usable(ev) && InFlight(s.table, cfg.cap)
    ensures var s' := Step(s, cfg, Record(ev, c));
            s'.emitted == s.emitted
            || (EntryFor(s.table, ev, c).fragCnt <= cfg.cap
                && |s'.emitted| == |s.emitted| + 1 && s'.emitted[..|s.emitted|] == s.emitted
                && EventKey(s'.emitted[|s.emitted|]) == KeyOf(ev))
  {
    StepShape(s, cfg, ev, c);
    PlaceInFlight(s.table, cfg.cap, ev, EntryFor(s.table, ev, c));
  }

  lemma {:induction false} SpentBound(t0: int, cfg: Config, ins: seq<Input>, k: Key, n: nat, i: nat)
    requires forall j :: 0 <= j < |ins| && UsableFor(ins[j], k) ==> ins[j].ev.fragCnt == n
    requires i < n
    ensures var s := Run(Init(t0), cfg, ins);
            && SlotsAgree(s.table, k, n)
            && Spent(s, k, i) <= Receipts(ins, k, i)
            && (n > cfg.cap ==> Deliveries(s.emitted, k) == 0)
  {
    if ins == [] {
    } else {
      var before, last := ins[..|ins| - 1], ins[|ins| - 1];
      var s := Run(Init(t0), cfg, before);
      SpentBound(t0, cfg, before, k, n, i);
      if last.Record? && Usable(last.ev) {
        StepSpends(s, cfg, last.ev, last.clock, k, n, i);
        InFlightBound(t0, cfg, before);
        StepFits(s, cfg, last.ev, last.clock);
      }
    }
  }

  /** For a write whose records agree on the fragment count, no fragment index can have been
      received less often than the write was delivered: a fragment lost in every copy means no
      delivery, and each replay of all fragments buys at most one more. */
  lemma {:induction false} DeliveryBound(t0: int, cfg: Config, ins: seq<Input>, k: Key, n: nat, i: nat)
    requires forall j :: 0 <= j < |ins| && UsableFor(ins[j], k) ==> ins[j].ev.fragCnt == n
    requires i < n
    ensures Deliveries(Run(Init(t0), cfg, ins).emitted, k) <= Receipts(ins, k, i)
    ensures n > cfg.cap ==> Deliveries(Run(Init(t0), cfg, ins).emitted, k) == 0
  {
    SpentBound(t0, cfg, ins, k, n, i);
  }

  // ---------------------------------------------------------------- exactness

  /** Every record of a key is a fragment of the one write `src` gives for that key. */
  ghost predicate Genuine(ins: seq<Input>, src: Key -> Write) {
    forall j :: 0 <= j < |ins| && ins[j].Record? ==> FragmentOf(ins[j].ev, src(KeyOf(ins[j].ev)))
  }

  /** An entry holds only true pieces of w, under w's header. */
  ghost predicate EntryOf(e: Entry, w: Write) {
    && e.origLen == |w.buf| && e.totalLen == CaptureLen(w) && e.fragCnt == FragCount(w)
    && (e.truncated <==> CaptureLen(w) < |w.buf|)
    && e.frags.Keys <= Range(FragCount(w))
    && (forall i: nat :: i in e.frags && i < FragCount(w) ==> e.frags[i] == PieceOf(w, i))
  }

  ghost predicate Exact(e: CaptureEvent, w: Write) {
    e == ExactEvent(w, e.hookType)
  }

  lemma {:induction false} OpenGenuine(table: map<Key, Entry>, ev: SslEvent, c: Clock, w: Write)
    requires FragmentOf(ev, w)
    requires KeyOf(ev) in table ==> EntryOf(table[KeyOf(ev)], w)
    ensures EntryOf(EntryFor(table, ev, c), w)
  {
  }

  lemma {:induction false} AddGenuine(e: Entry, ev: SslEvent, w: Write)
    requires FragmentOf(ev, w) && Usable(ev) && EntryOf(e, w)
    ensures EntryOf(WithPiece(e, ev), w)
  {
    assert Piece(ev) == PieceOf(w, ev.fragIdx);
  }

  lemma {:induction false} CaptureKey(e: Entry, ev: SslEvent)
    ensures EventKey(CaptureOf(e, ev)) == KeyOf(ev)
  {
  }

  /** A write with no piece missing gives exactly its captured prefix. */
  lemma {:induction false} CaptureExact(e: Entry, ev: SslEvent, w: Write)
    requires KeyOf(ev) == w.key && EntryOf(e, w) && |e.frags| == e.fragCnt
    ensures Exact(CaptureOf(e, ev), w)
  {
    hide Concat, PieceOf;
    var n := FragCount(w);
    assert |e.frags| == |e.frags.Keys|;
    FullRange(e.frags.Keys, n);
    forall i: nat | i < n
      ensures i in e.frags
    {
      assert i in Range(n);
    }
    PiecesTile(w, e.frags, n);
    assert Concat(e.frags, n) == Captured(w);
    assert Trim(Captured(w), CaptureLen(w)) == Captured(w);
  }

  ghost predicate AllExact(out: seq<CaptureEvent>, src: Key -> Write) {
    forall j :: 0 <= j < |out| ==> Exact(out[j], src(EventKey(out[j])))
  }

  ghost predicate Faithful(s: State, src: Key -> Write) {
    && (forall k :: k in s.table ==> EntryOf(s.table[k], src(k)))
    && AllExact(s.emitted, src)
  }

  lemma {:induction false} EmitFaithful(out: seq<CaptureEvent>, e: CaptureEvent, src: Key -> Write)
    requires AllExact(out, src) && Exact(e, src(EventKey(e)))
    ensures AllExact(out + [e], src)
  {
  }

  lemma {:induction false} StepFaithful(s: State, cfg: Config, ev: SslEvent, c: Clock, src: Key -> Write)
    requires Faithful(s, src) && Usable(ev) && FragmentOf(ev, src(KeyOf(ev)))
    ensures Faithful(Step(s, cfg, Record(ev, c)), src)
  {
    var w, e := src(KeyOf(ev)), EntryFor(s.table, ev, c);
    var e' := WithPiece(e, ev);
    StepShape(s, cfg, ev, c);
    OpenGenuine(s.table, ev, c, w);
    AddGenuine(e, ev, w);
    CaptureKey(e', ev);
    if |e'.frags| == e'.fragCnt {
      CaptureExact(e', ev, w);
      EmitFaithful(s.emitted, CaptureOf(e', ev), src);
    }
    hide Step, EntryFor, EntryOf, CaptureOf, Exact, FragmentOf, AllExact;
  }

  /** End to end: whatever is lost, repeated, reordered or interleaved, whatever the pool size and
      the sweeps, every event carries exactly the captured prefix of its write, its true length,
      and the truncation flag exactly when bytes were left out. */
  lemma {:induction false} EndToEndExactness(t0: int, cfg: Config, ins: seq<Input>, src: Key -> Write)
    requires Genuine(ins, src)
    ensures Faithful(Run(Init(t0), cfg, ins), src)
  {
    if ins == [] {
    } else {
      EndToEndExactness(t0, cfg, ins[..|ins| - 1], src);
      var last := ins[|ins| - 1];
      if last.Record? && Usable(last.ev) {
        StepFaithful(Run(Init(t0), cfg, ins[..|ins| - 1]), cfg, last.ev, last.clock, src);
      }
    }
  }
}
