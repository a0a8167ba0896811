/** What one record does, case by case, in terms of the table, the record and the pool's capacity;
    and what a full pool costs over a whole run. */
module RecordCases {
  import opened Base
  import opened ReassemblySpec
  import opened ReassemblyRuns

  /** No fragment, an index outside the write, or no bytes. */
  predicate Discarded(ev: SslEvent) {
    ev.fragCnt == 0 || ev.fragIdx >= ev.fragCnt || ev.chunkLen == 0
  }

  /** The record's fragment is there already. */
  predicate Repeated(t: map<Key, Entry>, ev: SslEvent) {
    KeyOf(ev) in t && ev.fragIdx in t[KeyOf(ev)].frags
  }

  /** The record needs a chunk and there is none. */
  ghost predicate Exhausts(t: map<Key, Entry>, cap: nat, ev: SslEvent) {
    !Discarded(ev) && !Repeated(t, ev) && |Held(t)| >= cap
  }

  /** The header a write has after a record: that of its first record, with the greatest lengths and
      any truncation mark seen since, and the time of the latest record. */
  ghost predicate Refreshed(t: map<Key, Entry>, ev: SslEvent, c: Clock, e: Entry) {
    if KeyOf(ev) in t then
      var was := t[KeyOf(ev)];
      && e.fragCnt == was.fragCnt && e.firstAt == was.firstAt && e.lastAt == c.last
      && e.origLen >= was.origLen && e.origLen >= ev.origLen && e.origLen in {was.origLen, ev.origLen}
      && e.totalLen >= was.totalLen && e.totalLen >= ev.totalLen && e.totalLen in {was.totalLen, ev.totalLen}
      && (e.truncated <==> was.truncated || ev.truncated != 0)
    else
      && e.fragCnt == ev.fragCnt && e.firstAt == c.first && e.lastAt == c.last
      && e.origLen == ev.origLen && e.totalLen == ev.totalLen && (e.truncated <==> ev.truncated != 0)
  }

  ghost function PiecesBefore(t: map<Key, Entry>, k: Key): map<nat, seq<byte>> {
    if k in t then t[k].frags else map[]
  }

  lemma {:induction false} OpenedHolds(t: map<Key, Entry>, ev: SslEvent, c: Clock)
    ensures |Held(t[KeyOf(ev) := EntryFor(t, ev, c)])| == |Held(t)|
    ensures EntryFor(t, ev, c).frags == PiecesBefore(t, KeyOf(ev))
    ensures Refreshed(t, ev, c, EntryFor(t, ev, c))
  {
    HeldUpdate(t, KeyOf(ev), EntryFor(t, ev, c));
  }

  lemma {:induction false} UsableMeans(ev: SslEvent)
    ensures Usable(ev) <==> !Discarded(ev)
  {
  }

  /** A discarded record is counted and otherwise ignored, the sweep included; bytes that are no
      record are not even counted. */
  lemma {:induction false} DiscardedOnly(s: State, cfg: Config, ev: SslEvent, c: Clock)
    requires Discarded(ev)
    ensures Step(s, cfg, Record(ev, c)) == s.(drops := s.drops + 1)
    ensures Step(s, cfg, Malformed) == s
  {
  }

  /** A full pool costs the whole write: its entry goes, with all its pieces, and one loss is counted. */
  lemma {:induction false} ExhaustionForgetsWrite(s: State, cap: nat, ev: SslEvent, c: Clock)
    requires Exhausts(s.table, cap, ev)
    ensures Accept(s, cap, ev, c) == s.(table := s.table - {KeyOf(ev)}, drops := s.drops + 1)
  {
    OpenedHolds(s.table, ev, c);
    hide Held, EntryFor;
    assert s.table[KeyOf(ev) := EntryFor(s.table, ev, c)] - {KeyOf(ev)} == s.table - {KeyOf(ev)};
    assert s.emitted + [] == s.emitted;
  }

  /** A repeated fragment, or one for which the write has no slot, only refreshes the header. */
  lemma {:induction false} HeaderOnly(s: State, cap: nat, ev: SslEvent, c: Clock)
    requires !Discarded(ev) && !Exhausts(s.table, cap, ev)
    requires Repeated(s.table, ev) || (KeyOf(ev) in s.table && ev.fragIdx >= s.table[KeyOf(ev)].fragCnt)
    ensures var s', k := Accept(s, cap, ev, c), KeyOf(ev);
            && k in s'.table && s'.table == s.table[k := s'.table[k]]
            && s'.table[k].frags == PiecesBefore(s.table, k) && Refreshed(s.table, ev, c, s'.table[k])
            && s'.emitted == s.emitted && s'.drops == s.drops
  {
    OpenedHolds(s.table, ev, c);
    hide Held, EntryFor;
    assert s.emitted + [] == s.emitted;
  }

  /** The bytes a record brings: the first chunkLen of its payload, at most 512. */
  function Brought(ev: SslEvent): seq<byte> {
    ev.payload[..if ev.chunkLen < 512 then ev.chunkLen else 512]
  }

  lemma {:induction false} PieceIsBrought(ev: SslEvent)
    ensures Piece(ev) == Brought(ev)
  {
  }

  ghost function PiecesAfter(t: map<Key, Entry>, ev: SslEvent): map<nat, seq<byte>> {
    PiecesBefore(t, KeyOf(ev))[ev.fragIdx := Brought(ev)]
  }

  function SlotsOf(t: map<Key, Entry>, ev: SslEvent): nat {
    if KeyOf(ev) in t then t[KeyOf(ev)].fragCnt else ev.fragCnt
  }

  /** The record brings a fragment that is missing, and there is a chunk for it. */
  ghost predicate Stores(t: map<Key, Entry>, cap: nat, ev: SslEvent) {
    !Discarded(ev) && !Repeated(t, ev) && |Held(t)| < cap && ev.fragIdx < SlotsOf(t, ev)
  }

  /** Placing a missing fragment, with nothing unfolded but the cases. */
  lemma {:induction false} PlaceStores(s: State, cap: nat, ev: SslEvent, c: Clock)
    requires Stores(s.table, cap, ev)
    ensures var s', k, e' := Accept(s, cap, ev, c), KeyOf(ev), WithPiece(EntryFor(s.table, ev, c), ev);
            && e'.frags == PiecesAfter(s.table, ev) && e'.fragCnt == SlotsOf(s.table, ev)
            && Refreshed(s.table, ev, c, e')
            && s'.drops == s.drops
            && (if |e'.frags| == e'.fragCnt then
                  s'.table == s.table - {k} && s'.emitted == s.emitted + [CaptureOf(e', ev)]
                else
                  s'.table == s.table[k := e'] && s'.emitted == s.emitted)
  {
    OpenedHolds(s.table, ev, c);
    var k, e := KeyOf(ev), EntryFor(s.table, ev, c);
    var e' := WithPiece(e, ev);
    PieceIsBrought(ev);
    assert e'.frags == PiecesAfter(s.table, ev);
    hide Held, EntryFor, CaptureOf, Piece, Brought;
    assert s.table[k := e][k := e'] == s.table[k := e'];
    assert s.table[k := e'] - {k} == s.table - {k};
    assert s.emitted + [] == s.emitted;
  }

  /** A missing fragment that leaves others missing is added to its write. */
  lemma {:induction false} FragmentAdded(s: State, cap: nat, ev: SslEvent, c: Clock)
    requires Stores(s.table, cap, ev) && |PiecesAfter(s.table, ev)| != SlotsOf(s.table, ev)
    ensures var s', k := Accept(s, cap, ev, c), KeyOf(ev);
            && k in s'.table && s'.table == s.table[k := s'.table[k]]
            && s'.table[k].frags == PiecesAfter(s.table, ev) && Refreshed(s.table, ev, c, s'.table[k])
            && s'.emitted == s.emitted && s'.drops == s.drops
  {
    PlaceStores(s, cap, ev, c);
    hide Accept, PiecesAfter, Refreshed, EntryFor, WithPiece, SlotsOf;
  }

  /** Fragment i is there, and stands in all from one offset to the next. */
  ghost predicate PieceAt(all: seq<byte>, frags: map<nat, seq<byte>>, i: nat, from: nat, to: nat) {
    i in frags && from <= to <= |all| && all[from..to] == frags[i]
  }

  /** All is the n pieces, one after another. */
  ghost predicate Joined(all: seq<byte>, frags: map<nat, seq<byte>>, n: nat, offsets: seq<nat>) {
    && |offsets| == n + 1 && offsets[0] == 0 && offsets[n] == |all|
    && forall i: nat, j: nat :: j == i + 1 <= n ==> PieceAt(all, frags, i, offsets[i], offsets[j])
  }

  lemma {:induction false} ConcatJoined(frags: map<nat, seq<byte>>, n: nat) returns (offsets: seq<nat>)
    requires forall i: nat :: i < n ==> i in frags
    ensures Joined(Concat(frags, n), frags, n, offsets)
  {
    if n == 0 {
      offsets := [0];
    } else {
      var before := ConcatJoined(frags, n - 1);
      var all, first := Concat(frags, n), Concat(frags, n - 1);
      offsets := before + [|all|];
      assert all == first + frags[n - 1];
      forall i: nat, j: nat | j == i + 1 <= n
        ensures PieceAt(all, frags, i, offsets[i], offsets[j])
      {
        if j < n {
          assert PieceAt(first, frags, i, before[i], before[j]);
          assert all[before[i]..before[j]] == first[before[i]..before[j]];
        }
      }
    }
  }

  /** What is emitted of the joined pieces: all of them, or the announced total when that is less. */
  function Emitted(all: seq<byte>, totalLen: u32): seq<byte> {
    if 0 < totalLen < |all| % 0x1_0000_0000 then all[..totalLen] else all
  }

  lemma {:induction false} CaptureIs(e: Entry, ev: SslEvent)
    ensures var p := Emitted(Concat(e.frags, e.fragCnt), e.totalLen);
            CaptureOf(e, ev) == CaptureEvent(ev.pid, ev.tid, ev.callId, e.origLen, |p| % 0x1_0000_0000,
                                             e.truncated, ev.hookType, p)
  {
  }

  lemma {:induction false} NoneMissing(s: State, cap: nat, ev: SslEvent)
    requires InFlight(s.table, cap) && Stores(s.table, cap, ev)
    requires |PiecesAfter(s.table, ev)| == SlotsOf(s.table, ev)
    ensures forall i: nat :: i < SlotsOf(s.table, ev) ==> i in PiecesAfter(s.table, ev)
  {
    hide Held;
    var frags, n := PiecesAfter(s.table, ev), SlotsOf(s.table, ev);
    assert |frags| == |frags.Keys|;
    FullRange(frags.Keys, n);
    forall i: nat | i < n
      ensures i in frags
    {
      assert i in Range(n);
    }
  }

  lemma {:induction false} SweepsUntouched(s: State, cap: nat, ev: SslEvent, c: Clock)
    ensures var s' := Accept(s, cap, ev, c); s'.lastCleanup == s.lastCleanup && s'.sweeps == s.sweeps
  {
  }

  /** The fragment that was the last one missing: the write is emitted as its pieces in order, under
      its header, with the hook of this record, and its entry goes. */
  lemma {:induction false} LastFragment(s: State, cap: nat, ev: SslEvent, c: Clock)
    returns (e: Entry, all: seq<byte>, offsets: seq<nat>)
    requires InFlight(s.table, cap) && Stores(s.table, cap, ev)
    requires |PiecesAfter(s.table, ev)| == SlotsOf(s.table, ev)
    ensures Refreshed(s.table, ev, c, e) && Joined(all, PiecesAfter(s.table, ev), SlotsOf(s.table, ev), offsets)
    ensures var p := Emitted(all, e.totalLen);
            Accept(s, cap, ev, c)
            == s.(table := s.table - {KeyOf(ev)},
                  emitted := s.emitted + [CaptureEvent(ev.pid, ev.tid, ev.callId, e.origLen, |p| % 0x1_0000_0000,
                                                       e.truncated, ev.hookType, p)])
  {
    PlaceStores(s, cap, ev, c);
    NoneMissing(s, cap, ev);
    e := WithPiece(EntryFor(s.table, ev, c), ev);
    all := Concat(e.frags, e.fragCnt);
    offsets := ConcatJoined(e.frags, e.fragCnt);
    CaptureIs(e, ev);
    SweepsUntouched(s, cap, ev, c);
    hide Accept, CaptureOf, PiecesAfter, Refreshed, EntryFor, WithPiece, SlotsOf, Concat, Joined, Emitted;
  }

  // ---------------------------------------------------------------- whole runs

  lemma {:induction false} RunAppend(s: State, cfg: Config, a: seq<Input>, b: seq<Input>)
    ensures Run(s, cfg, a + b) == Run(Run(s, cfg, a), cfg, b)
  {
    hide Step;
    if b == [] {
      assert a + b == a;
    } else {
      RunAppend(s, cfg, a, b[..|b| - 1]);
      assert (a + b)[..|a + b| - 1] == a + b[..|b| - 1];
    }
  }

  ghost predicate ExhaustsAt(t0: int, cfg: Config, ins: seq<Input>, m: nat) {
    m < |ins| && ins[m].Record? && Exhausts(Run(Init(t0), cfg, ins[..m]).table, cfg.cap, ins[m].ev)
  }

  /** How many records of the stream were discarded, or found the pool full. */
  ghost function Losses(t0: int, cfg: Config, ins: seq<Input>): nat {
    if ins == [] then 0 else
    var n := |ins| - 1;
    Losses(t0, cfg, ins[..n])
    + (if ins[n].Record? && (Discarded(ins[n].ev) || ExhaustsAt(t0, cfg, ins, n)) then 1 else 0)
  }

  /** No other step counts a drop. */
  lemma {:induction false} OthersCountNothing(s: State, cap: nat, ev: SslEvent, c: Clock)
    requires !Discarded(ev) && !Exhausts(s.table, cap, ev)
    ensures Accept(s, cap, ev, c).drops == s.drops
  {
    if Stores(s.table, cap, ev) {
      PlaceStores(s, cap, ev, c);
    } else {
      HeaderOnly(s, cap, ev, c);
    }
    hide Accept, EntryFor, Held;
  }

  /** The drop counter is the number of discarded records and of records that found the pool full. */
  lemma {:induction false} DropsAreLosses(t0: int, cfg: Config, ins: seq<Input>)
    ensures Run(Init(t0), cfg, ins).drops == Losses(t0, cfg, ins)
  {
    if ins == [] {
    } else {
      var before, last := ins[..|ins| - 1], ins[|ins| - 1];
      var s := Run(Init(t0), cfg, before);
      DropsAreLosses(t0, cfg, before);
      if last.Record? {
        UsableMeans(last.ev);
        if Exhausts(s.table, cfg.cap, last.ev) {
          ExhaustionForgetsWrite(s, cfg.cap, last.ev, last.clock);
        } else if !Discarded(last.ev) {
          OthersCountNothing(s, cfg.cap, last.ev, last.clock);
        }
      }
      hide Accept, Exhausts, Discarded, Usable, Expired;
    }
  }

  lemma {:induction false} SpentFrom(s: State, cfg: Config, more: seq<Input>, k: Key, n: nat, i: nat)
    requires forall j :: 0 <= j < |more| && UsableFor(more[j], k) ==> more[j].ev.fragCnt == n
    requires SlotsAgree(s.table, k, n) && i < n
    ensures var s' := Run(s, cfg, more);
            SlotsAgree(s'.table, k, n) && Spent(s', k, i) <= Spent(s, k, i) + Receipts(more, k, i)
  {
    if more == [] {
    } else {
      var before, last := more[..|more| - 1], more[|more| - 1];
      SpentFrom(s, cfg, before, k, n, i);
      if last.Record? && Usable(last.ev) {
        StepSpends(Run(s, cfg, before), cfg, last.ev, last.clock, k, n, i);
      }
    }
  }

  /** A write that met a full pool starts again from nothing: after that record it is delivered at
      most as often as each of its fragments is received again. */
  lemma {:induction false} ExhaustionStartsOver(t0: int, cfg: Config, ins: seq<Input>, m: nat, n: nat, i: nat)
    requires ExhaustsAt(t0, cfg, ins, m) && i < n
    requires forall j :: m < j < |ins| && UsableFor(ins[j], KeyOf(ins[m].ev)) ==> ins[j].ev.fragCnt == n
    ensures var k := KeyOf(ins[m].ev);
            Deliveries(Run(Init(t0), cfg, ins).emitted, k)
            <= Deliveries(Run(Init(t0), cfg, ins[..m]).emitted, k) + Receipts(ins[m + 1..], k, i)
  {
    var k, ev, c := KeyOf(ins[m].ev), ins[m].ev, ins[m].clock;
    var s, s1 := Run(Init(t0), cfg, ins[..m]), Run(Init(t0), cfg, ins[..m + 1]);
    assert ins[..m + 1][..m] == ins[..m];
    UsableMeans(ev);
    ExhaustionForgetsWrite(s, cfg.cap, ev, c);
    assert s1 == MaybeSweep(Accept(s, cfg.cap, ev, c), cfg.ttl, c);
    assert k !in s1.table && s1.emitted == s.emitted;
    assert ins == ins[..m + 1] + ins[m + 1..];
    RunAppend(Init(t0), cfg, ins[..m + 1], ins[m + 1..]);
    SpentFrom(s1, cfg, ins[m + 1..], k, n, i);
  }
}
