/** Several writes under one call id: when their fragments can be mixed up. */
module SharedIds {
  import opened Base
  import opened ReassemblySpec
  import opened Fragments
  import opened ReassemblyRuns
  import opened Probes
  import Completeness

  /** Two writes the probe gives one call id: same thread and same length. */
  ghost predicate Sharing(w1: Write, w2: Write) {
    w1.key == w2.key && |w1.buf| == |w2.buf| && w1.maxCap == w2.maxCap
  }

  /** The two writes agree on all fragments but at most one. */
  ghost predicate OneDifference(w1: Write, w2: Write)
    requires Sharing(w1, w2)
  {
    forall a: nat, b: nat :: a < FragCount(w1) && b < FragCount(w1) && a != b ==>
      PieceOf(w1, a) == PieceOf(w2, a) || PieceOf(w1, b) == PieceOf(w2, b)
  }

  lemma {:induction false} SameRange(v: Write, w: Write, i: nat)
    requires |v.buf| == |w.buf| && v.maxCap == w.maxCap && i < FragCount(v)
    ensures FragCount(v) == FragCount(w) && CaptureLen(v) == CaptureLen(w)
  {
  }

  // ---------------------------------------------------------------- safe families

  ghost predicate OneId(ws: set<Write>) {
    forall v, w :: v in ws && w in ws ==> Sharing(v, w)
  }

  ghost predicate Choice(ms: seq<Write>, ws: set<Write>) {
    forall i :: 0 <= i < |ms| ==> ms[i] in ws
  }

  /** Each fragment i of w is that of ms[i]. */
  ghost predicate Mixture(w: Write, ms: seq<Write>) {
    |ms| == FragCount(w) && forall i: nat :: i < |ms| ==> i < FragCount(ms[i]) && PieceOf(w, i) == PieceOf(ms[i], i)
  }

  /** Taking each fragment from any write of the family gives a write of the family. */
  ghost predicate MixClosed(w0: Write, ws: set<Write>) {
    OneId(ws) && forall ms :: Choice(ms, ws) && |ms| == FragCount(w0) ==> exists w :: w in ws && Mixture(w, ms)
  }

  ghost predicate FromAny(ev: SslEvent, ws: set<Write>) {
    exists w :: w in ws && FragmentOf(ev, w)
  }

  /** Every record of the key is a fragment of some write of the family. */
  ghost predicate OnlyFrom(ins: seq<Input>, k: Key, ws: set<Write>) {
    forall j :: 0 <= j < |ins| && ins[j].Record? && KeyOf(ins[j].ev) == k ==> FromAny(ins[j].ev, ws)
  }

  /** Piece i of some write of the family. */
  ghost predicate PieceOfAny(p: seq<byte>, i: nat, ws: set<Write>) {
    exists w :: w in ws && i < FragCount(w) && p == PieceOf(w, i)
  }

  /** The header all these writes have, and each piece from one of them. */
  ghost predicate MixedEntry(e: Entry, w: Write, ws: set<Write>) {
    && e.origLen == |w.buf| && e.totalLen == CaptureLen(w) && e.fragCnt == FragCount(w)
    && (e.truncated <==> CaptureLen(w) < |w.buf|)
    && e.frags.Keys <= Range(FragCount(w))
    && (forall i: nat :: i in e.frags ==> PieceOfAny(e.frags[i], i, ws))
  }

  ghost predicate ExactForAny(e: CaptureEvent, ws: set<Write>) {
    exists w :: w in ws && Exact(e, w)
  }

  ghost predicate AllExactForAny(out: seq<CaptureEvent>, k: Key, ws: set<Write>) {
    forall j :: 0 <= j < |out| && EventKey(out[j]) == k ==> ExactForAny(out[j], ws)
  }

  ghost function Picked(p: seq<byte>, i: nat, ws: set<Write>): (w: Write)
    requires PieceOfAny(p, i, ws)
    ensures w in ws && i < FragCount(w) && p == PieceOf(w, i)
  {
    var w :| w in ws && i < FragCount(w) && p == PieceOf(w, i);
    w
  }

  lemma {:induction false} NothingMissing(e: Entry, w0: Write, ws: set<Write>, i: nat)
    requires MixedEntry(e, w0, ws) && |e.frags| == e.fragCnt && i < FragCount(w0)
    ensures i in e.frags && PieceOfAny(e.frags[i], i, ws)
  {
    hide PieceOfAny;
    assert |e.frags| == |e.frags.Keys|;
    FullRange(e.frags.Keys, FragCount(w0));
    assert i in Range(FragCount(w0));
  }

  /** A complete mixture of pieces is one of the writes. */
  lemma {:induction false} MixedIsOne(e: Entry, w0: Write, ws: set<Write>) returns (w: Write)
    requires MixClosed(w0, ws) && w0 in ws && MixedEntry(e, w0, ws) && |e.frags| == e.fragCnt
    ensures w in ws && EntryOf(e, w)
  {
    hide PieceOf, PieceOfAny, Range, FragCount, CaptureLen;
    forall i: nat | i < FragCount(w0)
      ensures i in e.frags && PieceOfAny(e.frags[i], i, ws)
    {
      NothingMissing(e, w0, ws, i);
    }
    var ms := seq(FragCount(w0), i requires 0 <= i < FragCount(w0) => Picked(e.frags[i], i, ws));
    assert Choice(ms, ws);
    w :| w in ws && Mixture(w, ms);
    assert Sharing(w0, w);
    SameRange(w0, w, 0);
  }

  lemma {:induction false} MixedTouch(table: map<Key, Entry>, ev: SslEvent, c: Clock, w0: Write, ws: set<Write>)
    requires OneId(ws) && w0 in ws && KeyOf(ev) == w0.key && Usable(ev) && FromAny(ev, ws)
    requires w0.key in table ==> MixedEntry(table[w0.key], w0, ws)
    ensures MixedEntry(EntryFor(table, ev, c), w0, ws)
    ensures MixedEntry(WithPiece(EntryFor(table, ev, c), ev), w0, ws)
  {
    var w :| w in ws && FragmentOf(ev, w);
    assert Sharing(w0, w);
    assert Piece(ev) == PieceOf(w, ev.fragIdx);
    assert PieceOfAny(Piece(ev), ev.fragIdx, ws);
  }

  lemma {:induction false} EmitAny(out: seq<CaptureEvent>, e: CaptureEvent, k: Key, ws: set<Write>)
    requires AllExactForAny(out, k, ws) && (EventKey(e) == k ==> ExactForAny(e, ws))
    ensures AllExactForAny(out + [e], k, ws)
  {
  }

  lemma {:induction false} StepMixed(s: State, cfg: Config, ev: SslEvent, c: Clock, w0: Write, ws: set<Write>)
    requires MixClosed(w0, ws) && w0 in ws && Usable(ev) && (KeyOf(ev) == w0.key ==> FromAny(ev, ws))
    requires w0.key in s.table ==> MixedEntry(s.table[w0.key], w0, ws)
    requires AllExactForAny(s.emitted, w0.key, ws)
    ensures var s' := Step(s, cfg, Record(ev, c));
            && (w0.key in s'.table ==> MixedEntry(s'.table[w0.key], w0, ws))
            && AllExactForAny(s'.emitted, w0.key, ws)
  {
    var e := EntryFor(s.table, ev, c);
    var e' := WithPiece(e, ev);
    StepShape(s, cfg, ev, c);
    CaptureKey(e', ev);
    if KeyOf(ev) == w0.key {
      MixedTouch(s.table, ev, c, w0, ws);
      if |e'.frags| == e'.fragCnt {
        var w := MixedIsOne(e', w0, ws);
        assert Sharing(w0, w);
        CaptureExact(e', ev, w);
        EmitAny(s.emitted, CaptureOf(e', ev), w0.key, ws);
      }
    } else {
      EmitAny(s.emitted, CaptureOf(e', ev), w0.key, ws);
    }
    hide Step, EntryFor, CaptureOf, Exact, FragmentOf, MixedEntry, WithPiece, Usable;
    hide AllExactForAny, ExactForAny, Choice;
  }

  /** Streams of fragments of any number of writes under one id stay true to single writes when every
      mixture of the writes is one of them. */
  lemma {:induction false} SharedIdSafe(t0: int, cfg: Config, ins: seq<Input>, w0: Write, ws: set<Write>)
    requires MixClosed(w0, ws) && w0 in ws && OnlyFrom(ins, w0.key, ws)
    ensures var s := Run(Init(t0), cfg, ins);
            && (w0.key in s.table ==> MixedEntry(s.table[w0.key], w0, ws))
            && AllExactForAny(s.emitted, w0.key, ws)
  {
    if ins == [] {
    } else {
      var before, last := ins[..|ins| - 1], ins[|ins| - 1];
      hide MixedEntry, AllExactForAny, MixClosed, FromAny;
      SharedIdSafe(t0, cfg, before, w0, ws);
      if last.Record? && Usable(last.ev) {
        StepMixed(Run(Init(t0), cfg, before), cfg, last.ev, last.clock, w0, ws);
      }
    }
  }

  // ---------------------------------------------------------------- alike but for one fragment

  /** Any number of writes under one id, of which no two differ in more than one fragment. */
  ghost predicate Close(ws: set<Write>) {
    forall v, w :: v in ws && w in ws ==> Sharing(v, w) && OneDifference(v, w)
  }

  /** Two writes that differ in fragment a are otherwise the same, and then so is every third. */
  lemma {:induction false} OnlyThere(ws: set<Write>, u: Write, v: Write, w: Write, a: nat, i: nat)
    requires Close(ws) && u in ws && v in ws && w in ws
    requires a < FragCount(u) && i < FragCount(u) && i != a
    requires Sharing(u, v) && PieceOf(u, a) != PieceOf(v, a)
    ensures Sharing(u, w) && PieceOf(w, i) == PieceOf(u, i)
  {
    assert OneDifference(u, v) && OneDifference(u, w) && OneDifference(v, w);
  }

  /** Such writes have no mixtures but themselves. */
  lemma {:induction false} CloseIsMixClosed(w0: Write, ws: set<Write>)
    requires Close(ws) && w0 in ws
    ensures MixClosed(w0, ws)
  {
    hide OneDifference, PieceOf;
    forall ms | Choice(ms, ws) && |ms| == FragCount(w0)
      ensures exists w :: w in ws && Mixture(w, ms)
    {
      assert forall i :: 0 <= i < |ms| ==> ms[i] in ws && Sharing(w0, ms[i]);
      if a: nat :| a < |ms| && PieceOf(ms[a], a) != PieceOf(w0, a) {
        var w := ms[a];
        forall i: nat | i < |ms|
          ensures PieceOf(w, i) == PieceOf(ms[i], i)
        {
          if i != a {
            OnlyThere(ws, w, w0, ms[i], a, i);
          }
        }
        assert Mixture(w, ms);
      } else {
        assert Mixture(w0, ms);
      }
    }
  }

  // ---------------------------------------------------------------- mixtures

  /** Fragments 0..a of w1, the rest from w2. */
  function Hybrid(w1: Write, w2: Write, a: nat): (h: Write)
    requires Sharing(w1, w2) && a + 1 < FragCount(w1)
    ensures Sharing(w1, h)
  {
    w2.(buf := w1.buf[..ChunkStart(a + 1)] + w2.buf[ChunkStart(a + 1)..])
  }

  /** A slice of a spliced sequence comes from one side when it does not cross the cut. */
  lemma {:induction false} SliceOfSplice(x: seq<byte>, y: seq<byte>, cut: nat, lo: nat, hi: nat)
    requires cut <= |x| == |y| && lo <= hi <= |x| && (hi <= cut || cut <= lo)
    ensures (x[..cut] + y[cut..])[lo..hi] == if hi <= cut then x[lo..hi] else y[lo..hi]
  {
  }

  lemma {:induction false} HybridPieces(w1: Write, w2: Write, a: nat, i: nat)
    requires Sharing(w1, w2) && a + 1 < FragCount(w1) && i < FragCount(w1)
    ensures var h := Hybrid(w1, w2, a);
            && h.key == w1.key && |h.buf| == |w1.buf| && h.maxCap == w1.maxCap && FragCount(h) == FragCount(w1)
            && PieceOf(h, i) == (if i <= a then PieceOf(w1, i) else PieceOf(w2, i))
  {
    hide FragCount, CaptureLen, PieceOf;
    var h := Hybrid(w1, w2, a);
    SameRange(w1, h, i);
    SameRange(w1, w2, i);
    RangeOf(h, i);
    RangeOf(w1, i);
    RangeOf(w2, i);
    SliceOfSplice(w1.buf, w2.buf, ChunkStart(a + 1), ChunkStart(i), Min(ChunkStart(i + 1), CaptureLen(h)));
  }

  /** A record that brings fragment i of w. */
  ghost predicate Carries(ev: SslEvent, w: Write, i: nat) {
    FragmentOf(ev, w) && ev.fragIdx == i && ev.chunkLen != 0
  }

  /** What one thread leaves in the ring when it is granted no slot after fragment a of the first
      write and then all slots for the second. */
  ghost predicate TailLost(records: seq<SslEvent>, w1: Write, w2: Write, a: nat) {
    && a + 1 < FragCount(w1) && |records| == a + 1 + FragCount(w2)
    && (forall j :: 0 <= j <= a ==> Carries(records[j], w1, j))
    && (forall j :: a < j < |records| ==> Carries(records[j], w2, j - a - 1))
  }

  /** The clock readings at which the records arrive: none is idle when it is looked at. */
  ghost predicate Prompt(clocks: seq<Clock>, ttl: int) {
    forall j :: 0 <= j < |clocks| ==> clocks[j].now - clocks[j].last <= ttl
  }

  function Arriving(records: seq<SslEvent>, clocks: seq<Clock>): seq<Input>
    requires |records| == |clocks|
  {
    seq(|records|, i requires 0 <= i < |records| => Record(records[i], clocks[i]))
  }

  /** Nothing but the first m pieces of h so far. */
  ghost predicate Collected(s: State, h: Write, m: nat) {
    && s.emitted == []
    && (if m == 0 then s.table == map[]
        else s.table.Keys == {h.key} && EntryOf(s.table[h.key], h) && s.table[h.key].frags.Keys == Range(m))
  }

  /** A table of one write holds that write's pieces. */
  lemma {:induction false} HeldByOne(t: map<Key, Entry>, k: Key)
    requires t.Keys == {k}
    ensures |Held(t)| == |t[k].frags.Keys|
  {
    HeldRemove(t, k);
    assert t - {k} == map[];
    assert Held(map[]) == {};
    assert |t[k].frags| == |t[k].frags.Keys|;
  }

  lemma {:induction false} OpenEntry(s: State, ev: SslEvent, c: Clock, h: Write, m: nat)
    requires Collected(s, h, m) && KeyOf(ev) == h.key
    requires ev.origLen == |h.buf| && ev.totalLen == CaptureLen(h) && ev.fragCnt == FragCount(h)
    requires ev.truncated != 0 <==> CaptureLen(h) < |h.buf|
    ensures var e := EntryFor(s.table, ev, c); EntryOf(e, h) && e.frags.Keys == Range(m) && e.lastAt == c.last
  {
    hide PieceOf;
  }

  /** The entry of h before the record's piece is placed. */
  lemma {:induction false} OpenCollected(s: State, ev: SslEvent, c: Clock, h: Write, m: nat)
    requires Collected(s, h, m) && m < FragCount(h) && KeyOf(ev) == h.key
    requires ev.origLen == |h.buf| && ev.totalLen == CaptureLen(h) && ev.fragCnt == FragCount(h)
    requires ev.truncated != 0 <==> CaptureLen(h) < |h.buf|
    ensures var e := EntryFor(s.table, ev, c);
            && EntryOf(e, h) && e.frags.Keys == Range(m) && e.lastAt == c.last && e.fragCnt == FragCount(h)
            && s.table[h.key := e].Keys == {h.key} && |Held(s.table[h.key := e])| == m && s.emitted == []
  {
    OpenEntry(s, ev, c, h, m);
    hide EntryFor, EntryOf, Held;
    HeldByOne(s.table[h.key := EntryFor(s.table, ev, c)], h.key);
  }

  lemma {:induction false} CarriesHeader(ev: SslEvent, w: Write, i: nat)
    requires Carries(ev, w, i)
    ensures KeyOf(ev) == w.key && ev.fragIdx == i && i < FragCount(w) && Usable(ev)
    ensures ev.origLen == |w.buf| && ev.totalLen == CaptureLen(w) && ev.fragCnt == FragCount(w)
    ensures ev.truncated != 0 <==> CaptureLen(w) < |w.buf|
  {
  }

  /** A piece that is there already changes nothing but the time of the last record. */
  lemma {:induction false} PlaceDuplicate(s: State, cap: nat, ev: SslEvent, c: Clock)
    requires ev.fragIdx in EntryFor(s.table, ev, c).frags
    ensures var s' := Accept(s, cap, ev, c);
            s'.emitted == s.emitted && s'.table == s.table[KeyOf(ev) := EntryFor(s.table, ev, c)]
  {
    hide EntryFor, PlaceNew;
    assert s.emitted + [] == s.emitted;
  }

  lemma {:induction false} StepDuplicate(s: State, cfg: Config, ev: SslEvent, c: Clock, w: Write, h: Write, m: nat)
    requires Collected(s, h, m) && m < FragCount(h) && ev.fragIdx < m && Sharing(w, h)
    requires Carries(ev, w, ev.fragIdx) && c.now - c.last <= cfg.ttl
    ensures Collected(Step(s, cfg, Record(ev, c)), h, m)
  {
    hide EntryFor, EntryOf, Held, Accept, MaybeSweep, Carries, PieceOf, Usable;
    CarriesHeader(ev, w, ev.fragIdx);
    SameRange(w, h, 0);
    OpenCollected(s, ev, c, h, m);
    PlaceDuplicate(s, cfg.cap, ev, c);
    Completeness.NothingExpires(Accept(s, cfg.cap, ev, c), cfg.ttl, c);
  }

  lemma {:induction false} PlacePiece(t: map<Key, Entry>, cap: nat, ev: SslEvent)
    requires KeyOf(ev) in t && |Held(t)| < cap
    requires ev.fragIdx !in t[KeyOf(ev)].frags && ev.fragIdx < t[KeyOf(ev)].fragCnt
    ensures var e' := WithPiece(t[KeyOf(ev)], ev);
            var t' := t[KeyOf(ev) := e'];
            Place(t, cap, ev) == if |e'.frags| == e'.fragCnt then Outcome(t' - {KeyOf(ev)}, [CaptureOf(e', ev)], 0)
                                 else Outcome(t', [], 0)
  {
    hide Held, WithPiece, CaptureOf;
  }

  lemma {:induction false} AddPiece(e: Entry, ev: SslEvent, h: Write, m: nat)
    requires EntryOf(e, h) && e.frags.Keys == Range(m) && Carries(ev, h, m)
    ensures var e' := WithPiece(e, ev);
            && EntryOf(e', h) && e'.frags.Keys == Range(m + 1) && |e'.frags| == m + 1
            && e'.lastAt == e.lastAt && e'.fragCnt == e.fragCnt
    ensures m !in e.frags && Usable(ev)
  {
    AddGenuine(e, ev, h);
    var e' := WithPiece(e, ev);
    assert e'.frags.Keys == Range(m) + {m} == Range(m + 1);
    assert |e'.frags| == |e'.frags.Keys|;
  }

  /** Placing the piece that is next. */
  lemma {:induction false} PlaceNext(s: State, cap: nat, ev: SslEvent, c: Clock, h: Write, m: nat)
    requires Collected(s, h, m) && m < FragCount(h) <= cap && Carries(ev, h, m)
    ensures var e' := WithPiece(EntryFor(s.table, ev, c), ev);
            var s' := Accept(s, cap, ev, c);
            && Usable(ev) && EntryOf(e', h) && e'.frags.Keys == Range(m + 1) && |e'.frags| == m + 1
            && e'.lastAt == c.last
            && (m + 1 < FragCount(h) ==> s'.emitted == [] && s'.table.Keys == {h.key} && s'.table[h.key] == e')
            && (m + 1 == FragCount(h) ==> s'.emitted == [CaptureOf(e', ev)])
  {
    hide EntryFor, EntryOf, Held, CaptureOf, FragmentOf, WithPiece, Place, Carries, FragCount, CaptureLen, Collected;
    CarriesHeader(ev, h, m);
    OpenCollected(s, ev, c, h, m);
    var e := EntryFor(s.table, ev, c);
    AddPiece(e, ev, h, m);
    PlacePiece(s.table[h.key := e], cap, ev);
  }

  lemma {:induction false} SweepsEmitNothing(s: State, ttl: int, c: Clock)
    ensures MaybeSweep(s, ttl, c).emitted == s.emitted
  {
  }

  /** The piece that is next is added; the last one completes h. */
  lemma {:induction false} StepNew(s: State, cfg: Config, ev: SslEvent, c: Clock, h: Write, m: nat)
    requires Collected(s, h, m) && m < FragCount(h) <= cfg.cap && Carries(ev, h, m) && c.now - c.last <= cfg.ttl
    ensures var s' := Step(s, cfg, Record(ev, c));
            if m + 1 < FragCount(h) then Collected(s', h, m + 1) else s'.emitted == [ExactEvent(h, ev.hookType)]
  {
    PlaceNext(s, cfg.cap, ev, c, h, m);
    var e', s1 := WithPiece(EntryFor(s.table, ev, c), ev), Accept(s, cfg.cap, ev, c);
    SweepsEmitNothing(s1, cfg.ttl, c);
    if m + 1 < FragCount(h) {
      Completeness.NothingExpires(s1, cfg.ttl, c);
    } else {
      CaptureExact(e', ev, h);
    }
    hide EntryFor, EntryOf, Accept, CaptureOf, MaybeSweep, FragmentOf, WithPiece, Usable;
  }

  /** How many pieces are there after p records. */
  function Progress(a: nat, p: nat): nat {
    if p <= a + 1 then p else Max(a + 1, p - a - 1)
  }

  lemma {:induction false} NothingCollected(t0: int, cfg: Config, h: Write)
    ensures Collected(Run(Init(t0), cfg, []), h, 0)
  {
  }

  /** Record p repeats a piece already there, or brings the one that is next. */
  predicate Repeats(a: nat, p: nat) {
    a < p <= 2 * a + 1
  }

  lemma {:induction false} CarriesToo(ev: SslEvent, v: Write, w: Write, i: nat)
    requires Carries(ev, v, i) && Sharing(v, w) && i < FragCount(v) == FragCount(w) && PieceOf(v, i) == PieceOf(w, i)
    ensures Carries(ev, w, i)
  {
    SameRange(v, w, i);
    hide PieceOf, FragCount, CaptureLen;
  }

  lemma {:induction false} HybridCarries(ev: SslEvent, w1: Write, w2: Write, a: nat, m: nat)
    requires Sharing(w1, w2) && a + 1 < FragCount(w1) && m < FragCount(w1)
    requires Carries(ev, if m <= a then w1 else w2, m)
    ensures Carries(ev, Hybrid(w1, w2, a), m)
  {
    hide Carries, Hybrid, PieceOf, FragCount, CaptureLen;
    SameRange(w1, w2, 0);
    HybridPieces(w1, w2, a, m);
    CarriesToo(ev, if m <= a then w1 else w2, Hybrid(w1, w2, a), m);
  }

  lemma {:induction false} RecordFits(w1: Write, w2: Write, a: nat, records: seq<SslEvent>, p: nat)
    requires Sharing(w1, w2) && TailLost(records, w1, w2, a) && p < |records|
    ensures var h, m, m', ev := Hybrid(w1, w2, a), Progress(a, p), Progress(a, p + 1), records[p];
            && Sharing(w2, h) && FragCount(h) == FragCount(w1) == FragCount(w2) && m < FragCount(h)
            && (m' < FragCount(h) <==> p + 1 < |records|)
            && (if Repeats(a, p) then m' == m && ev.fragIdx < m && Carries(ev, w2, ev.fragIdx)
                else m' == m + 1 && Carries(ev, h, m))
  {
    var m := Progress(a, p);
    HybridPieces(w1, w2, a, 0);
    if !Repeats(a, p) {
      HybridCarries(records[p], w1, w2, a, m);
    }
    hide Hybrid, PieceOf, CaptureLen;
  }

  lemma {:induction false} NextRecord(s: State, cfg: Config, w1: Write, w2: Write, a: nat,
          records: seq<SslEvent>, clocks: seq<Clock>, p: nat)
    requires Sharing(w1, w2) && TailLost(records, w1, w2, a) && cfg.cap >= FragCount(w1)
    requires |clocks| == |records| && Prompt(clocks, cfg.ttl) && p < |records|
    requires Collected(s, Hybrid(w1, w2, a), Progress(a, p))
    ensures var s' := Step(s, cfg, Record(records[p], clocks[p]));
            if p + 1 < |records| then Collected(s', Hybrid(w1, w2, a), Progress(a, p + 1))
            else s'.emitted == [ExactEvent(Hybrid(w1, w2, a), records[p].hookType)]
  {
    hide Step, Collected, Carries, Hybrid, Progress, Repeats, Sharing;
    RecordFits(w1, w2, a, records, p);
    if Repeats(a, p) {
      StepDuplicate(s, cfg, records[p], clocks[p], w2, Hybrid(w1, w2, a), Progress(a, p));
    } else {
      StepNew(s, cfg, records[p], clocks[p], Hybrid(w1, w2, a), Progress(a, p));
    }
  }

  lemma {:induction false} CollectedAfter(t0: int, cfg: Config, w1: Write, w2: Write, a: nat,
          records: seq<SslEvent>, clocks: seq<Clock>, p: nat)
    requires Sharing(w1, w2) && TailLost(records, w1, w2, a) && cfg.cap >= FragCount(w1)
    requires |clocks| == |records| && Prompt(clocks, cfg.ttl) && p < |records|
    ensures Collected(Run(Init(t0), cfg, Arriving(records, clocks)[..p]), Hybrid(w1, w2, a), Progress(a, p))
  {
    hide Step, Hybrid, Prompt, Collected, Sharing, Carries;
    var ins := Arriving(records, clocks);
    if p == 0 {
      NothingCollected(t0, cfg, Hybrid(w1, w2, a));
      assert ins[..0] == [];
    } else {
      CollectedAfter(t0, cfg, w1, w2, a, records, clocks, p - 1);
      assert ins[..p][..p - 1] == ins[..p - 1];
      NextRecord(Run(Init(t0), cfg, ins[..p - 1]), cfg, w1, w2, a, records, clocks, p - 1);
    }
  }

  lemma {:induction false} PieceOfCaptured(w: Write, i: nat)
    requires i < FragCount(w)
    ensures ChunkStart(i) <= Min(ChunkStart(i + 1), CaptureLen(w)) <= |Captured(w)|
    ensures PieceOf(w, i) == Captured(w)[ChunkStart(i)..Min(ChunkStart(i + 1), CaptureLen(w))]
  {
    var lo, hi := ChunkStart(i), Min(ChunkStart(i + 1), CaptureLen(w));
    assert w.buf[..CaptureLen(w)][lo..hi] == w.buf[lo..hi];
  }

  lemma {:induction false} PieceShows(v: Write, w: Write, i: nat)
    requires |v.buf| == |w.buf| && v.maxCap == w.maxCap && i < FragCount(v) && PieceOf(v, i) != PieceOf(w, i)
    ensures Captured(v) != Captured(w)
  {
    PieceOfCaptured(v, i);
    PieceOfCaptured(w, i);
  }

  /** When two writes under one id differ in two fragments, and the first loses its tail between
      them, the reassembler emits one event, with a payload that nobody wrote. */
  lemma {:induction false} SharedIdMixes(t0: int, cfg: Config, w1: Write, w2: Write, a: nat, b: nat,
          records: seq<SslEvent>, clocks: seq<Clock>)
    requires Sharing(w1, w2) && cfg.cap >= FragCount(w1) && a < b < FragCount(w1)
    requires PieceOf(w1, a) != PieceOf(w2, a) && PieceOf(w1, b) != PieceOf(w2, b)
    requires TailLost(records, w1, w2, a) && |clocks| == |records| && Prompt(clocks, cfg.ttl)
    ensures var out := Run(Init(t0), cfg, Arriving(records, clocks)).emitted;
            |out| == 1 && EventKey(out[0]) == w1.key
            && out[0].payload != Captured(w1) && out[0].payload != Captured(w2)
  {
    hide Step, Captured, Hybrid, Collected, Prompt, PieceOf;
    var h, ins, n := Hybrid(w1, w2, a), Arriving(records, clocks), |records| - 1;
    CollectedAfter(t0, cfg, w1, w2, a, records, clocks, n);
    NextRecord(Run(Init(t0), cfg, ins[..n]), cfg, w1, w2, a, records, clocks, n);
    HybridPieces(w1, w2, a, a);
    HybridPieces(w1, w2, a, b);
    PieceShows(h, w1, b);
    PieceShows(h, w2, a);
  }

  /** Writes that are not alike but for one fragment differ in two, one before the other. */
  lemma {:induction false} DifferTwice(w1: Write, w2: Write) returns (a: nat, b: nat)
    requires Sharing(w1, w2) && !OneDifference(w1, w2)
    ensures a < b < FragCount(w1) && PieceOf(w1, a) != PieceOf(w2, a) && PieceOf(w1, b) != PieceOf(w2, b)
  {
    a, b :| a < FragCount(w1) && b < FragCount(w1) && a != b
            && PieceOf(w1, a) != PieceOf(w2, a) && PieceOf(w1, b) != PieceOf(w2, b);
    if b < a {
      a, b := b, a;
    }
  }

  /** Two calls of one thread with one buffer, at most 2 ms apart, of which the first is granted ring
      slots up to fragment a only: whatever the buffer held each time, this is the stream above. */
  method WriteTwice(probe: Probe, pidTgid: u64, buf: u64, num: u32, mem1: nat -> byte, mem2: nat -> byte,
          now1: u64, now2: u64, hookType: u32, garbage: Payload, a: nat)
    returns (records: seq<SslEvent>, ghost w1: Write, ghost w2: Write)
    requires 0 < num <= 0x7fff_ffff && buf != 0 && now1 <= now2 <= now1 + DEDUP_WINDOW_NS
    modifies probe
    ensures Sharing(w1, w2) && w1.buf == ReadMem(mem1, 0, num) && w2.buf == ReadMem(mem2, 0, num)
    ensures a + 1 < FragCount(w1) ==> TailLost(records, w1, w2, a)
  {
    var first, second;
    var full := Kernel(i => i <= a, _ => true);
    first, w1 := probe.EmitFromBuf(pidTgid, buf, mem1, num, now1, hookType, full, garbage);
    assert |first| > 0 ==> FragmentOf(first[|first| - 1], w1) && |first| - 1 <= a;
    second, w2 := probe.EmitFromBuf(pidTgid, buf, mem2, num, now2, hookType, Kernel(_ => true, _ => true), garbage);
    records := first + second;
  }

  // ---------------------------------------------------------------- the exact condition

  /** Whatever stream of their fragments arrives, every event is one of the writes. */
  ghost predicate NeverMixed(t0: int, cfg: Config, k: Key, ws: set<Write>) {
    forall ins :: OnlyFrom(ins, k, ws) ==> AllExactForAny(Run(Init(t0), cfg, ins).emitted, k, ws)
  }

  /** The record of fragment i, had all of it been readable. */
  function FragmentRecord(w: Write, i: nat): SslEvent
    requires i < FragCount(w)
  {
    var p := PieceOf(w, i);
    SslEvent(w.key.pid, w.key.tid, w.key.callId, |w.buf|, CaptureLen(w),
             if CaptureLen(w) < |w.buf| then 1 else 0, i, FragCount(w), |p|, 1,
             p + seq(CHUNK_SIZE - |p|, _ => 0))
  }

  lemma {:induction false} RecordCarries(w: Write, i: nat)
    requires i < FragCount(w)
    ensures Carries(FragmentRecord(w, i), w, i)
  {
    assert FragmentRecord(w, i).payload[..|PieceOf(w, i)|] == PieceOf(w, i);
  }

  function LostTail(w1: Write, w2: Write, a: nat): (records: seq<SslEvent>)
    requires a + 1 < FragCount(w1)
    ensures |records| == a + 1 + FragCount(w2)
  {
    seq(a + 1 + FragCount(w2), j requires 0 <= j < a + 1 + FragCount(w2) =>
      if j <= a then FragmentRecord(w1, j) else FragmentRecord(w2, j - a - 1))
  }

  lemma {:induction false} LostTailIsTailLost(w1: Write, w2: Write, a: nat)
    requires a + 1 < FragCount(w1)
    ensures TailLost(LostTail(w1, w2, a), w1, w2, a)
  {
    hide FragmentRecord, Carries;
    forall j: nat | j < a + 1 + FragCount(w2)
      ensures if j <= a then Carries(LostTail(w1, w2, a)[j], w1, j) else Carries(LostTail(w1, w2, a)[j], w2, j - a - 1)
    {
      if j <= a {
        RecordCarries(w1, j);
      } else {
        RecordCarries(w2, j - a - 1);
      }
    }
  }

  lemma {:induction false} TailLostFromPair(records: seq<SslEvent>, clocks: seq<Clock>, w1: Write, w2: Write, a: nat)
    requires TailLost(records, w1, w2, a) && |clocks| == |records|
    ensures OnlyFrom(Arriving(records, clocks), w1.key, {w1, w2})
  {
    hide FragmentOf;
    forall j | 0 <= j < |records|
      ensures FromAny(records[j], {w1, w2})
    {
      assert Carries(records[j], if j <= a then w1 else w2, if j <= a then j else j - a - 1);
      assert FragmentOf(records[j], if j <= a then w1 else w2);
    }
  }

  lemma {:induction false} NeitherExact(e: CaptureEvent, w1: Write, w2: Write)
    requires e.payload != Captured(w1) && e.payload != Captured(w2)
    ensures !ExactForAny(e, {w1, w2})
  {
  }

  // A family that is not closed under mixtures.

  /** Fragments 0..k-1 from ms[0..k-1], the rest from ms[k-1]. */
  ghost function Blend(ms: seq<Write>, k: nat): (h: Write)
    requires 0 < k <= |ms| <= FragCount(ms[0]) && forall i :: 0 <= i < |ms| ==> Sharing(ms[0], ms[i])
    ensures Sharing(ms[0], h)
  {
    if k == 1 then ms[0] else
    SameRange(ms[0], Blend(ms, k - 1), 0);
    Hybrid(Blend(ms, k - 1), ms[k - 1], k - 2)
  }

  lemma {:induction false} BlendPieces(ms: seq<Write>, k: nat, i: nat)
    requires 0 < k <= |ms| <= FragCount(ms[0]) && forall i :: 0 <= i < |ms| ==> Sharing(ms[0], ms[i])
    requires i < k
    ensures FragCount(Blend(ms, k)) == FragCount(ms[i]) == FragCount(ms[0])
    ensures PieceOf(Blend(ms, k), i) == PieceOf(ms[i], i)
  {
    hide FragCount, CaptureLen, PieceOf, Hybrid;
    SameRange(ms[0], Blend(ms, k), 0);
    SameRange(ms[0], ms[i], 0);
    if k == 1 {
    } else {
      SameRange(ms[0], Blend(ms, k - 1), 0);
      HybridPieces(Blend(ms, k - 1), ms[k - 1], k - 2, i);
      if i < k - 1 {
        BlendPieces(ms, k - 1, i);
      }
    }
  }

  /** The fragments of a write, arriving in order, are emitted as that write. */
  lemma {:induction false} InOrder(t0: int, cfg: Config, h: Write, records: seq<SslEvent>, clocks: seq<Clock>, p: nat)
    requires cfg.cap >= FragCount(h) == |records| && forall j :: 0 <= j < |records| ==> Carries(records[j], h, j)
    requires |clocks| == |records| && Prompt(clocks, cfg.ttl) && p < |records|
    ensures Collected(Run(Init(t0), cfg, Arriving(records, clocks)[..p]), h, p)
  {
    hide Step, Carries, Collected;
    var ins := Arriving(records, clocks);
    if p == 0 {
      NothingCollected(t0, cfg, h);
      assert ins[..0] == [];
    } else {
      InOrder(t0, cfg, h, records, clocks, p - 1);
      assert ins[..p][..p - 1] == ins[..p - 1];
      StepNew(Run(Init(t0), cfg, ins[..p - 1]), cfg, records[p - 1], clocks[p - 1], h, p - 1);
    }
  }

  lemma {:induction false} InOrderEmits(t0: int, cfg: Config, h: Write, records: seq<SslEvent>, clocks: seq<Clock>)
    requires cfg.cap >= FragCount(h) == |records| && forall j :: 0 <= j < |records| ==> Carries(records[j], h, j)
    requires |clocks| == |records| && Prompt(clocks, cfg.ttl)
    ensures exists hook :: Run(Init(t0), cfg, Arriving(records, clocks)).emitted == [ExactEvent(h, hook)]
  {
    hide Step, Carries, Collected, ExactEvent;
    var n, ins := |records| - 1, Arriving(records, clocks);
    InOrder(t0, cfg, h, records, clocks, n);
    StepNew(Run(Init(t0), cfg, ins[..n]), cfg, records[n], clocks[n], h, n);
  }

  /** The mixture's fragments, each in a record of the write it comes from. */
  lemma {:induction false} BlendRecords(ms: seq<Write>, ws: set<Write>) returns (records: seq<SslEvent>)
    requires OneId(ws) && Choice(ms, ws) && 0 < |ms| == FragCount(ms[0])
    ensures |records| == |ms| && forall j :: 0 <= j < |ms| ==> FromAny(records[j], ws)
    ensures forall i :: 0 <= i < |ms| ==> Sharing(ms[0], ms[i])
    ensures forall j :: 0 <= j < |ms| ==> Carries(records[j], Blend(ms, |ms|), j)
  {
    hide FragCount, CaptureLen, PieceOf, Hybrid, FragmentRecord, Carries, FragmentOf;
    forall i: nat | i < |ms|
      ensures Sharing(ms[0], ms[i]) && i < FragCount(ms[i])
    {
      SameRange(ms[0], ms[i], 0);
    }
    records := seq(|ms|, i requires 0 <= i < |ms| => FragmentRecord(ms[i], i));
    forall j: nat | j < |ms|
      ensures FromAny(records[j], ws) && Carries(records[j], Blend(ms, |ms|), j)
    {
      RecordCarries(ms[j], j);
      CarriesHeader(records[j], ms[j], j);
      BlendPieces(ms, |ms|, j);
      CarriesToo(records[j], ms[j], Blend(ms, |ms|), j);
    }
  }

  /** Two writes that differ in two fragments are mixed by some stream of their fragments. */
  lemma {:induction false} SomeStreamMixes(t0: int, cfg: Config, w1: Write, w2: Write)
    requires Sharing(w1, w2) && !OneDifference(w1, w2) && cfg.cap >= FragCount(w1) && cfg.ttl >= 0
    ensures !NeverMixed(t0, cfg, w1.key, {w1, w2})
  {
    var a, b := DifferTwice(w1, w2);
    hide LostTail, TailLost, OnlyFrom, Run, ExactForAny, PieceOf, Captured, OneDifference;
    var records := LostTail(w1, w2, a);
    var clocks := seq(|records|, _ => Clock(0, 0, 0, 0));
    LostTailIsTailLost(w1, w2, a);
    SharedIdMixes(t0, cfg, w1, w2, a, b, records, clocks);
    TailLostFromPair(records, clocks, w1, w2, a);
    var ins := Arriving(records, clocks);
    NeitherExact(Run(Init(t0), cfg, ins).emitted[0], w1, w2);
    assert OnlyFrom(ins, w1.key, {w1, w2}) && !AllExactForAny(Run(Init(t0), cfg, ins).emitted, w1.key, {w1, w2});
  }

  lemma {:induction false} PairIsClose(w1: Write, w2: Write)
    requires Sharing(w1, w2) && OneDifference(w1, w2)
    ensures Close({w1, w2})
  {
  }

  /** Two writes under one id are never mixed exactly when they differ in at most one fragment. */
  lemma {:induction false} NeverMixedExactly(t0: int, cfg: Config, w1: Write, w2: Write)
    requires Sharing(w1, w2) && cfg.cap >= FragCount(w1) && cfg.ttl >= 0
    ensures OneDifference(w1, w2) <==> NeverMixed(t0, cfg, w1.key, {w1, w2})
  {
    if OneDifference(w1, w2) {
      var ws := {w1, w2};
      PairIsClose(w1, w2);
      CloseIsMixClosed(w1, ws);
      forall ins | OnlyFrom(ins, w1.key, ws)
        ensures AllExactForAny(Run(Init(t0), cfg, ins).emitted, w1.key, ws)
      {
        SharedIdSafe(t0, cfg, ins, w1, ws);
      }
    } else {
      SomeStreamMixes(t0, cfg, w1, w2);
    }
  }

  /** Any number of writes under one id are pairwise alike but for one fragment exactly when no two of
      them are ever mixed with each other. */
  lemma {:induction false} CloseExactly(t0: int, cfg: Config, ws: set<Write>)
    requires forall v, w :: v in ws && w in ws ==> Sharing(v, w) && cfg.cap >= FragCount(v)
    requires cfg.ttl >= 0
    ensures Close(ws) <==> forall v, w :: v in ws && w in ws ==> NeverMixed(t0, cfg, v.key, {v, w})
  {
    forall v, w | v in ws && w in ws
      ensures Sharing(v, w) && (OneDifference(v, w) <==> NeverMixed(t0, cfg, v.key, {v, w}))
    {
      NeverMixedExactly(t0, cfg, v, w);
    }
    hide OneDifference, NeverMixed, FragCount;
  }

  lemma {:induction false} SameCapture(h: Write, w: Write, ms: seq<Write>)
    requires Sharing(h, w) && Captured(h) == Captured(w) && Mixture(h, ms)
    ensures Mixture(w, ms)
  {
    SameRange(h, w, 0);
    hide FragCount, CaptureLen, PieceOf, Captured;
    forall i: nat | i < |ms|
      ensures PieceOf(h, i) == PieceOf(w, i)
    {
      if PieceOf(h, i) != PieceOf(w, i) {
        PieceShows(h, w, i);
      }
    }
  }

  /** An unmixed family contains every mixture of its writes. */
  lemma {:induction false} MixtureIsMember(t0: int, cfg: Config, w0: Write, ws: set<Write>, ms: seq<Write>)
    requires OneId(ws) && w0 in ws && cfg.cap >= FragCount(w0) && cfg.ttl >= 0
    requires Choice(ms, ws) && |ms| == FragCount(w0) && NeverMixed(t0, cfg, w0.key, ws)
    ensures exists w :: w in ws && Mixture(w, ms)
  {
    hide FragCount, CaptureLen, PieceOf, Captured, Carries, FromAny, Run;
    SameRange(w0, ms[0], 0);
    var records := BlendRecords(ms, ws);
    var clocks, h := seq(|ms|, _ => Clock(0, 0, 0, 0)), Blend(ms, |ms|);
    BlendPieces(ms, |ms|, 0);
    forall i: nat | i < |ms|
      ensures i < FragCount(ms[i]) && PieceOf(h, i) == PieceOf(ms[i], i)
    {
      BlendPieces(ms, |ms|, i);
    }
    InOrderEmits(t0, cfg, h, records, clocks);
    var ins := Arriving(records, clocks);
    assert OnlyFrom(ins, w0.key, ws);
    var out := Run(Init(t0), cfg, ins).emitted;
    assert EventKey(out[0]) == w0.key;
    var w :| w in ws && Exact(out[0], w);
    SameCapture(h, w, ms);
  }

  /** Any number of writes under one id are never mixed, whatever stream of their fragments arrives,
      exactly when every mixture of them is one of them. */
  lemma {:induction false} FamilyExactly(t0: int, cfg: Config, w0: Write, ws: set<Write>)
    requires OneId(ws) && w0 in ws && cfg.cap >= FragCount(w0) && cfg.ttl >= 0
    ensures MixClosed(w0, ws) <==> NeverMixed(t0, cfg, w0.key, ws)
  {
    if MixClosed(w0, ws) {
      forall ins | OnlyFrom(ins, w0.key, ws)
        ensures AllExactForAny(Run(Init(t0), cfg, ins).emitted, w0.key, ws)
      {
        SharedIdSafe(t0, cfg, ins, w0, ws);
      }
    }
    if NeverMixed(t0, cfg, w0.key, ws) {
      forall ms | Choice(ms, ws) && |ms| == FragCount(w0)
        ensures exists w :: w in ws && Mixture(w, ms)
      {
        MixtureIsMember(t0, cfg, w0, ws, ms);
      }
    }
  }
}
