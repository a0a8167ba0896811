/** When nothing is lost, too much or too late: every write comes out, once, whole. */
module Completeness {
  import opened Base
  import opened ReassemblySpec
  import opened Fragments
  import opened ReassemblyRuns
  import opened Expiry

  /** The place in a write that a record fills. */
  function SlotOf(ev: SslEvent): (Key, nat) {
    (KeyOf(ev), ev.fragIdx)
  }

  /** The places filled by a stream of usable records. */
  ghost function Seen(ins: seq<Input>): set<(Key, nat)> {
    if ins == [] then {} else
    Seen(ins[..|ins| - 1]) + (if ins[|ins| - 1].Record? then {SlotOf(ins[|ins| - 1].ev)} else {})
  }

  lemma {:induction false} SeenSize(ins: seq<Input>)
    ensures |Seen(ins)| <= |ins|
  {
    if ins == [] {
    } else {
      SeenSize(ins[..|ins| - 1]);
    }
  }

  lemma {:induction false} SeenMembers(ins: seq<Input>, p: (Key, nat))
    ensures p in Seen(ins) <==> exists j :: 0 <= j < |ins| && ins[j].Record? && SlotOf(ins[j].ev) == p
  {
    if ins == [] {
    } else {
      var before := ins[..|ins| - 1];
      SeenMembers(before, p);
      if p in Seen(before) {
        var j :| 0 <= j < |before| && before[j].Record? && SlotOf(before[j].ev) == p;
        assert ins[j] == before[j];
      }
      if j :| 0 <= j < |ins| && ins[j].Record? && SlotOf(ins[j].ev) == p {
        if j < |before| {
          assert before[j] == ins[j];
        }
      }
    }
  }

  /** Every fragment of every write of `keys` arrives, readable, exactly once, and nothing else does. */
  ghost predicate OnceEach(ins: seq<Input>, src: Key -> Write, keys: set<Key>) {
    && (forall j :: 0 <= j < |ins| ==>
          ins[j].Record? && Usable(ins[j].ev) && KeyOf(ins[j].ev) in keys
          && FragmentOf(ins[j].ev, src(KeyOf(ins[j].ev))))
    && (forall i, j :: 0 <= i < j < |ins| ==> SlotOf(ins[i].ev) != SlotOf(ins[j].ev))
    && (forall k, i: nat :: k in keys && i < FragCount(src(k)) ==> (k, i) in Seen(ins))
  }

  /** At every sweep reading, a write with records still to come was heard of within the TTL. */
  ghost predicate NoIdle(ins: seq<Input>, ttl: int) {
    forall i, j, m :: 0 <= i <= j < m < |ins| && ins[i].Record? && ins[j].Record? && ins[m].Record?
      && KeyOf(ins[i].ev) == KeyOf(ins[m].ev)
      && (forall q :: i < q <= j && ins[q].Record? ==> KeyOf(ins[q].ev) != KeyOf(ins[i].ev))
      ==> ins[j].clock.now - ins[i].clock.last <= ttl
  }

  ghost predicate Whole(seen: set<(Key, nat)>, k: Key, w: Write) {
    forall i: nat :: i < FragCount(w) ==> (k, i) in seen
  }

  /** The events the stream should give: one at each record that completes its write. */
  ghost function Completions(ins: seq<Input>, src: Key -> Write): seq<CaptureEvent> {
    if ins == [] || !ins[|ins| - 1].Record? then [] else
    var ev := ins[|ins| - 1].ev;
    var w := src(KeyOf(ev));
    Completions(ins[..|ins| - 1], src)
    + (if Whole(Seen(ins), KeyOf(ev), w) then [ExactEvent(w, ev.hookType)] else [])
  }

  ghost predicate Touched(seen: set<(Key, nat)>, k: Key) {
    exists i: nat :: (k, i) in seen
  }

  /** One write is in the table exactly while it is partly seen, holding exactly the seen pieces. */
  ghost predicate KeyTracks(t: map<Key, Entry>, seen: set<(Key, nat)>, k: Key, w: Write) {
    && (k in t <==> Touched(seen, k) && !Whole(seen, k, w))
    && (k in t ==> EntryOf(t[k], w) && forall i: nat :: i in t[k].frags <==> (k, i) in seen)
  }

  /** The state mirrors what has been seen, and every write has been emitted when it became whole. */
  ghost predicate Tracks(s: State, ins: seq<Input>, src: Key -> Write) {
    && (forall k :: KeyTracks(s.table, Seen(ins), k, src(k)))
    && s.emitted == Completions(ins, src)
  }

  lemma {:induction false} HeldIsSeen(s: State, ins: seq<Input>, src: Key -> Write)
    requires Tracks(s, ins, src)
    ensures |Held(s.table)| <= |ins|
  {
    forall p | p in Held(s.table)
      ensures p in Seen(ins)
    {
      assert KeyTracks(s.table, Seen(ins), p.0, src(p.0));
    }
    SubsetSize(Held(s.table), Seen(ins));
    SeenSize(ins);
  }

  /** The entry of a record that is new to its write, before its piece is added. */
  lemma {:induction false} OpenTracks(s: State, ins: seq<Input>, src: Key -> Write, ev: SslEvent, c: Clock)
    requires Tracks(s, ins, src) && FragmentOf(ev, src(KeyOf(ev))) && SlotOf(ev) !in Seen(ins)
    ensures var e := EntryFor(s.table, ev, c);
            && EntryOf(e, src(KeyOf(ev)))
            && (forall i: nat :: i in e.frags <==> (KeyOf(ev), i) in Seen(ins))
            && |Held(s.table[KeyOf(ev) := e])| == |Held(s.table)|
  {
    var k, e := KeyOf(ev), EntryFor(s.table, ev, c);
    assert KeyTracks(s.table, Seen(ins), k, src(k));
    OpenGenuine(s.table, ev, c, src(k));
    HeldUpdate(s.table, k, e);
    if k !in s.table {
      assert !Touched(Seen(ins), k);
    }
  }

  lemma {:induction false} FullIffWhole(e: Entry, seen: set<(Key, nat)>, k: Key, w: Write)
    requires EntryOf(e, w) && forall i: nat :: i in e.frags <==> (k, i) in seen
    ensures |e.frags| == e.fragCnt <==> Whole(seen, k, w)
  {
    assert |e.frags| == |e.frags.Keys|;
    FullRange(e.frags.Keys, e.fragCnt);
    if Whole(seen, k, w) {
      assert e.frags.Keys == Range(e.fragCnt);
    } else {
      var i: nat :| i < FragCount(w) && (k, i) !in seen;
      assert i in Range(e.fragCnt);
    }
  }

  /** With room in the pool, a new piece is stored, and the write emitted if that was the last. */
  lemma {:induction false} AcceptNew(s: State, cap: nat, ev: SslEvent, c: Clock)
    requires var e := EntryFor(s.table, ev, c);
             ev.fragIdx !in e.frags && ev.fragIdx < e.fragCnt && |Held(s.table[KeyOf(ev) := e])| < cap
    ensures var e' := WithPiece(EntryFor(s.table, ev, c), ev);
            var s' := Accept(s, cap, ev, c);
            if |e'.frags| == e'.fragCnt then
              s'.table == s.table - {KeyOf(ev)} && s'.emitted == s.emitted + [CaptureOf(e', ev)]
            else
              s'.table == s.table[KeyOf(ev) := e'] && s'.emitted == s.emitted
  {
    UpdateTwice(s.table, KeyOf(ev), EntryFor(s.table, ev, c), WithPiece(EntryFor(s.table, ev, c), ev));
    hide Held, EntryFor, CaptureOf;
  }

  lemma {:induction false} OtherKeyTracks(t: map<Key, Entry>, t': map<Key, Entry>, seen: set<(Key, nat)>,
          p: (Key, nat), l: Key, w: Write)
    requires KeyTracks(t, seen, l, w) && l != p.0
    requires l in t <==> l in t'
    requires l in t ==> t'[l] == t[l]
    ensures KeyTracks(t', seen + {p}, l, w)
  {
    assert forall i: nat :: (l, i) in seen + {p} <==> (l, i) in seen;
    assert Touched(seen + {p}, l) <==> Touched(seen, l);
  }

  /** Adding the piece of a record adds its place to what the entry holds. */
  lemma {:induction false} OwnPieces(e: Entry, ev: SslEvent, seen: set<(Key, nat)>, w: Write)
    requires EntryOf(WithPiece(e, ev), w)
    requires forall i: nat :: i in e.frags <==> (KeyOf(ev), i) in seen
    ensures var seen' := seen + {SlotOf(ev)}; var e' := WithPiece(e, ev);
            && (forall i: nat :: i in e'.frags <==> (KeyOf(ev), i) in seen')
            && (|e'.frags| == e'.fragCnt <==> Whole(seen', KeyOf(ev), w))
            && Touched(seen', KeyOf(ev))
  {
    assert SlotOf(ev) in seen + {SlotOf(ev)};
    FullIffWhole(WithPiece(e, ev), seen + {SlotOf(ev)}, KeyOf(ev), w);
  }

  lemma {:induction false} AcceptOwn(s: State, cap: nat, ins: seq<Input>, src: Key -> Write, ev: SslEvent, c: Clock)
    requires Tracks(s, ins, src) && |ins| < cap
    requires Usable(ev) && FragmentOf(ev, src(KeyOf(ev))) && SlotOf(ev) !in Seen(ins)
    ensures var s' := Accept(s, cap, ev, c);
            var seen := Seen(ins) + {SlotOf(ev)};
            var k, w := KeyOf(ev), src(KeyOf(ev));
            && KeyTracks(s'.table, seen, k, w)
            && s'.emitted == s.emitted + (if Whole(seen, k, w) then [ExactEvent(w, ev.hookType)] else [])
            && (forall l :: l != k ==> (l in s'.table <==> l in s.table)
                                       && (l in s.table ==> s'.table[l] == s.table[l]))
  {
    var k, w := KeyOf(ev), src(KeyOf(ev));
    var e := EntryFor(s.table, ev, c);
    var e' := WithPiece(e, ev);
    var seen := Seen(ins) + {SlotOf(ev)};
    HeldIsSeen(s, ins, src);
    OpenTracks(s, ins, src, ev, c);
    AddGenuine(e, ev, w);
    AcceptNew(s, cap, ev, c);
    OwnPieces(e, ev, Seen(ins), w);
    if |e'.frags| == e'.fragCnt {
      CaptureExact(e', ev, w);
    }
    hide Accept, EntryFor, EntryOf, Seen, Tracks, Whole, CaptureOf, FragmentOf, ExactEvent;
  }

  lemma {:induction false} AcceptTracks(s: State, cap: nat, ins: seq<Input>, src: Key -> Write, ev: SslEvent, c: Clock)
    requires Tracks(s, ins, src) && |ins| < cap
    requires Usable(ev) && FragmentOf(ev, src(KeyOf(ev))) && SlotOf(ev) !in Seen(ins)
    ensures Tracks(Accept(s, cap, ev, c), ins + [Record(ev, c)], src)
  {
    var all := ins + [Record(ev, c)];
    assert all[..|ins|] == ins;
    assert Seen(all) == Seen(ins) + {SlotOf(ev)};
    AcceptOwn(s, cap, ins, src, ev, c);
    var t' := Accept(s, cap, ev, c).table;
    hide Accept, KeyTracks, Seen, Whole, FragmentOf;
    forall l
      ensures KeyTracks(t', Seen(all), l, src(l))
    {
      if l != KeyOf(ev) {
        OtherKeyTracks(s.table, t', Seen(ins), SlotOf(ev), l, src(l));
      }
    }
  }

  /** The latest record of a key, as a position. */
  lemma {:induction false} LatestRecord(ins: seq<Input>, k: Key) returns (i: nat)
    requires LastSeen(ins, k).Some?
    ensures i < |ins| && UsableFor(ins[i], k) && ins[i].clock.last == LastSeen(ins, k).value
    ensures forall q :: i < q < |ins| ==> !UsableFor(ins[q], k)
  {
    if UsableFor(ins[|ins| - 1], k) {
      i := |ins| - 1;
    } else {
      i := LatestRecord(ins[..|ins| - 1], k);
    }
  }

  lemma {:induction false} ComesLater(ins: seq<Input>, p: nat, slot: (Key, nat)) returns (m: nat)
    requires p <= |ins| && slot in Seen(ins) && slot !in Seen(ins[..p])
    ensures p <= m < |ins| && ins[m].Record? && SlotOf(ins[m].ev) == slot
  {
    SeenMembers(ins, slot);
    SeenMembers(ins[..p], slot);
    assert forall q :: 0 <= q < p ==> ins[..p][q] == ins[q];
    m :| 0 <= m < |ins| && ins[m].Record? && SlotOf(ins[m].ev) == slot;
  }

  /** A write with a record to come after record p was heard of within the TTL. */
  lemma {:induction false} HeardRecently(ins: seq<Input>, ttl: int, p: nat, k: Key, m: nat)
    requires NoIdle(ins, ttl) && p < m < |ins| && ins[p].Record? && ins[m].Record? && KeyOf(ins[m].ev) == k
    requires forall j :: 0 <= j <= p && ins[j].Record? ==> Usable(ins[j].ev)
    requires LastSeen(ins[..p + 1], k).Some?
    ensures ins[p].clock.now - LastSeen(ins[..p + 1], k).value <= ttl
  {
    var upto := ins[..p + 1];
    var i := LatestRecord(upto, k);
    assert forall q :: 0 <= q <= p ==> upto[q] == ins[q];
  }

  lemma {:induction false} StillMissing(t: map<Key, Entry>, seen: set<(Key, nat)>, k: Key, w: Write) returns (f: nat)
    requires KeyTracks(t, seen, k, w) && k in t
    ensures f < FragCount(w) && (k, f) !in seen
  {
    f :| f < FragCount(w) && (k, f) !in seen;
  }

  /** A write of the stream that misses a piece after record p has a record to come. */
  lemma {:induction false} RecordToCome(ins: seq<Input>, src: Key -> Write, keys: set<Key>, p: nat, k: Key,
          f: nat) returns (m: nat)
    requires OnceEach(ins, src, keys) && p <= |ins| && LastSeen(ins[..p], k).Some?
    requires f < FragCount(src(k)) && (k, f) !in Seen(ins[..p])
    ensures p <= m < |ins| && ins[m].Record? && KeyOf(ins[m].ev) == k
  {
    hide FragmentOf, Usable;
    var i := LatestRecord(ins[..p], k);
    assert ins[..p][i] == ins[i];
    m := ComesLater(ins, p, (k, f));
  }

  /** A write still in the table after record p was heard of within the TTL. */
  lemma {:induction false} StillWaiting(t0: int, cfg: Config, ins: seq<Input>, src: Key -> Write, keys: set<Key>,
          p: nat, k: Key)
    requires OnceEach(ins, src, keys) && NoIdle(ins, cfg.ttl) && p < |ins|
    requires var s := BeforeSweep(t0, cfg, ins[..p], ins[p].ev, ins[p].clock);
             k in s.table && Tracks(s, ins[..p + 1], src)
    ensures ins[p].clock.now
            - BeforeSweep(t0, cfg, ins[..p], ins[p].ev, ins[p].clock).table[k].lastAt <= cfg.ttl
  {
    hide BeforeSweep, NoIdle, FragmentOf, KeyTracks, LastSeen, Seen;
    var s, upto := BeforeSweep(t0, cfg, ins[..p], ins[p].ev, ins[p].clock), ins[..p + 1];
    assert upto == ins[..p] + [Record(ins[p].ev, ins[p].clock)];
    AcceptedLastSeen(t0, cfg, ins[..p], ins[p].ev, ins[p].clock, k);
    var f := StillMissing(s.table, Seen(upto), k, src(k));
    var m := RecordToCome(ins, src, keys, p + 1, k, f);
    HeardRecently(ins, cfg.ttl, p, k, m);
  }

  lemma {:induction false} NothingExpires(s: State, ttl: int, c: Clock)
    requires forall k :: k in s.table ==> c.now - s.table[k].lastAt <= ttl
    ensures MaybeSweep(s, ttl, c).table == s.table && MaybeSweep(s, ttl, c).emitted == s.emitted
  {
    assert Expired(s.table, ttl, c.now) == {};
  }

  lemma {:induction false} SameTableTracks(s: State, s': State, ins: seq<Input>, src: Key -> Write)
    requires Tracks(s, ins, src) && s'.table == s.table && s'.emitted == s.emitted
    ensures Tracks(s', ins, src)
  {
  }

  lemma {:induction false} NextIsNew(ins: seq<Input>, src: Key -> Write, keys: set<Key>, p: nat)
    requires OnceEach(ins, src, keys) && p < |ins|
    ensures ins[p].Record? && Usable(ins[p].ev) && FragmentOf(ins[p].ev, src(KeyOf(ins[p].ev)))
    ensures SlotOf(ins[p].ev) !in Seen(ins[..p])
  {
    hide Usable, FragmentOf;
    SeenMembers(ins[..p], SlotOf(ins[p].ev));
  }

  /** The table the sweep of the next record looks at has heard of what that record brings. */
  lemma {:induction false} NextAccepted(t0: int, cfg: Config, ins: seq<Input>, src: Key -> Write, keys: set<Key>,
          p: nat)
    requires OnceEach(ins, src, keys) && |ins| <= cfg.cap && p < |ins|
    requires Tracks(Run(Init(t0), cfg, ins[..p]), ins[..p], src)
    ensures ins[p].Record? && Tracks(BeforeSweep(t0, cfg, ins[..p], ins[p].ev, ins[p].clock), ins[..p + 1], src)
  {
    hide Run, Tracks, Seen, OnceEach, Usable, FragmentOf, Accept, SlotOf;
    NextIsNew(ins, src, keys, p);
    assert ins[..p + 1] == ins[..p] + [Record(ins[p].ev, ins[p].clock)];
    AcceptTracks(Run(Init(t0), cfg, ins[..p]), cfg.cap, ins[..p], src, ins[p].ev, ins[p].clock);
  }

  /** A run is its last record, accepted and followed by the sweep. */
  lemma {:induction false} RunNext(t0: int, cfg: Config, ins: seq<Input>, p: nat)
    requires p < |ins| && ins[p].Record? && Usable(ins[p].ev)
    ensures Run(Init(t0), cfg, ins[..p + 1])
            == MaybeSweep(BeforeSweep(t0, cfg, ins[..p], ins[p].ev, ins[p].clock), cfg.ttl, ins[p].clock)
  {
    assert ins[..p + 1][..p] == ins[..p];
    hide Accept, MaybeSweep;
  }

  lemma {:induction false} NextTracks(t0: int, cfg: Config, ins: seq<Input>, src: Key -> Write, keys: set<Key>,
          p: nat)
    requires OnceEach(ins, src, keys) && NoIdle(ins, cfg.ttl) && |ins| <= cfg.cap && p < |ins|
    requires Tracks(Run(Init(t0), cfg, ins[..p]), ins[..p], src)
    ensures Tracks(Run(Init(t0), cfg, ins[..p + 1]), ins[..p + 1], src)
  {
    hide Run, Accept, BeforeSweep, Tracks, OnceEach, NoIdle, MaybeSweep, Usable, FragmentOf, Seen;
    NextIsNew(ins, src, keys, p);
    var c := ins[p].clock;
    var a := BeforeSweep(t0, cfg, ins[..p], ins[p].ev, c);
    NextAccepted(t0, cfg, ins, src, keys, p);
    forall k | k in a.table
      ensures c.now - a.table[k].lastAt <= cfg.ttl
    {
      StillWaiting(t0, cfg, ins, src, keys, p, k);
    }
    NothingExpires(a, cfg.ttl, c);
    SameTableTracks(a, MaybeSweep(a, cfg.ttl, c), ins[..p + 1], src);
    RunNext(t0, cfg, ins, p);
  }

  lemma {:induction false} NothingTracks(t0: int, cfg: Config, src: Key -> Write)
    ensures Tracks(Run(Init(t0), cfg, []), [], src)
  {
  }

  lemma {:induction false} PrefixTracks(t0: int, cfg: Config, ins: seq<Input>, src: Key -> Write, keys: set<Key>,
          p: nat)
    requires OnceEach(ins, src, keys) && NoIdle(ins, cfg.ttl) && |ins| <= cfg.cap && p <= |ins|
    ensures Tracks(Run(Init(t0), cfg, ins[..p]), ins[..p], src)
  {
    hide Run, Tracks, OnceEach, NoIdle;
    if p == 0 {
      assert ins[..0] == [];
      NothingTracks(t0, cfg, src);
    } else {
      PrefixTracks(t0, cfg, ins, src, keys, p - 1);
      NextTracks(t0, cfg, ins, src, keys, p - 1);
    }
  }

  /** The keys of the events, in order. */
  function Keys(out: seq<CaptureEvent>): seq<Key> {
    if out == [] then [] else Keys(out[..|out| - 1]) + [EventKey(out[|out| - 1])]
  }

  lemma {:induction false} NextCompletion(ins: seq<Input>, src: Key -> Write)
    requires ins != [] && ins[|ins| - 1].Record? && FragmentOf(ins[|ins| - 1].ev, src(KeyOf(ins[|ins| - 1].ev)))
    requires AllExact(Completions(ins[..|ins| - 1], src), src)
    ensures var was, now, k := Completions(ins[..|ins| - 1], src), Completions(ins, src), KeyOf(ins[|ins| - 1].ev);
            && AllExact(now, src)
            && Keys(now) == Keys(was) + (if Whole(Seen(ins), k, src(k)) then [k] else [])
  {
    hide Whole;
    var ev := ins[|ins| - 1].ev;
    var was, now, w := Completions(ins[..|ins| - 1], src), Completions(ins, src), src(KeyOf(ev));
    if Whole(Seen(ins), KeyOf(ev), w) {
      assert now[..|now| - 1] == was;
      EmitFaithful(was, ExactEvent(w, ev.hookType), src);
    } else {
      assert now == was && Keys(was) + [] == Keys(was);
    }
  }

  lemma {:induction false} SlotElsewhere(seen: set<(Key, nat)>, p: (Key, nat), l: Key, w: Write)
    requires l != p.0
    ensures Touched(seen + {p}, l) <==> Touched(seen, l)
    ensures Whole(seen + {p}, l, w) <==> Whole(seen, l, w)
  {
    assert forall i: nat :: (l, i) in seen + {p} <==> (l, i) in seen;
  }

  /** The writes completed by a stream are emitted once each. */
  lemma {:induction false} CompletedOnce(ins: seq<Input>, src: Key -> Write)
    requires forall j :: 0 <= j < |ins| ==> ins[j].Record? && FragmentOf(ins[j].ev, src(KeyOf(ins[j].ev)))
    requires forall i, j :: 0 <= i < j < |ins| ==> SlotOf(ins[i].ev) != SlotOf(ins[j].ev)
    ensures NoDup(Keys(Completions(ins, src)))
    ensures forall k :: k in Keys(Completions(ins, src)) <==>
              Touched(Seen(ins), k) && Whole(Seen(ins), k, src(k))
    ensures AllExact(Completions(ins, src), src)
  {
    if ins == [] {
      assert forall k :: !Touched(Seen(ins), k);
    } else {
      var before, ev := ins[..|ins| - 1], ins[|ins| - 1].ev;
      var k, w, seen := KeyOf(ev), src(KeyOf(ev)), Seen(before);
      CompletedOnce(before, src);
      SeenMembers(before, SlotOf(ev));
      assert SlotOf(ev) !in seen && Seen(ins) == seen + {SlotOf(ev)};
      assert !Whole(seen, k, w);
      assert (k, ev.fragIdx as nat) in Seen(ins);
      assert Touched(Seen(ins), k);
      var was, now := Completions(before, src), Completions(ins, src);
      NextCompletion(ins, src);
      hide Completions, FragmentOf, AllExact;
      forall l
        ensures l in Keys(now) <==> Touched(Seen(ins), l) && Whole(Seen(ins), l, src(l))
      {
        if l != k {
          SlotElsewhere(seen, SlotOf(ev), l, src(l));
        }
      }
    }
  }

  /** With every fragment arriving once, room in the pool and no idle write, each write is
      emitted exactly once, at the record that brings its last missing fragment, with exactly its
      captured prefix; nothing else is emitted and nothing stays in the table. */
  lemma {:induction false} Complete(t0: int, cfg: Config, ins: seq<Input>, src: Key -> Write, keys: set<Key>)
    requires OnceEach(ins, src, keys) && NoIdle(ins, cfg.ttl) && |ins| <= cfg.cap
    ensures var s := Run(Init(t0), cfg, ins);
            && s.table == map[]
            && s.emitted == Completions(ins, src)
            && AllExact(s.emitted, src)
            && NoDup(Keys(s.emitted))
            && (forall k :: k in Keys(s.emitted) <==> k in keys)
  {
    PrefixTracks(t0, cfg, ins, src, keys, |ins|);
    assert ins[..|ins|] == ins;
    CompletedOnce(ins, src);
    var s := Run(Init(t0), cfg, ins);
    hide Run, Completions, FragmentOf, AllExact;
    forall k
      ensures (Touched(Seen(ins), k) <==> k in keys) && (k in keys ==> Whole(Seen(ins), k, src(k)))
    {
      if k in keys {
        assert (k, 0) in Seen(ins);
      }
      if i: nat :| (k, i) in Seen(ins) {
        SeenMembers(ins, (k, i));
      }
    }
    assert forall k :: k !in s.table by {
      forall k ensures k !in s.table {
        assert KeyTracks(s.table, Seen(ins), k, src(k));
      }
    }
  }

  // ---------------------------------------------------------------- order does not matter

  /** The events without the hook that happened to bring the last fragment. */
  function Strip(out: seq<CaptureEvent>): seq<CaptureEvent> {
    if out == [] then [] else Strip(out[..|out| - 1]) + [out[|out| - 1].(hookType := 0)]
  }

  function EventsOf(keys: seq<Key>, src: Key -> Write): seq<CaptureEvent> {
    if keys == [] then [] else EventsOf(keys[..|keys| - 1], src) + [ExactEvent(src(keys[|keys| - 1]), 0)]
  }

  lemma {:induction false} StripExact(out: seq<CaptureEvent>, src: Key -> Write)
    requires AllExact(out, src)
    ensures Strip(out) == EventsOf(Keys(out), src)
  {
    if out == [] {
    } else {
      StripExact(out[..|out| - 1], src);
      assert Keys(out)[..|Keys(out)| - 1] == Keys(out[..|out| - 1]);
    }
  }

  lemma {:induction false} EventsOfAdd(keys: seq<Key>, k: Key, src: Key -> Write)
    ensures multiset(EventsOf(keys + [k], src)) == multiset(EventsOf(keys, src)) + multiset{ExactEvent(src(k), 0)}
  {
    assert (keys + [k])[..|keys|] == keys;
  }

  lemma {:induction false} EventsOfRemove(keys: seq<Key>, src: Key -> Write, i: nat)
    requires i < |keys|
    ensures multiset(EventsOf(keys, src))
         == multiset(EventsOf(keys[..i] + keys[i + 1..], src)) + multiset{ExactEvent(src(keys[i]), 0)}
  {
    hide EventsOf;
    var n := |keys| - 1;
    var init, rest := keys[..n], keys[..i] + keys[i + 1..];
    assert keys == init + [keys[n]];
    EventsOfAdd(init, keys[n], src);
    if i == n {
      assert rest == init;
    } else {
      EventsOfRemove(init, src, i);
      assert rest == init[..i] + init[i + 1..] + [keys[n]];
      EventsOfAdd(init[..i] + init[i + 1..], keys[n], src);
    }
  }

  lemma {:induction false} HeadIn(s: seq<Key>)
    ensures s == [] || s[0] in s
  {
  }

  lemma {:induction false} RemoveAt(s: seq<Key>, i: nat)
    requires NoDup(s) && i < |s|
    ensures var rest := s[..i] + s[i + 1..];
            NoDup(rest) && forall k :: k in rest <==> k in s && k != s[i]
  {
    var rest := s[..i] + s[i + 1..];
    assert s == s[..i] + [s[i]] + s[i + 1..];
    assert forall j :: 0 <= j < |rest| ==> rest[j] == s[if j < i then j else j + 1];
  }

  lemma {:induction false} SameKeysSameEvents(a: seq<Key>, b: seq<Key>, src: Key -> Write)
    requires NoDup(a) && NoDup(b) && forall k :: k in a <==> k in b
    ensures multiset(EventsOf(a, src)) == multiset(EventsOf(b, src))
  {
    if a == [] {
      HeadIn(b);
    } else {
      var k, n := a[|a| - 1], |a| - 1;
      assert k in b;
      var i :| 0 <= i < |b| && b[i] == k;
      hide EventsOf;
      RemoveAt(a, n);
      RemoveAt(b, i);
      EventsOfRemove(a, src, n);
      EventsOfRemove(b, src, i);
      SameKeysSameEvents(a[..n] + a[n + 1..], b[..i] + b[i + 1..], src);
    }
  }

  /** Two streams that bring the same fragments, in any order and at any times short of idling,
      emit the same events as multisets. */
  lemma {:induction false} Confluent(t0: int, t0': int, cfg: Config, cfg': Config, ins: seq<Input>, ins': seq<Input>,
                  src: Key -> Write, keys: set<Key>)
    requires OnceEach(ins, src, keys) && NoIdle(ins, cfg.ttl) && |ins| <= cfg.cap
    requires OnceEach(ins', src, keys) && NoIdle(ins', cfg'.ttl) && |ins'| <= cfg'.cap
    ensures multiset(Strip(Run(Init(t0), cfg, ins).emitted)) == multiset(Strip(Run(Init(t0'), cfg', ins').emitted))
  {
    hide OnceEach, NoIdle, Run, Completions, AllExact;
    Complete(t0, cfg, ins, src, keys);
    Complete(t0', cfg', ins', src, keys);
    StripExact(Run(Init(t0), cfg, ins).emitted, src);
    StripExact(Run(Init(t0'), cfg', ins').emitted, src);
    SameKeysSameEvents(Keys(Run(Init(t0), cfg, ins).emitted), Keys(Run(Init(t0'), cfg', ins').emitted), src);
  }
}
