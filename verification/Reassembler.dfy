/** The read loop's reassembly table over pool chunks, proved to do exactly what
    `ReassemblySpec` says on every record and on every stream. */
module Reassemblers {
  import opened Base
  import opened ChunkPools
  import opened Spec = ReassemblySpec

  /** Who has a chunk: the free list, or one slot of one write. */
  datatype Owner = Free | HeldBy(key: Key, slot: nat)

  /** No chunk is lost, shared or listed twice: `owner` is a bijection between the chunks and
      the entries of the free list together with the filled slots. */
  ghost predicate Conserved(free: seq<int>, slots: map<Key, seq<int>>, owner: seq<Owner>) {
    && NoDup(free)
    && (forall j :: 0 <= j < |free| ==> 0 <= free[j] < |owner| && owner[free[j]] == Free)
    && (forall c :: 0 <= c < |owner| && owner[c].Free? ==> c in free)
    && (forall k, i :: k in slots && 0 <= i < |slots[k]| && slots[k][i] >= 0 ==>
          slots[k][i] < |owner| && owner[slots[k][i]] == HeldBy(k, i))
    && (forall c :: 0 <= c < |owner| && owner[c].HeldBy? ==>
          owner[c].key in slots && owner[c].slot < |slots[owner[c].key]|
          && slots[owner[c].key][owner[c].slot] == c)
  }

  lemma {:induction false} ConservedTake(free: seq<int>, slots: map<Key, seq<int>>, owner: seq<Owner>, k: Key, i: nat)
    requires Conserved(free, slots, owner)
    requires free != [] && k in slots && i < |slots[k]| && slots[k][i] < 0
    ensures Conserved(free[1..], slots[k := slots[k][i := free[0]]], owner[free[0] := HeldBy(k, i)])
  {
    var c := free[0];
    forall d | 0 <= d < |owner| && d != c && owner[d].Free?
      ensures d in free[1..]
    {
      assert d in free;
    }
  }

  lemma {:induction false} ConservedEmpty(free: seq<int>, slots: map<Key, seq<int>>, owner: seq<Owner>, k: Key, n: nat)
    requires Conserved(free, slots, owner) && k !in slots
    ensures Conserved(free, slots[k := seq(n, _ => -1)], owner)
  {
  }

  lemma {:induction false} ConservedRotate(free: seq<int>, slots: map<Key, seq<int>>, owner: seq<Owner>)
    requires Conserved(free, slots, owner) && free != []
    ensures Conserved(free[1..] + [free[0]], slots, owner)
  {
    var rotated := free[1..] + [free[0]];
    forall d | 0 <= d < |owner| && owner[d].Free?
      ensures d in rotated
    {
      assert d in free;
      assert free == [free[0]] + free[1..];
    }
  }

  /** The owners once write k has given its chunks back. */
  ghost function Disowned(owner: seq<Owner>, k: Key): seq<Owner> {
    seq(|owner|, c requires 0 <= c < |owner| => if owner[c].HeldBy? && owner[c].key == k then Free else owner[c])
  }

  lemma {:induction false} ConservedGiveBack(free: seq<int>, slots: map<Key, seq<int>>, owner: seq<Owner>, k: Key)
    requires Conserved(free, slots, owner) && k in slots
    ensures Conserved(free + ChunksIn(slots[k]), slots - {k}, Disowned(owner, k))
  {
    var back := ChunksIn(slots[k]);
    forall c: int
      ensures c in back <==> c >= 0 && c in slots[k]
    {
      ChunksInMembers(slots[k], c);
    }
    ChunksInNoDup(slots[k]);
    assert NoDup(free + back) by {
      forall i, j | 0 <= i < |free| && 0 <= j < |back|
        ensures free[i] != back[j]
      {
        assert back[j] in back;
      }
    }
    forall j | 0 <= j < |back|
      ensures 0 <= back[j] < |owner| && Disowned(owner, k)[back[j]] == Free
    {
      assert back[j] in back;
    }
  }

  lemma {:induction false} HeldSizes(slots: seq<int>, lens: seq<u16>, rows: seq<seq<byte>>)
    requires |slots| == |lens|
    ensures FragsOf(slots, lens, rows).Keys == FilledSlots(slots)
    ensures |FragsOf(slots, lens, rows)| == |FilledSlots(slots)| == |ChunksIn(slots)|
  {
    assert |FragsOf(slots, lens, rows)| == |FragsOf(slots, lens, rows).Keys|;
    ChunksInSize(slots);
  }

  /** The fields of one table entry and its slots, as a value. */
  datatype Snapshot = Snapshot(
    origLen: u32, totalLen: u32, truncated: bool, fragCnt: u32,
    idxs: seq<int>, lens: seq<u16>, firstAt: int, lastAt: int)
  {
    predicate Ok() {
      |idxs| == |lens| == fragCnt
    }

    ghost function AsEntry(rows: seq<seq<byte>>): Entry {
      Entry(origLen, totalLen, truncated, fragCnt, FragsOf(idxs, lens, rows), firstAt, lastAt)
    }
  }

  ghost function FreshSnapshot(ev: SslEvent, firstAt: int): Snapshot {
    Snapshot(ev.origLen, ev.totalLen, ev.truncated != 0, ev.fragCnt,
             seq(ev.fragCnt, _ => -1), seq(ev.fragCnt, _ => 0), firstAt, firstAt)
  }

  ghost function Merged(r: Snapshot, ev: SslEvent, lastAt: int): Snapshot {
    r.(lastAt := lastAt,
       origLen := Max(ev.origLen, r.origLen),
       totalLen := Max(ev.totalLen, r.totalLen),
       truncated := r.truncated || ev.truncated != 0)
  }

  /** The slot values of every live write. */
  ghost function SlotTable(snaps: map<Key, Snapshot>): map<Key, seq<int>> {
    map k | k in snaps :: snaps[k].idxs
  }

  /** The abstract table behind the slots and chunks. */
  ghost function AbsTable(snaps: map<Key, Snapshot>, rows: seq<seq<byte>>): map<Key, Entry> {
    map k | k in snaps :: snaps[k].AsEntry(rows)
  }

  /** Every chunk is accounted for, and the free chunks are those no fragment occupies. */
  ghost predicate Books(free: seq<int>, snaps: map<Key, Snapshot>, rows: seq<seq<byte>>, owner: seq<Owner>) {
    && (forall k :: k in snaps ==> snaps[k].Ok())
    && Conserved(free, SlotTable(snaps), owner)
    && |free| + |Held(AbsTable(snaps, rows))| == |owner| == |rows|
  }

  /** Replacing one snapshot replaces one abstract entry. */
  lemma {:induction false} AbsUpdate(snaps: map<Key, Snapshot>, rows: seq<seq<byte>>, k: Key, r: Snapshot, e: Entry)
    requires forall k :: k in snaps ==> snaps[k].Ok()
    requires r.Ok() && r.AsEntry(rows) == e
    ensures AbsTable(snaps[k := r], rows) == AbsTable(snaps, rows)[k := e]
    ensures SlotTable(snaps[k := r]) == SlotTable(snaps)[k := r.idxs]
    ensures |Held(AbsTable(snaps[k := r], rows))|
         == |Held(AbsTable(snaps, rows))| + |e.frags| - (if k in snaps then |snaps[k].AsEntry(rows).frags| else 0)
  {
    HeldUpdate(AbsTable(snaps, rows), k, e);
  }

  lemma {:induction false} AbsRemove(snaps: map<Key, Snapshot>, rows: seq<seq<byte>>, k: Key)
    requires forall k :: k in snaps ==> snaps[k].Ok()
    requires k in snaps
    ensures AbsTable(snaps - {k}, rows) == AbsTable(snaps, rows) - {k}
    ensures SlotTable(snaps - {k}) == SlotTable(snaps) - {k}
    ensures |Held(AbsTable(snaps - {k}, rows))| + |ChunksIn(snaps[k].idxs)| == |Held(AbsTable(snaps, rows))|
  {
    HeldRemove(AbsTable(snaps, rows), k);
    HeldSizes(snaps[k].idxs, snaps[k].lens, rows);
    assert AbsTable(snaps - {k}, rows) == AbsTable(snaps, rows) - {k};
  }

  /** Rewriting a chunk that no slot names changes no entry. */
  lemma {:induction false} AbsOverwrite(snaps: map<Key, Snapshot>, rows: seq<seq<byte>>, c: nat, row: seq<byte>)
    requires forall k :: k in snaps ==> snaps[k].Ok()
    requires c < |rows| && forall k :: k in snaps ==> c !in snaps[k].idxs
    ensures AbsTable(snaps, rows[c := row]) == AbsTable(snaps, rows)
  {
    forall k | k in snaps
      ensures snaps[k].AsEntry(rows[c := row]) == snaps[k].AsEntry(rows)
    {
      assert FragsOf(snaps[k].idxs, snaps[k].lens, rows[c := row]) == FragsOf(snaps[k].idxs, snaps[k].lens, rows);
    }
  }

  ghost function OpenSnapshot(snaps: map<Key, Snapshot>, ev: SslEvent, c: Clock): Snapshot {
    var k := KeyOf(ev);
    Merged(if k in snaps then snaps[k] else FreshSnapshot(ev, c.first), ev, c.last)
  }

  lemma {:induction false} OpenAsEntry(snaps: map<Key, Snapshot>, rows: seq<seq<byte>>, ev: SslEvent, c: Clock)
    requires forall k :: k in snaps ==> snaps[k].Ok()
    ensures OpenSnapshot(snaps, ev, c).Ok()
    ensures OpenSnapshot(snaps, ev, c).AsEntry(rows) == EntryFor(AbsTable(snaps, rows), ev, c)
    ensures KeyOf(ev) !in snaps ==> OpenSnapshot(snaps, ev, c).AsEntry(rows).frags == map[]
  {
    var r := OpenSnapshot(snaps, ev, c);
    if KeyOf(ev) !in snaps {
      assert FragsOf(r.idxs, r.lens, rows) == map[];
    }
  }

  lemma {:induction false} BooksOpen(free: seq<int>, snaps: map<Key, Snapshot>, rows: seq<seq<byte>>, owner: seq<Owner>,
                  ev: SslEvent, c: Clock)
    requires Books(free, snaps, rows, owner)
    ensures var snaps' := snaps[KeyOf(ev) := OpenSnapshot(snaps, ev, c)];
            && Books(free, snaps', rows, owner)
            && AbsTable(snaps', rows) == AbsTable(snaps, rows)[KeyOf(ev) := EntryFor(AbsTable(snaps, rows), ev, c)]
  {
    var k, r := KeyOf(ev), OpenSnapshot(snaps, ev, c);
    OpenAsEntry(snaps, rows, ev, c);
    hide Conserved, Held, EntryFor, FragsOf;
    if k in snaps {
      assert SlotTable(snaps)[k := r.idxs] == SlotTable(snaps);
    } else {
      ConservedEmpty(free, SlotTable(snaps), owner, k, ev.fragCnt);
    }
    AbsUpdate(snaps, rows, k, r, EntryFor(AbsTable(snaps, rows), ev, c));
  }

  /** The chunks of a write fit back on the free list, so no release is refused. */
  lemma {:induction false} BooksDrop(free: seq<int>, snaps: map<Key, Snapshot>, rows: seq<seq<byte>>,
          owner: seq<Owner>, k: Key)
    requires Books(free, snaps, rows, owner) && k in snaps
    ensures forall i :: 0 <= i < |snaps[k].idxs| ==> snaps[k].idxs[i] < |owner|
    ensures |free| + |ChunksIn(snaps[k].idxs)| <= |owner|
    ensures Books(PushAll(free, snaps[k].idxs, |owner|), snaps - {k}, rows, Disowned(owner, k))
    ensures AbsTable(snaps - {k}, rows) == AbsTable(snaps, rows) - {k}
  {
    assert SlotTable(snaps)[k] == snaps[k].idxs;
    AbsRemove(snaps, rows, k);
    PushAllFits(free, snaps[k].idxs, |owner|);
    ConservedGiveBack(free, SlotTable(snaps), owner, k);
  }

  /** The chunk at the head of the free list belongs to no write. */
  lemma {:induction false} HeadIsFree(free: seq<int>, snaps: map<Key, Snapshot>, owner: seq<Owner>)
    requires Conserved(free, SlotTable(snaps), owner) && free != []
    ensures 0 <= free[0] < |owner| && forall k :: k in snaps ==> free[0] !in snaps[k].idxs
  {
    forall k, i | k in snaps && 0 <= i < |snaps[k].idxs|
      ensures snaps[k].idxs[i] != free[0]
    {
      assert SlotTable(snaps)[k][i] == snaps[k].idxs[i];
    }
  }

  lemma {:induction false} BooksRefuse(free: seq<int>, snaps: map<Key, Snapshot>, rows: seq<seq<byte>>,
          owner: seq<Owner>,
                    row: seq<byte>)
    requires Books(free, snaps, rows, owner) && free != []
    ensures Books(free[1..] + [free[0]], snaps, rows[free[0] := row], owner)
    ensures AbsTable(snaps, rows[free[0] := row]) == AbsTable(snaps, rows)
  {
    HeadIsFree(free, snaps, owner);
    AbsOverwrite(snaps, rows, free[0], row);
    ConservedRotate(free, SlotTable(snaps), owner);
  }

  ghost function Filled(r: Snapshot, i: nat, c: int, n: u16): Snapshot
    requires r.Ok() && i < |r.idxs|
  {
    r.(idxs := r.idxs[i := c], lens := r.lens[i := n])
  }

  lemma {:induction false} AbsStore(snaps: map<Key, Snapshot>, rows: seq<seq<byte>>, k: Key, i: nat, c: nat,
          n: u16, row: seq<byte>)
    requires forall k :: k in snaps ==> snaps[k].Ok()
    requires c < |rows| && forall k :: k in snaps ==> c !in snaps[k].idxs
    requires k in snaps && i < |snaps[k].idxs| && snaps[k].idxs[i] < 0 && n <= |row|
    ensures var e := AbsTable(snaps, rows)[k];
            var snaps' := snaps[k := Filled(snaps[k], i, c, n)];
            && AbsTable(snaps', rows[c := row]) == AbsTable(snaps, rows)[k := e.(frags := e.frags[i := row[..n]])]
            && SlotTable(snaps') == SlotTable(snaps)[k := snaps[k].idxs[i := c]]
            && |Held(AbsTable(snaps', rows[c := row]))| == |Held(AbsTable(snaps, rows))| + 1
  {
    var e := AbsTable(snaps, rows)[k];
    var rows' := rows[c := row];
    var r' := Filled(snaps[k], i, c, n);
    AbsOverwrite(snaps, rows, c, row);
    assert snaps[k].AsEntry(rows') == AbsTable(snaps, rows')[k] == e;
    assert FragsOf(r'.idxs, r'.lens, rows') == e.frags[i := row[..n]];
    AbsUpdate(snaps, rows', k, r', e.(frags := e.frags[i := row[..n]]));
  }

  lemma {:induction false} BooksStore(free: seq<int>, snaps: map<Key, Snapshot>, rows: seq<seq<byte>>,
          owner: seq<Owner>,
                   k: Key, i: nat, n: u16, row: seq<byte>)
    requires Books(free, snaps, rows, owner) && free != []
    requires k in snaps && i < |snaps[k].idxs| && snaps[k].idxs[i] < 0 && n <= |row|
    ensures var c := free[0]; var e := AbsTable(snaps, rows)[k];
            var snaps' := snaps[k := Filled(snaps[k], i, c, n)];
            && c < |rows| == |owner|
            && Books(free[1..], snaps', rows[c := row], owner[c := HeldBy(k, i)])
            && AbsTable(snaps', rows[c := row]) == AbsTable(snaps, rows)[k := e.(frags := e.frags[i := row[..n]])]
  {
    HeadIsFree(free, snaps, owner);
    AbsStore(snaps, rows, k, i, free[0], n, row);
    ConservedTake(free, SlotTable(snaps), owner, k, i);
  }

  datatype StoreResult = Stored | Exhausted | Refused

  /** What a chunk contains after the piece of a record was copied into it. */
  ghost function RowOf(ev: SslEvent): seq<byte> {
    ev.payload[..UsableLen(ev)] + Zeros(CHUNK_SIZE - UsableLen(ev))
  }

  datatype ReassemblyState = ReassemblyState(
    origLen: u32, totalLen: u32, truncated: bool, fragCnt: u32,
    slots: FragSlots, firstAt: int, lastAt: int)
  {
    /** What the header of every record, duplicates included, does to its entry. */
    method Merge(ev: SslEvent, now: int) returns (st: ReassemblyState)
      ensures st == this.(lastAt := now,
                          origLen := Max(ev.origLen, origLen),
                          totalLen := Max(ev.totalLen, totalLen),
                          truncated := truncated || ev.truncated != 0)
    {
      st := this.(lastAt := now);
      if ev.origLen > st.origLen {
        st := st.(origLen := ev.origLen);
      }
      if ev.totalLen > st.totalLen {
        st := st.(totalLen := ev.totalLen);
      }
      if ev.truncated != 0 {
        st := st.(truncated := true);
      }
    }

    ghost predicate Is(r: Snapshot)
      reads slots
    {
      && slots.Valid()
      && r == Snapshot(origLen, totalLen, truncated, fragCnt, slots.idxs, slots.lens, firstAt, lastAt)
    }
  }

  /** The snapshot of one write is determined by its state. */
  lemma {:induction false} IsSnapshot(st: ReassemblyState, r: Snapshot)
    ensures st.Is(r) <==> st.slots.Valid() && r == Snapshot(
      st.origLen, st.totalLen, st.truncated, st.fragCnt, st.slots.idxs, st.slots.lens, st.firstAt, st.lastAt)
  {
  }

  lemma {:induction false} BooksFiled(free: seq<int>, snaps: map<Key, Snapshot>, rows: seq<seq<byte>>,
          owner: seq<Owner>,
                   k: Key, ev: SslEvent, snaps': map<Key, Snapshot>, rows': seq<seq<byte>>)
    requires Books(free, snaps, rows, owner) && free != []
    requires 0 <= free[0] < |rows| && rows' == rows[free[0] := RowOf(ev)]
    requires k in snaps && ev.fragIdx < |snaps[k].idxs| && snaps[k].idxs[ev.fragIdx] < 0
    requires snaps' == snaps[k := Filled(snaps[k], ev.fragIdx, free[0], UsableLen(ev))]
    ensures |owner| == |rows|
    ensures Books(free[1..], snaps', rows', owner[free[0] := HeldBy(k, ev.fragIdx)])
    ensures AbsTable(snaps', rows') == AbsTable(snaps, rows)[k := WithPiece(AbsTable(snaps, rows)[k], ev)]
  {
    assert RowOf(ev)[..UsableLen(ev)] == Piece(ev);
    BooksStore(free, snaps, rows, owner, k, ev.fragIdx, UsableLen(ev), RowOf(ev));
  }

  lemma {:induction false} NothingHeld(free: seq<int>, snaps: map<Key, Snapshot>, rows: seq<seq<byte>>,
          owner: seq<Owner>)
    requires Books(free, snaps, rows, owner) && snaps.Keys == {}
    ensures AbsTable(snaps, rows) == map[]
    ensures |free| == |rows| && NoDup(free)
    ensures forall c :: 0 <= c < |rows| ==> c in free
  {
    assert AbsTable(snaps, rows) == map[];
    assert Held(AbsTable(snaps, rows)) == {};
    forall c | 0 <= c < |rows|
      ensures c in free
    {
      assert owner[c].Free?;
    }
  }

  /** The table once a sweep has only the keys in `rest` left to look at. */
  ghost function Swept(t: map<Key, Entry>, ttl: int, now: int, rest: set<Key>): map<Key, Entry> {
    t - (Expired(t, ttl, now) - rest)
  }

  ghost function SweptCount(t: map<Key, Entry>, ttl: int, now: int, rest: set<Key>): nat {
    |Expired(t, ttl, now) - rest|
  }

  lemma {:induction false} SweepEnds(t: map<Key, Entry>, ttl: int, now: int)
    ensures Swept(t, ttl, now, t.Keys) == t && SweptCount(t, ttl, now, t.Keys) == 0
    ensures Swept(t, ttl, now, {}) == t - Expired(t, ttl, now)
    ensures SweptCount(t, ttl, now, {}) == |Expired(t, ttl, now)|
  {
    assert Expired(t, ttl, now) - t.Keys == {};
    assert Expired(t, ttl, now) - {} == Expired(t, ttl, now);
  }

  /** Visiting one more key deletes it if it is idle, and changes nothing otherwise. */
  lemma {:induction false} SweepStep(t: map<Key, Entry>, ttl: int, now: int, rest: set<Key>, k: Key)
    requires k in rest && rest <= t.Keys
    ensures k in Swept(t, ttl, now, rest)
    ensures var idle := now - Swept(t, ttl, now, rest)[k].lastAt > ttl;
            && Swept(t, ttl, now, rest - {k}) == Swept(t, ttl, now, rest) - (if idle then {k} else {})
            && SweptCount(t, ttl, now, rest - {k}) == SweptCount(t, ttl, now, rest) + (if idle then 1 else 0)
  {
    var gone := Expired(t, ttl, now) - rest;
    assert Expired(t, ttl, now) - (rest - {k}) == gone + (if now - t[k].lastAt > ttl then {k} else {});
  }

  /** The slot objects and their value mirror agree, and no two writes share slots. */
  ghost predicate ShapeOf(table: map<Key, ReassemblyState>, snaps: map<Key, Snapshot>, slotObjs: set<FragSlots>)
    reads slotObjs
  {
    && table.Keys == snaps.Keys
    && (forall k :: k in table ==> table[k].slots in slotObjs && table[k].Is(snaps[k]))
    && (forall k, l :: k in table && l in table && k != l ==> table[k].slots != table[l].slots)
  }

  lemma {:induction false} ShapeUpdate(table: map<Key, ReassemblyState>, snaps: map<Key, Snapshot>,
          slotObjs: set<FragSlots>, k: Key, st: ReassemblyState, r: Snapshot)
    requires ShapeOf(table, snaps, slotObjs) && st.slots in slotObjs && st.Is(r)
    requires forall l :: l in table && l != k ==> table[l].slots != st.slots
    ensures ShapeOf(table[k := st], snaps[k := r], slotObjs)
  {
    hide ReassemblyState.Is;
  }

  class Reassembler {
    const pool: ChunkPool
    const ttl: int
    var table: map<Key, ReassemblyState>
    var lastCleanup: int
    var emitted: seq<CaptureEvent>
    var drops: nat
    var timeouts: nat
    ghost var sweeps: seq<Sweep>
    /** The table and its slots as values. */
    ghost var snaps: map<Key, Snapshot>
    ghost var owner: seq<Owner>
    ghost var slotObjs: set<FragSlots>

    ghost predicate Shaped()
      reads `table, `snaps, `slotObjs, slotObjs
    {
      ShapeOf(table, snaps, slotObjs)
    }

    ghost predicate Valid()
      reads `table, `snaps, `slotObjs, `owner, pool, pool.chunks, slotObjs
    {
      && Shaped() && pool.Valid() && pool.refused == 0
      && Books(pool.free, snaps, pool.rows, owner)
    }

    ghost function Entries(): map<Key, Entry>
      reads `snaps, pool`rows
    {
      AbsTable(snaps, pool.rows)
    }

    /** The abstract state. */
    ghost function Abs(): State
      reads this, pool
    {
      State(Entries(), lastCleanup, emitted, drops, sweeps)
    }

    constructor (poolBytes: int, ttl: int, t0: int)
      ensures Valid() && fresh(pool) && fresh(pool.chunks) && slotObjs == {}
      ensures Abs() == Init(t0) && this.ttl == ttl && timeouts == 0
      ensures pool.Cap() >= 1024
    {
      pool := new ChunkPool(poolBytes);
      this.ttl, table, lastCleanup := ttl, map[], t0;
      emitted, drops, timeouts, sweeps := [], 0, 0, [];
      snaps, slotObjs := map[], {};
      new;
      owner := seq(pool.Cap(), _ => Free);
      assert Held(AbsTable(snaps, pool.rows)) == {};
      forall c | 0 <= c < |owner| ensures c in pool.free {
        assert pool.free[c] == c;
      }
    }

    /** Finds or creates the state of the record's key and merges the record's header into it. */
    method StateFor(ev: SslEvent, c: Clock) returns (st: ReassemblyState)
      requires Shaped()
      modifies `slotObjs
      ensures Shaped() && fresh(slotObjs - old(slotObjs)) && st.slots in slotObjs
      ensures st.Is(OpenSnapshot(snaps, ev, c))
      ensures forall l :: l in table && l != KeyOf(ev) ==> table[l].slots != st.slots
    {
      var key := KeyOf(ev);
      if key in table {
        st := table[key];
      } else {
        var slots := new FragSlots(ev.fragCnt);
        st := ReassemblyState(ev.origLen, ev.totalLen, ev.truncated != 0, ev.fragCnt, slots, c.first, c.first);
        slotObjs := slotObjs + {slots};
      }
      st := st.Merge(ev, c.last);
    }

    method Upsert(ev: SslEvent, c: Clock)
      requires Shaped()
      modifies `table, `snaps, `slotObjs
      ensures Shaped() && fresh(slotObjs - old(slotObjs)) && KeyOf(ev) in table
      ensures snaps == old(snaps)[KeyOf(ev) := OpenSnapshot(old(snaps), ev, c)]
    {
      hide ShapeOf, ReassemblyState.Is, OpenSnapshot;
      var st := StateFor(ev, c);
      ShapeUpdate(table, snaps, slotObjs, KeyOf(ev), st, OpenSnapshot(snaps, ev, c));
      snaps := snaps[KeyOf(ev) := OpenSnapshot(snaps, ev, c)];
      table := table[KeyOf(ev) := st];
    }

    /** Files an allocated chunk under the slot of its fragment; refuses a slot that is not there. */
    method FillSlot(key: Key, fragIdx: u32, poolIdx: int, n: u16) returns (isNew: bool)
      requires Shaped() && key in table && snaps[key].Ok() && poolIdx >= 0
      modifies `snaps, table[key].slots
      ensures Shaped()
      ensures isNew <==> fragIdx < |old(snaps)[key].idxs| && old(snaps)[key].idxs[fragIdx] < 0
      ensures isNew ==> snaps == old(snaps)[key := Filled(old(snaps)[key], fragIdx, poolIdx, n)]
      ensures !isNew ==> snaps == old(snaps)
    {
      hide ReassemblyState.Is;
      IsSnapshot(table[key], snaps[key]);
      isNew := table[key].slots.Put(fragIdx, poolIdx, n);
      if isNew {
        snaps := snaps[key := Filled(snaps[key], fragIdx, poolIdx, n)];
      }
      IsSnapshot(table[key], snaps[key]);
    }

    /** Returns the chunks of one write to the pool and deletes its entry. */
    method Delete(key: Key)
      requires Shaped() && key in table && pool.Valid()
      requires forall i :: 0 <= i < |snaps[key].idxs| ==> snaps[key].idxs[i] < pool.Cap()
      modifies `table, `snaps, pool`free, pool`refused, table[key].slots
      ensures Shaped() && pool.Valid() && table == old(table) - {key}
      ensures snaps == old(snaps) - {key}
      ensures pool.free == PushAll(old(pool.free), old(snaps)[key].idxs, pool.Cap())
      ensures |old(pool.free)| + |ChunksIn(old(snaps)[key].idxs)| <= pool.Cap() ==> pool.refused == old(pool.refused)
    {
      table[key].slots.ReleaseAll(pool);
      table := table - {key};
      snaps := snaps - {key};
    }

    /** Gives up or finishes one write. */
    method Forget(key: Key)
      requires Valid() && key in table
      modifies `table, `snaps, `owner, pool`free, pool`refused, table[key].slots
      ensures Valid() && table == old(table) - {key}
      ensures Entries() == old(Entries()) - {key}
    {
      hide Books, AbsTable;
      BooksDrop(pool.free, snaps, pool.rows, owner, key);
      owner := Disowned(owner, key);
      Delete(key);
    }

    /** The entry of the record's key, created if need be and merged with the record's header. */
    method Open(ev: SslEvent, c: Clock)
      requires Valid()
      modifies `table, `snaps, `slotObjs
      ensures Valid() && fresh(slotObjs - old(slotObjs)) && KeyOf(ev) in table
      ensures Entries() == old(Entries())[KeyOf(ev) := EntryFor(old(Entries()), ev, c)]
    {
      hide Books, AbsTable;
      BooksOpen(pool.free, snaps, pool.rows, owner, ev, c);
      Upsert(ev, c);
    }

    /** A chunk has been taken from the free list and filled, but not yet put anywhere. */
    ghost predicate Pending(ev: SslEvent, poolIdx: int, free0: seq<int>, snaps0: map<Key, Snapshot>,
            rows0: seq<seq<byte>>)
      reads `owner, pool, pool.chunks
    {
      && pool.Valid() && pool.refused == 0 && Books(free0, snaps0, rows0, owner)
      && free0 != [] && poolIdx == free0[0] && pool.free == free0[1..]
      && 0 <= poolIdx < |rows0| && pool.rows == rows0[poolIdx := RowOf(ev)]
    }

    /** Returns a chunk just taken: it goes to the back of the free list. */
    method PutBack(ev: SslEvent, poolIdx: int, ghost free0: seq<int>, ghost rows0: seq<seq<byte>>)
      requires Shaped() && Pending(ev, poolIdx, free0, snaps, rows0)
      modifies pool`free, pool`refused
      ensures Valid() && Entries() == AbsTable(snaps, rows0)
    {
      assert |free0| <= |rows0|;
      hide Books, AbsTable;
      BooksRefuse(free0, snaps, rows0, owner, RowOf(ev));
      pool.Release(poolIdx);
    }

    /** Records the new owner of a chunk just filed under a slot. */
    ghost method Credit(key: Key, ev: SslEvent, poolIdx: int,
                        free0: seq<int>, snaps0: map<Key, Snapshot>, rows0: seq<seq<byte>>)
      requires Shaped() && Pending(ev, poolIdx, free0, snaps0, rows0)
      requires key in snaps0 && ev.fragIdx < |snaps0[key].idxs| && snaps0[key].idxs[ev.fragIdx] < 0
      requires snaps == snaps0[key := Filled(snaps0[key], ev.fragIdx, poolIdx, UsableLen(ev))]
      modifies `owner
      ensures Valid()
      ensures Entries() == AbsTable(snaps0, rows0)[key := WithPiece(AbsTable(snaps0, rows0)[key], ev)]
    {
      hide Books, AbsTable;
      BooksFiled(free0, snaps0, rows0, owner, key, ev, snaps, pool.rows);
      owner := owner[poolIdx := HeldBy(key, ev.fragIdx)];
    }

    lemma {:induction false} SlotReady(key: Key, i: nat, ev: SslEvent, poolIdx: int, free: seq<int>,
            rows: seq<seq<byte>>)
      requires Shaped() && Pending(ev, poolIdx, free, snaps, rows) && key in table
      requires i !in AbsTable(snaps, rows)[key].frags
      ensures poolIdx >= 0
      ensures key in snaps && snaps[key].Ok() && key in AbsTable(snaps, rows)
      ensures AbsTable(snaps, rows)[key].fragCnt == |snaps[key].idxs|
      ensures i < |snaps[key].idxs| ==> snaps[key].idxs[i] < 0
    {
    }

    /** Puts the chunk just taken from the free list under its slot, or back when there is no such slot. */
    method FileChunk(key: Key, ev: SslEvent, poolIdx: int, ghost free0: seq<int>, ghost rows0: seq<seq<byte>>)
      returns (isNew: bool)
      requires Shaped() && Pending(ev, poolIdx, free0, snaps, rows0)
      requires key in table && ev.fragIdx !in AbsTable(snaps, rows0)[key].frags
      modifies `snaps, `owner, pool`free, pool`refused, table[key].slots
      ensures Valid()
      ensures isNew <==> ev.fragIdx < AbsTable(old(snaps), rows0)[key].fragCnt
      ensures isNew ==> Entries() == AbsTable(old(snaps), rows0)[key := WithPiece(AbsTable(old(snaps), rows0)[key], ev)]
      ensures !isNew ==> Entries() == AbsTable(old(snaps), rows0)
    {
      hide *;
      ghost var snaps0 := snaps;
      SlotReady(key, ev.fragIdx, ev, poolIdx, free0, rows0);
      isNew := FillSlot(key, ev.fragIdx, poolIdx, UsableLen(ev));
      if isNew {
        Credit(key, ev, poolIdx, free0, snaps0, rows0);
      } else {
        PutBack(ev, poolIdx, free0, rows0);
      }
    }

    /** Copies a piece into the chunk at the head of the free list. */
    method TakeChunk(ev: SslEvent) returns (poolIdx: int)
      requires pool.Valid()
      modifies pool, pool.chunks
      ensures pool.Valid() && pool.refused == old(pool.refused)
      ensures old(pool.free) == [] ==> poolIdx == -1 && pool.free == [] && pool.rows == old(pool.rows)
      ensures old(pool.free) != [] ==> && poolIdx == old(pool.free)[0] && pool.free == old(pool.free)[1..]
                                       && pool.rows == old(pool.rows)[poolIdx := RowOf(ev)]
    {
      var src := ev.payload[..UsableLen(ev)];
      assert src[..|src|] == src;
      poolIdx := pool.Alloc(src);
    }

    /** Stores one piece that is not there yet, or finds out why it cannot be stored. */
    method StorePiece(key: Key, ev: SslEvent) returns (res: StoreResult)
      requires Valid() && key in table && ev.fragIdx !in Entries()[key].frags
      modifies `snaps, `owner, pool, pool.chunks, table[key].slots
      ensures Valid()
      ensures res.Exhausted? <==> |Held(old(Entries()))| >= pool.Cap()
      ensures !res.Exhausted? ==> (res.Stored? <==> ev.fragIdx < old(Entries())[key].fragCnt)
      ensures res.Stored? ==> Entries() == old(Entries())[key := WithPiece(old(Entries())[key], ev)]
      ensures !res.Stored? ==> Entries() == old(Entries())
    {
      ghost var free0, rows0 := pool.free, pool.rows;
      assert pool.free == [] <==> |Held(Entries())| >= pool.Cap();
      hide Books, AbsTable;
      var poolIdx := TakeChunk(ev);
      if poolIdx < 0 {
        return Exhausted;
      }
      var isNew := FileChunk(key, ev, poolIdx, free0, rows0);
      res := if isNew then Stored else Refused;
    }

    /** The event of a write none of whose pieces is missing. With every slot filled, assembling
        cannot fail. */
    method Completed(ev: SslEvent) returns (res: Option<CaptureEvent>)
      requires Valid() && KeyOf(ev) in table && table[KeyOf(ev)].fragCnt > 0
      ensures KeyOf(ev) in Entries()
      ensures Finish(Entries(), ev) == if res.None? then Outcome(Entries(), [], 0)
                                       else Outcome(Entries() - {KeyOf(ev)}, [res.value], 0)
    {
      var st := table[KeyOf(ev)];
      ghost var snap := snaps[KeyOf(ev)];
      HeldSizes(snap.idxs, snap.lens, pool.rows);
      var done := st.slots.Complete();
      if !done {
        return None;
      }
      var out := st.slots.Assemble(pool, st.totalLen);
      assert out.Some?;
      res := Some(CaptureEvent(ev.pid, ev.tid, ev.callId, st.origLen, ToU32(|out.value|),
                               st.truncated, ev.hookType, out.value));
    }

    lemma {:induction false} EntryShape(key: Key)
      requires Valid() && key in table
      ensures key in Entries() && Entries()[key].fragCnt == table[key].fragCnt
      ensures Entries()[key].lastAt == table[key].lastAt && table[key].slots in slotObjs
    {
    }

    /** Emits and forgets the write if its last missing piece has arrived. */
    method FinishIfComplete(ev: SslEvent)
      requires Valid() && KeyOf(ev) in table && table[KeyOf(ev)].fragCnt > 0
      modifies `table, `snaps, `owner, `emitted, pool`free, pool`refused, table[KeyOf(ev)].slots
      ensures Valid()
      ensures KeyOf(ev) in old(Entries())
      ensures Entries() == Finish(old(Entries()), ev).table
      ensures emitted == old(emitted) + Finish(old(Entries()), ev).out
    {
      hide Books, AbsTable, Finish;
      var res := Completed(ev);
      if res.Some? {
        Forget(KeyOf(ev));
        emitted := emitted + [res.value];
      }
    }

    method HasPiece(key: Key, fragIdx: u32) returns (b: bool)
      requires Valid() && key in table
      ensures b <==> fragIdx in Entries()[key].frags
    {
      b := table[key].slots.Has(fragIdx);
    }

    /** Stores a new piece of a record whose entry is open. */
    method PlaceNewPiece(ev: SslEvent)
      requires Valid() && KeyOf(ev) in table && ev.fragIdx !in Entries()[KeyOf(ev)].frags
      modifies `table, `snaps, `owner, `emitted, `drops, pool, pool.chunks, table[KeyOf(ev)].slots
      ensures Valid()
      ensures KeyOf(ev) in old(Entries())
      ensures Entries() == PlaceNew(old(Entries()), pool.Cap(), ev).table
      ensures emitted == old(emitted) + PlaceNew(old(Entries()), pool.Cap(), ev).out
      ensures drops == old(drops) + PlaceNew(old(Entries()), pool.Cap(), ev).lost
    {
      hide Valid, Books, AbsTable, Finish, Held, WithPiece;
      EntryShape(KeyOf(ev));
      var res := StorePiece(KeyOf(ev), ev);
      match res
      case Exhausted =>
        drops := drops + 1;
        Forget(KeyOf(ev));
      case Refused =>
      case Stored =>
        FinishIfComplete(ev);
    }

    /** Stores the piece of a record whose entry is open, unless it is a duplicate. */
    method PlacePiece(ev: SslEvent)
      requires Valid() && KeyOf(ev) in table
      modifies `table, `snaps, `owner, `emitted, `drops, pool, pool.chunks, table[KeyOf(ev)].slots
      ensures Valid()
      ensures KeyOf(ev) in old(Entries())
      ensures Entries() == Place(old(Entries()), pool.Cap(), ev).table
      ensures emitted == old(emitted) + Place(old(Entries()), pool.Cap(), ev).out
      ensures drops == old(drops) + Place(old(Entries()), pool.Cap(), ev).lost
    {
      hide Valid, Books, AbsTable, PlaceNew;
      EntryShape(KeyOf(ev));
      var has := HasPiece(KeyOf(ev), ev.fragIdx);
      if !has {
        PlaceNewPiece(ev);
      }
    }

    /** The part of the read loop before the cleanup label, for a record not discarded on sight. */
    method Accept(ev: SslEvent, c: Clock)
      requires Valid()
      modifies `table, `snaps, `slotObjs, `owner, `emitted, `drops, pool, pool.chunks, slotObjs
      ensures Valid() && fresh(slotObjs - old(slotObjs))
      ensures Abs() == Spec.Accept(old(Abs()), pool.Cap(), ev, c)
    {
      hide Books, AbsTable, Place;
      Open(ev, c);
      PlacePiece(ev);
    }

    lemma {:induction false} KeysAgree()
      requires Valid()
      ensures table.Keys == Entries().Keys
    {
    }

    /** Gives up one write if it has been idle for longer than the TTL. */
    method ExpireEntry(k: Key, now: int) returns (expired: bool)
      requires Valid() && k in table
      modifies `table, `snaps, `owner, `timeouts, pool`free, pool`refused, table[k].slots
      ensures Valid()
      ensures k in old(Entries()) && (expired <==> now - old(Entries())[k].lastAt > ttl)
      ensures Entries() == old(Entries()) - (if expired then {k} else {})
      ensures table == old(table) - (if expired then {k} else {})
      ensures timeouts == old(timeouts) + (if expired then 1 else 0)
    {
      hide Books, AbsTable;
      EntryShape(k);
      expired := now - table[k].lastAt > ttl;
      if expired {
        Forget(k);
        timeouts := timeouts + 1;
      }
    }

    /** One turn of the sweep. */
    method SweepOne(k: Key, now: int, ghost t0: map<Key, Entry>, ghost rest: set<Key>)
      requires Valid() && k in rest && rest <= table.Keys && rest <= t0.Keys
      requires Entries() == Swept(t0, ttl, now, rest)
      modifies `table, `snaps, `owner, `timeouts, pool, slotObjs
      ensures Valid() && rest - {k} <= table.Keys
      ensures Entries() == Swept(t0, ttl, now, rest - {k})
      ensures timeouts - SweptCount(t0, ttl, now, rest - {k}) == old(timeouts) - SweptCount(t0, ttl, now, rest)
    {
      hide Books, AbsTable, Expired, Swept, SweptCount;
      EntryShape(k);
      SweepStep(t0, ttl, now, rest, k);
      var expired := ExpireEntry(k, now);
    }

    /** The sweep itself, in whatever order the table is walked. */
    method SweepTable(now: int)
      requires Valid()
      modifies `table, `snaps, `owner, `timeouts, pool, slotObjs
      ensures Valid()
      ensures Entries() == old(Entries()) - Expired(old(Entries()), ttl, now)
      ensures timeouts == old(timeouts) + |Expired(old(Entries()), ttl, now)|
    {
      hide *;
      ghost var t0 := Entries();
      var rest := table.Keys;
      KeysAgree();
      SweepEnds(t0, ttl, now);
      while rest != {}
        invariant Valid() && slotObjs == old(slotObjs)
        invariant rest <= table.Keys && rest <= t0.Keys
        invariant Entries() == Swept(t0, ttl, now, rest)
        invariant timeouts == old(timeouts) + SweptCount(t0, ttl, now, rest)
      {
        var k :| k in rest;
        SweepOne(k, now, t0, rest);
        rest := rest - {k};
      }
    }

    /** Deletes the entries idle for longer than the TTL, at most once a second. */
    method MaybeSweep(c: Clock)
      requires Valid()
      modifies `table, `snaps, `owner, `lastCleanup, `timeouts, `sweeps, pool, slotObjs
      ensures Valid()
      ensures Abs() == Spec.MaybeSweep(old(Abs()), ttl, c)
      ensures timeouts - old(timeouts) == if c.check - old(lastCleanup) < SECOND then 0
                                          else |Expired(old(Entries()), ttl, c.now)|
    {
      hide Valid, Entries, Spec.Expired;
      if c.check - lastCleanup < SECOND {
        return;
      }
      ghost var t0 := Entries();
      SweepTable(c.now);
      lastCleanup := c.now;
      sweeps := sweeps + [Sweep(c.now, Expired(t0, ttl, c.now))];
    }

    ghost function Cfg(): Config {
      Config(pool.Cap(), ttl)
    }

    /** One pass of the read loop. */
    method Handle(input: Input)
      requires Valid()
      modifies this, pool, pool.chunks, slotObjs
      ensures Valid() && fresh(slotObjs - old(slotObjs))
      ensures Abs() == Step(old(Abs()), Cfg(), input)
    {
      hide Valid, Entries, Spec.Accept, Spec.MaybeSweep;
      match input
      case Malformed =>
      case Record(ev, c) =>
        if ev.fragCnt == 0 || ev.fragIdx >= ev.fragCnt {
          drops := drops + 1;
          return;
        }
        var n := ev.chunkLen;
        if n > CHUNK_SIZE {
          n := CHUNK_SIZE;
        }
        if n == 0 {
          drops := drops + 1;
          return;
        }
        Accept(ev, c);
        MaybeSweep(c);
    }

    lemma {:induction false} AllFree()
      requires Valid() && table.Keys == {}
      ensures Entries() == map[]
      ensures |pool.free| == pool.Cap() && NoDup(pool.free)
      ensures forall i :: 0 <= i < pool.Cap() ==> i in pool.free
    {
      NothingHeld(pool.free, snaps, pool.rows, owner);
    }

    /** Cancellation: every chunk still held goes back, so the whole pool is free again. */
    method Shutdown()
      requires Valid()
      modifies `table, `snaps, `owner, pool, slotObjs
      ensures Valid() && table == map[] && Entries() == map[]
      ensures |pool.free| == pool.Cap() && NoDup(pool.free)
      ensures forall i :: 0 <= i < pool.Cap() ==> i in pool.free
    {
      hide *;
      while table.Keys != {}
        invariant Valid() && slotObjs == old(slotObjs)
        decreases |table|
      {
        var k :| k in table;
        EntryShape(k);
        Forget(k);
      }
      AllFree();
    }

    /** The whole loop over a stream, and its cancellation. */
    method ReadLoop(ins: seq<Input>, cancelled: bool)
      requires Valid()
      modifies this, pool, pool.chunks, slotObjs
      ensures Valid() && fresh(slotObjs - old(slotObjs))
      ensures !cancelled ==> Abs() == Run(old(Abs()), Cfg(), ins)
      ensures cancelled ==>
                && Abs() == Run(old(Abs()), Cfg(), ins).(table := map[])
                && |pool.free| == pool.Cap() && NoDup(pool.free)
                && forall i :: 0 <= i < pool.Cap() ==> i in pool.free
    {
      hide Valid, Entries, Spec.Step;
      for i := 0 to |ins|
        invariant Valid() && fresh(slotObjs - old(slotObjs))
        invariant Abs() == Run(old(Abs()), Cfg(), ins[..i])
      {
        Handle(ins[i]);
        assert ins[..i + 1][..i] == ins[..i];
      }
      assert ins[..|ins|] == ins;
      if cancelled {
        Shutdown();
      }
    }
  }
}
