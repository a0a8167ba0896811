/** What the reassembler does, with no chunk pool in it: a table from call key to the
    fragments received so far, and the number of fragments held against the pool's capacity. */
module ReassemblySpec {
  import opened Base

  type Payload = p: seq<byte> | |p| == CHUNK_SIZE witness seq(CHUNK_SIZE, _ => 0)

  /** One ring-buffer record. */
  datatype SslEvent = SslEvent(
    pid: u32, tid: u32, callId: u32,
    origLen: u32, totalLen: u32, truncated: u32,
    fragIdx: u32, fragCnt: u32, chunkLen: u32, hookType: u32,
    payload: Payload)

  datatype Key = Key(pid: u32, tid: u32, callId: u32)

  /** The wall-clock readings taken while one record is handled, in nanoseconds. */
  datatype Clock = Clock(first: int, last: int, check: int, now: int)

  /** What one pass of the read loop gets from the ring buffer. */
  datatype Input = Malformed | Record(ev: SslEvent, clock: Clock)

  datatype CaptureEvent = CaptureEvent(
    pid: u32, tid: u32, callId: u32,
    origLen: u32, capturedLen: u32, truncated: bool, hookType: u32,
    payload: seq<byte>)

  datatype Entry = Entry(
    origLen: u32, totalLen: u32, truncated: bool, fragCnt: u32,
    frags: map<nat, seq<byte>>, firstAt: int, lastAt: int)

  /** One pass over the table: when it ran and which writes it gave up. */
  datatype Sweep = Sweep(at: int, expired: set<Key>)

  datatype State = State(
    table: map<Key, Entry>,
    lastCleanup: int,
    emitted: seq<CaptureEvent>,
    drops: nat,
    sweeps: seq<Sweep>)

  datatype Config = Config(cap: nat, ttl: int)

  const SECOND := 1_000_000_000

  function KeyOf(ev: SslEvent): Key {
    Key(ev.pid, ev.tid, ev.callId)
  }

  function EventKey(e: CaptureEvent): Key {
    Key(e.pid, e.tid, e.callId)
  }

  /** How many payload bytes a record contributes. */
  function UsableLen(ev: SslEvent): (n: u16)
    ensures n <= CHUNK_SIZE
  {
    Min(ev.chunkLen, CHUNK_SIZE)
  }

  /** Records that are not discarded on sight. */
  predicate Usable(ev: SslEvent) {
    ev.fragIdx < ev.fragCnt && UsableLen(ev) > 0
  }

  function Piece(ev: SslEvent): seq<byte> {
    ev.payload[..UsableLen(ev)]
  }

  /** The pieces 0..n-1 in order; a missing piece contributes nothing. */
  function Concat(frags: map<nat, seq<byte>>, n: nat): seq<byte> {
    if n == 0 then [] else
    Concat(frags, n - 1) + (if n - 1 in frags then frags[n - 1] else [])
  }

  /** The 32-bit length comparison that cuts surplus bytes off an assembled write. */
  function Trim(out: seq<byte>, totalLen: u32): seq<byte> {
    if totalLen > 0 && ToU32(|out|) > totalLen then out[..totalLen] else out
  }

  /** Every (write, fragment) pair that occupies a chunk. */
  ghost function Held(table: map<Key, Entry>): set<(Key, nat)> {
    set k, i | k in table && i in table[k].frags :: (k, i)
  }

  function FreshEntry(ev: SslEvent, firstAt: int): Entry {
    Entry(ev.origLen, ev.totalLen, ev.truncated != 0, ev.fragCnt, map[], firstAt, firstAt)
  }

  /** What every record, duplicates included, does to the entry of its key. */
  function Touch(e: Entry, ev: SslEvent, lastAt: int): Entry {
    e.(lastAt := lastAt,
       origLen := Max(ev.origLen, e.origLen),
       totalLen := Max(ev.totalLen, e.totalLen),
       truncated := e.truncated || ev.truncated != 0)
  }

  function EntryFor(table: map<Key, Entry>, ev: SslEvent, c: Clock): Entry {
    Touch(if KeyOf(ev) in table then table[KeyOf(ev)] else FreshEntry(ev, c.first), ev, c.last)
  }

  function CaptureOf(e: Entry, ev: SslEvent): CaptureEvent {
    var out := Trim(Concat(e.frags, e.fragCnt), e.totalLen);
    CaptureEvent(ev.pid, ev.tid, ev.callId, e.origLen, ToU32(|out|), e.truncated, ev.hookType, out)
  }

  function WithPiece(e: Entry, ev: SslEvent): Entry {
    e.(frags := e.frags[ev.fragIdx := Piece(ev)])
  }

  /** What one record leaves in the table, what it emits and whether it counts as dropped. */
  datatype Outcome = Outcome(table: map<Key, Entry>, out: seq<CaptureEvent>, lost: nat)

  /** Emits and forgets a write once no piece of it is missing. */
  function Finish(t: map<Key, Entry>, ev: SslEvent): (o: Outcome)
    requires KeyOf(ev) in t
    ensures o.lost == 0
  {
    var e := t[KeyOf(ev)];
    if |e.frags| == e.fragCnt then Outcome(t - {KeyOf(ev)}, [CaptureOf(e, ev)], 0)
    else Outcome(t, [], 0)
  }

  /** Stores the piece of a record whose entry is open: a full pool costs the whole write, an
      index outside the write's slots is refused. */
  ghost function PlaceNew(t: map<Key, Entry>, cap: nat, ev: SslEvent): Outcome
    requires KeyOf(ev) in t
  {
    var e := t[KeyOf(ev)];
    if |Held(t)| >= cap then Outcome(t - {KeyOf(ev)}, [], 1)
    else if ev.fragIdx >= e.fragCnt then Outcome(t, [], 0)
    else Finish(t[KeyOf(ev) := WithPiece(e, ev)], ev)
  }

  /** A piece that is already there is not stored again. */
  ghost function Place(t: map<Key, Entry>, cap: nat, ev: SslEvent): Outcome
    requires KeyOf(ev) in t
  {
    if ev.fragIdx in t[KeyOf(ev)].frags then Outcome(t, [], 0) else PlaceNew(t, cap, ev)
  }

  ghost function Accept(s: State, cap: nat, ev: SslEvent, c: Clock): State {
    var o := Place(s.table[KeyOf(ev) := EntryFor(s.table, ev, c)], cap, ev);
    s.(table := o.table, emitted := s.emitted + o.out, drops := s.drops + o.lost)
  }

  /** The keys whose last record is more than the TTL old. */
  ghost function Expired(table: map<Key, Entry>, ttl: int, now: int): set<Key> {
    set k | k in table && now - table[k].lastAt > ttl
  }

  ghost function MaybeSweep(s: State, ttl: int, c: Clock): State {
    if c.check - s.lastCleanup < SECOND then s else
    var gone := Expired(s.table, ttl, c.now);
    s.(table := s.table - gone, lastCleanup := c.now, sweeps := s.sweeps + [Sweep(c.now, gone)])
  }

  ghost function Step(s: State, cfg: Config, input: Input): State {
    match input
    case Malformed => s
    case Record(ev, c) =>
      if !Usable(ev) then s.(drops := s.drops + 1)
      else MaybeSweep(Accept(s, cfg.cap, ev, c), cfg.ttl, c)
  }

  ghost function Init(t0: int): State {
    State(map[], t0, [], 0, [])
  }

  /** The state after a whole stream. */
  ghost function Run(s: State, cfg: Config, ins: seq<Input>): State {
    if ins == [] then s
    else Step(Run(s, cfg, ins[..|ins| - 1]), cfg, ins[|ins| - 1])
  }

  lemma {:induction false} PairsSize(k: Key, s: set<nat>, pairs: set<(Key, nat)>)
    requires forall i :: i in s ==> (k, i) in pairs
    requires forall p :: p in pairs ==> p.0 == k && p.1 in s
    ensures |pairs| == |s|
  {
    if s == {} {
      assert pairs == {};
    } else {
      var x :| x in s;
      PairsSize(k, s - {x}, pairs - {(k, x)});
    }
  }

  lemma {:induction false} HeldRemove(table: map<Key, Entry>, k: Key)
    requires k in table
    ensures |Held(table - {k})| + |table[k].frags| == |Held(table)|
  {
    var mine := Held(table) - Held(table - {k});
    PairsSize(k, table[k].frags.Keys, mine);
    assert |table[k].frags.Keys| == |table[k].frags|;
  }

  lemma {:induction false} HeldUpdate(table: map<Key, Entry>, k: Key, e: Entry)
    ensures k !in table ==> |Held(table[k := e])| == |Held(table)| + |e.frags|
    ensures k in table ==> |Held(table[k := e])| == |Held(table)| - |table[k].frags| + |e.frags|
  {
    HeldRemove(table[k := e], k);
    assert table[k := e] - {k} == table - {k};
    if k in table {
      HeldRemove(table, k);
    } else {
      assert table - {k} == table;
    }
  }
}
