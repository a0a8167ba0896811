/** From the probe to the events: any history of hooked calls on any threads. */
module Histories {
  import opened Base
  import opened ReassemblySpec
  import opened Fragments
  import opened Probes
  import opened CallIds
  import opened ReassemblyRuns

  /** One call of a hooked function, and what the kernel grants while it is copied. */
  datatype Hook = Hook(thread: u64, buf: u64, mem: nat -> byte, num: int, now: u64, hookType: u32,
                       kernel: Kernel, garbage: Payload)

  /** A call with a buffer and a length in 1..2^31-1; any other leaves no trace. */
  predicate Captures(h: Hook) {
    0 < h.num <= 0x7fff_ffff && h.buf != 0
  }

  type Capture = h: Hook | Captures(h)
    witness Hook(0, 1, _ => 0, 1, 0, 0, Kernel(_ => true, _ => true), seq(CHUNK_SIZE, _ => 0))

  function CallOf(h: Capture): Call {
    Call(h.buf, h.num, h.now)
  }

  function Data(h: Capture): seq<byte> {
    ReadMem(h.mem, 0, h.num)
  }

  /** The captured calls of one thread. */
  ghost function HooksOf(history: seq<Hook>, t: u64): seq<Capture> {
    if history == [] then [] else
    var last := history[|history| - 1];
    HooksOf(history[..|history| - 1], t) + (if last.thread == t && Captures(last) then [last] else [])
  }

  ghost function CallsOf(hooks: seq<Capture>): (calls: seq<Call>)
    ensures |calls| == |hooks| && forall i :: 0 <= i < |hooks| ==> calls[i] == CallOf(hooks[i])
  {
    seq(|hooks|, i requires 0 <= i < |hooks| => CallOf(hooks[i]))
  }

  /** The write that the i-th hook captures: the thread, the id it gets, and the bytes. */
  ghost function WriteOf(history: seq<Hook>, i: nat, cap: u32): Write
    requires i < |history| && Captures(history[i])
  {
    var h := history[i];
    var hooks := HooksOf(history[..i + 1], h.thread);
    assert history[..i + 1][i] == h;
    WriteCall(Key(h.thread / 0x1_0000_0000, ToU32(h.thread), IdOf(CallsOf(hooks))), Data(h), cap)
  }

  ghost predicate FromHistory(ev: SslEvent, history: seq<Hook>, cap: u32) {
    exists i: nat :: i < |history| && Captures(history[i]) && FragmentOf(ev, WriteOf(history, i, cap))
  }

  // ---------------------------------------------------------------- what the probe emits

  lemma {:induction false} CallsNext(hooks: seq<Capture>, h: Capture)
    ensures StateAfter(CallsOf(hooks + [h])) == Some(NextState(StateAfter(CallsOf(hooks)), CallOf(h)))
  {
    assert CallsOf(hooks + [h])[..|hooks|] == CallsOf(hooks);
  }

  /** Every record the probe emits for a history is a fragment of the write of one of its hooks. */
  method Observe(probe: Probe, history: seq<Hook>) returns (records: seq<SslEvent>)
    requires probe.callStates == map[]
    modifies probe
    ensures forall r :: r in records ==> FromHistory(r, history, probe.CapOf())
  {
    records := [];
    for i := 0 to |history|
      invariant forall t: u64 :: probe.StateOf(t) == StateAfter(CallsOf(HooksOf(history[..i], t)))
      invariant forall r :: r in records ==> FromHistory(r, history, probe.CapOf())
    {
      var h := history[i];
      label before:
      var out, w := probe.EmitFromBuf(h.thread, h.buf, h.mem, h.num, h.now, h.hookType, h.kernel, h.garbage);
      assert history[..i + 1][..i] == history[..i];
      if Captures(h) {
        CallsNext(HooksOf(history[..i], h.thread), h);
        assert w == WriteOf(history, i, probe.CapOf());
      }
      forall t: u64
        ensures probe.StateOf(t) == StateAfter(CallsOf(HooksOf(history[..i + 1], t)))
      {
        var was := HooksOf(history[..i], t);
        assert HooksOf(history[..i + 1], t) == was + (if h.thread == t && Captures(h) then [h] else []);
        assert was + [] == was;
        assert old@before(probe.StateOf(t)) == StateAfter(CallsOf(was));
      }
      records := records + out;
    }
    assert history[..|history|] == history;
  }

  // ---------------------------------------------------------------- one write per id

  /** As long as calls count as one write, the buffer keeps its bytes. */
  ghost predicate Steady(hooks: seq<Capture>) {
    forall p :: 0 <= p < |hooks| - 1 && SameGroup(CallOf(hooks[p]), CallOf(hooks[p + 1])) ==>
      Data(hooks[p]) == Data(hooks[p + 1])
  }

  /** What makes ids identify writes: steady buffers, and fewer groups per thread than there are ids. */
  ghost predicate Identifiable(history: seq<Hook>) {
    forall t: u64 :: Steady(HooksOf(history, t)) && Groups(CallsOf(HooksOf(history, t))) <= 0xffff_ffff
  }

  lemma {:induction false} PrefixOfThread(history: seq<Hook>, t: u64, n: nat)
    requires n <= |history|
    ensures HooksOf(history[..n], t) <= HooksOf(history, t)
  {
    if n == |history| {
      assert history[..n] == history;
    } else {
      PrefixOfThread(history[..|history| - 1], t, n);
      assert history[..|history| - 1][..n] == history[..n];
    }
  }

  /** When no group begins after p, the call at q continues the group of the one before it. */
  lemma {:induction false} LastJoinsGroup(calls: seq<Call>, p: nat, q: nat)
    requires p < q < |calls| && Groups(calls[..p + 1]) == Groups(calls[..q + 1])
    ensures SameGroup(calls[q - 1], calls[q]) && Groups(calls[..q]) == Groups(calls[..p + 1])
  {
    var now := calls[..q + 1];
    assert now[..q] == calls[..q];
    GroupsGrow(calls[..q], p + 1);
    assert calls[..q][..p + 1] == calls[..p + 1];
  }

  /** Calls of one group hold the same bytes. */
  lemma {:induction false} SameGroupSameData(hooks: seq<Capture>, p: nat, q: nat)
    requires Steady(hooks) && p <= q < |hooks|
    requires Groups(CallsOf(hooks)[..p + 1]) == Groups(CallsOf(hooks)[..q + 1])
    ensures Data(hooks[p]) == Data(hooks[q])
  {
    if p == q {
    } else {
      LastJoinsGroup(CallsOf(hooks), p, q);
      hide Groups, Data;
      SameGroupSameData(hooks, p, q - 1);
    }
  }

  lemma {:induction false} SameIdSameData(hooks: seq<Capture>, p: nat, q: nat)
    requires Steady(hooks) && Groups(CallsOf(hooks)) <= 0xffff_ffff && p < q < |hooks|
    requires IdOf(CallsOf(hooks)[..p + 1]) == IdOf(CallsOf(hooks)[..q + 1])
    ensures Data(hooks[p]) == Data(hooks[q])
  {
    var calls := CallsOf(hooks);
    IdsIdentifyGroups(calls, p, q);
    GroupsGrow(calls, q + 1);
    SameGroupSameData(hooks, p, q);
  }

  lemma {:induction false} LastOfThread(history: seq<Hook>, i: nat)
    requires i < |history| && Captures(history[i])
    ensures HooksOf(history[..i + 1], history[i].thread) == HooksOf(history[..i], history[i].thread) + [history[i]]
  {
    assert history[..i + 1][..i] == history[..i];
  }

  /** The place of a hook among those of its thread, and the id it gets there. */
  lemma {:induction false} PlaceInThread(history: seq<Hook>, i: nat, cap: u32) returns (p: nat)
    requires i < |history| && Captures(history[i])
    ensures var hooks := HooksOf(history, history[i].thread);
            && p < |hooks| && hooks[p] == history[i] && p == |HooksOf(history[..i], history[i].thread)|
            && WriteOf(history, i, cap).key.callId == IdOf(CallsOf(hooks)[..p + 1])
  {
    var t := history[i].thread;
    var hooks, upTo := HooksOf(history, t), HooksOf(history[..i + 1], t);
    p := |HooksOf(history[..i], t)|;
    LastOfThread(history, i);
    PrefixOfThread(history, t, i + 1);
    assert CallsOf(upTo) == CallsOf(hooks)[..p + 1];
  }

  lemma {:induction false} LaterInThread(history: seq<Hook>, i: nat, j: nat)
    requires i < j < |history| && Captures(history[i])
    ensures |HooksOf(history[..i], history[i].thread)| < |HooksOf(history[..j], history[i].thread)|
  {
    LastOfThread(history, i);
    PrefixOfThread(history[..j], history[i].thread, i + 1);
    assert history[..j][..i + 1] == history[..i + 1];
  }

  lemma {:induction false} KeyGivesThread(history: seq<Hook>, i: nat, j: nat, cap: u32)
    requires i < |history| && j < |history| && Captures(history[i]) && Captures(history[j])
    requires WriteOf(history, i, cap).key == WriteOf(history, j, cap).key
    ensures history[i].thread == history[j].thread
    ensures Data(history[i]) == Data(history[j]) ==> WriteOf(history, i, cap) == WriteOf(history, j, cap)
  {
    hide HooksOf, IdOf, CallsOf;
  }

  /** Two hooks that get one id on one thread capture one write. */
  lemma {:induction false} SameKeySameWrite(history: seq<Hook>, i: nat, j: nat, cap: u32)
    requires Identifiable(history) && i < j < |history| && Captures(history[i]) && Captures(history[j])
    requires WriteOf(history, i, cap).key == WriteOf(history, j, cap).key
    ensures WriteOf(history, i, cap) == WriteOf(history, j, cap)
  {
    hide WriteOf, HooksOf, CallsOf, IdOf, Steady, Groups;
    KeyGivesThread(history, i, j, cap);
    var p := PlaceInThread(history, i, cap);
    var q := PlaceInThread(history, j, cap);
    LaterInThread(history, i, j);
    SameIdSameData(HooksOf(history, history[i].thread), p, q);
  }

  lemma {:induction false} KeyGivesWrite(history: seq<Hook>, i: nat, j: nat, cap: u32)
    requires Identifiable(history) && i < |history| && j < |history| && Captures(history[i]) && Captures(history[j])
    requires WriteOf(history, i, cap).key == WriteOf(history, j, cap).key
    ensures WriteOf(history, i, cap) == WriteOf(history, j, cap)
  {
    if i < j {
      SameKeySameWrite(history, i, j, cap);
    } else if j < i {
      SameKeySameWrite(history, j, i, cap);
    }
  }

  // ---------------------------------------------------------------- from hooks to events

  ghost predicate IsWriteOf(history: seq<Hook>, i: nat, cap: u32, k: Key) {
    i < |history| && Captures(history[i]) && WriteOf(history, i, cap).key == k
  }

  /** The write a key stands for. */
  ghost function Source(history: seq<Hook>, cap: u32, k: Key): Write {
    if exists i: nat :: IsWriteOf(history, i, cap, k) then
      var i: nat :| IsWriteOf(history, i, cap, k); WriteOf(history, i, cap)
    else WriteCall(k, [0], 0)
  }

  lemma {:induction false} SourceIsWrite(history: seq<Hook>, cap: u32, k: Key, i: nat) returns (j: nat)
    requires IsWriteOf(history, i, cap, k)
    ensures IsWriteOf(history, j, cap, k) && Source(history, cap, k) == WriteOf(history, j, cap)
  {
    j :| IsWriteOf(history, j, cap, k) && Source(history, cap, k) == WriteOf(history, j, cap);
  }

  lemma {:induction false} SourceOf(history: seq<Hook>, cap: u32, i: nat)
    requires Identifiable(history) && i < |history| && Captures(history[i])
    ensures Source(history, cap, WriteOf(history, i, cap).key) == WriteOf(history, i, cap)
  {
    hide Source, WriteOf, Identifiable;
    var j := SourceIsWrite(history, cap, WriteOf(history, i, cap).key, i);
    KeyGivesWrite(history, i, j, cap);
  }

  /** Any selection, repetition and reordering of the records of a history is genuine. */
  lemma {:induction false} HistoryIsGenuine(history: seq<Hook>, cap: u32, ins: seq<Input>)
    requires Identifiable(history)
    requires forall j :: 0 <= j < |ins| && ins[j].Record? ==> FromHistory(ins[j].ev, history, cap)
    ensures Genuine(ins, k => Source(history, cap, k))
  {
    forall j | 0 <= j < |ins| && ins[j].Record?
      ensures FragmentOf(ins[j].ev, Source(history, cap, KeyOf(ins[j].ev)))
    {
      assert FromHistory(ins[j].ev, history, cap);
      var i: nat :| i < |history| && Captures(history[i]) && FragmentOf(ins[j].ev, WriteOf(history, i, cap));
      SourceOf(history, cap, i);
    }
  }

  /** An emitted event has the key of some record. */
  lemma {:induction false} EventFromRecord(t0: int, cfg: Config, ins: seq<Input>, x: nat) returns (j: nat)
    requires x < |Run(Init(t0), cfg, ins).emitted|
    ensures j < |ins| && ins[j].Record? && KeyOf(ins[j].ev) == EventKey(Run(Init(t0), cfg, ins).emitted[x])
  {
    j := |ins| - 1;
    var before, last := ins[..j], ins[j];
    var s := Run(Init(t0), cfg, before);
    if x < |s.emitted| {
      j := EventFromRecord(t0, cfg, before, x);
    }
    if last.Record? && Usable(last.ev) {
      StepShape(s, cfg, last.ev, last.clock);
      CaptureKey(WithPiece(EntryFor(s.table, last.ev, last.clock), last.ev), last.ev);
    }
    hide Step, CaptureOf, EntryFor, WithPiece;
  }

  /** The event of a hooked call: process and thread, the call's length, and the first bytes of its
      buffer, as many as the least of that length, 2^29 and a cap that is not 0; truncated exactly
      when that is not all. */
  ghost predicate EventFor(e: CaptureEvent, h: Hook, cap: u32) {
    && e.pid == h.thread / 0x1_0000_0000 && e.tid == h.thread % 0x1_0000_0000
    && e.origLen == h.num && |e.payload| == e.capturedLen
    && e.capturedLen <= h.num && e.capturedLen <= 0x2000_0000 && (cap > 0 ==> e.capturedLen <= cap)
    && (e.capturedLen == h.num || e.capturedLen == 0x2000_0000 || (cap > 0 && e.capturedLen == cap))
    && (e.truncated <==> e.capturedLen < h.num)
    && forall j :: 0 <= j < |e.payload| ==> e.payload[j] == h.mem(j)
  }

  lemma {:induction false} ExactEventFor(e: CaptureEvent, history: seq<Hook>, i: nat, cap: u32)
    requires i < |history| && Captures(history[i]) && Exact(e, WriteOf(history, i, cap))
    ensures EventFor(e, history[i], cap)
  {
    hide IdOf, HooksOf, CallsOf;
  }

  /** From hooks to events: whatever records of the history reach the reassembler, however often and
      in whatever order, and whatever the pool and the clock, every event is exactly the captured
      prefix of one hooked call. */
  lemma {:induction false} HooksToEvents(t0: int, cfg: Config, history: seq<Hook>, cap: u32, ins: seq<Input>, x: nat)
    returns (i: nat)
    requires Identifiable(history)
    requires forall j :: 0 <= j < |ins| && ins[j].Record? ==> FromHistory(ins[j].ev, history, cap)
    requires x < |Run(Init(t0), cfg, ins).emitted|
    ensures i < |history| && Captures(history[i]) && Exact(Run(Init(t0), cfg, ins).emitted[x], WriteOf(history, i, cap))
    ensures EventFor(Run(Init(t0), cfg, ins).emitted[x], history[i], cap)
  {
    HistoryIsGenuine(history, cap, ins);
    EndToEndExactness(t0, cfg, ins, k => Source(history, cap, k));
    var j := EventFromRecord(t0, cfg, ins, x);
    assert FromHistory(ins[j].ev, history, cap);
    i :| i < |history| && Captures(history[i]) && FragmentOf(ins[j].ev, WriteOf(history, i, cap));
    SourceOf(history, cap, i);
    ExactEventFor(Run(Init(t0), cfg, ins).emitted[x], history, i, cap);
    hide Run, EventFor, Exact;
  }
}
