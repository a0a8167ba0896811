/** The kernel-side probe: one call id per write group, and the fragments of each write. */
module Probes {
  import opened Base
  import opened ReassemblySpec
  import opened Fragments

  /** Two identical calls this close together are taken for one write seen by two hooks. */
  const DEDUP_WINDOW_NS := 2_000_000

  datatype CallState = CallState(lastBuf: u64, lastNum: u32, lastCallId: u32, lastTs: u64, serial: u32)

  datatype Call = Call(buf: u64, num: u32, now: u64)

  /** What the kernel grants while a write is being copied: whether a ring slot could be reserved
      and whether user memory could be read, fragment by fragment. */
  datatype Kernel = Kernel(reserved: nat -> bool, readable: nat -> bool)

  /** n bytes of user memory. */
  function ReadMem(mem: nat -> byte, start: nat, n: nat): (s: seq<byte>)
    ensures |s| == n && forall j :: 0 <= j < n ==> s[j] == mem(start + j)
  {
    seq(n, j requires 0 <= j => mem(start + j))
  }

  ghost function NextState(st: Option<CallState>, c: Call): CallState {
    match st
    case None => CallState(c.buf, c.num, 1, c.now, 1)
    case Some(s) =>
      if s.lastBuf == c.buf && s.lastNum == c.num && s.lastTs <= c.now <= s.lastTs + DEDUP_WINDOW_NS then
        s.(lastTs := c.now)
      else
        var serial := if s.serial == 0xffff_ffff then 1 else s.serial + 1;
        CallState(c.buf, c.num, serial, c.now, serial)
  }

  /** The record of one fragment, in 32-bit arithmetic; memory that cannot be read gives an empty
      chunk and leaves whatever was in the ring slot. */
  function RecordAt(mem: nat -> byte, pidTgid: u64, callId: u32, origLen: u32, totalLen: u32, truncated: u32,
                    fragCnt: u32, hookType: u32, index: u32, readable: bool, garbage: Payload): SslEvent {
    var offset := ToU32(ChunkStart(index));
    var room := ToU32(totalLen - offset);
    SslEvent(pidTgid / 0x1_0000_0000, ToU32(pidTgid), callId, origLen, totalLen, truncated, index, fragCnt,
             if readable then Min(room, CHUNK_SIZE) else 0, hookType,
             if readable then ReadMem(mem, offset, CHUNK_SIZE) else garbage)
  }

  /** The copying context of one write. */
  class EmitCtx {
    const mem: nat -> byte
    const pidTgid: u64
    const callId: u32
    const origLen: u32
    const totalLen: u32
    var truncated: u32
    const fragCnt: u32
    const hookType: u32

    constructor (mem: nat -> byte, pidTgid: u64, callId: u32, origLen: u32, totalLen: u32, truncated: u32,
                 fragCnt: u32, hookType: u32)
      ensures this.mem == mem && this.pidTgid == pidTgid && this.callId == callId
      ensures this.origLen == origLen && this.totalLen == totalLen && this.truncated == truncated
      ensures this.fragCnt == fragCnt && this.hookType == hookType
    {
      this.mem, this.pidTgid, this.callId := mem, pidTgid, callId;
      this.origLen, this.totalLen, this.truncated := origLen, totalLen, truncated;
      this.fragCnt, this.hookType := fragCnt, hookType;
    }

    /** One turn of the bounded kernel loop, in 32-bit arithmetic; no record means stop. */
    method EmitOneFrag(index: u32, kernel: Kernel, garbage: Payload) returns (rec: Option<SslEvent>)
      modifies this
      ensures index >= fragCnt ==> rec.None? && truncated == old(truncated)
      ensures index < fragCnt && !kernel.reserved(index) ==> rec.None? && truncated == 1
      ensures index < fragCnt && kernel.reserved(index) ==>
                && truncated == old(truncated)
                && rec == Some(RecordAt(mem, pidTgid, callId, origLen, totalLen, truncated, fragCnt, hookType,
                                        index, kernel.readable(index), garbage))
    {
      if index >= fragCnt {
        return None;
      }
      var offset := ToU32(ChunkStart(index));
      var chunkLen := ToU32(totalLen - offset);
      if chunkLen > CHUNK_SIZE {
        chunkLen := CHUNK_SIZE;
      }
      if !kernel.reserved(index) {
        truncated := 1;
        return None;
      }
      var payload: Payload := ReadMem(mem, offset, CHUNK_SIZE);
      if !kernel.readable(index) {
        chunkLen := 0;
        payload := garbage;
      }
      rec := Some(SslEvent(pidTgid / 0x1_0000_0000, ToU32(pidTgid), callId, origLen, totalLen, truncated,
                           index, fragCnt, chunkLen, hookType, payload));
    }
  }

  /** In 32-bit arithmetic no offset wraps and each chunk gets 1 to 512 bytes, its piece of the write. */
  lemma {:induction false} FragmentArithmetic(w: Write, index: u32)
    requires index < FragCount(w)
    ensures var offset := ToU32(ChunkStart(index));
            var room := ToU32(CaptureLen(w) - offset);
            && offset == ChunkStart(index) && 1 <= Min(room, CHUNK_SIZE) == |PieceOf(w, index)|
  {
  }

  /** So each record, with the write's header, is a fragment of the write. */
  lemma {:induction false} RecordIsFragment(w: Write, mem: nat -> byte, pidTgid: u64, truncated: u32, hookType: u32,
                                            index: u32, readable: bool, garbage: Payload)
    requires w.key.pid == pidTgid / 0x1_0000_0000 && w.key.tid == ToU32(pidTgid)
    requires w.buf == ReadMem(mem, 0, |w.buf|)
    requires truncated != 0 <==> CaptureLen(w) < |w.buf|
    requires index < FragCount(w)
    ensures var rec := RecordAt(mem, pidTgid, w.key.callId, |w.buf|, CaptureLen(w), truncated, FragCount(w), hookType,
                                index, readable, garbage);
            FragmentOf(rec, w) && rec.fragIdx == index && rec.hookType == hookType
            && (rec.chunkLen != 0 <==> readable)
  {
    FragmentArithmetic(w, index);
    var piece := PieceOf(w, index);
    assert readable ==> ReadMem(mem, ChunkStart(index), CHUNK_SIZE)[..|piece|] == piece;
  }

  /** The header of a write's records, from its length and the probe's configuration: the total is the
      least of the length, 2^29 and a configured cap that is not 0; the write is marked truncated
      exactly when the total is less than the length; and the fragments are those the total needs. */
  ghost predicate HeaderFor(r: SslEvent, maxCapture: Option<u32>, num: int) {
    && r.origLen == num && r.totalLen <= num && r.totalLen <= 0x2000_0000
    && (maxCapture.Some? && maxCapture.value > 0 ==> r.totalLen <= maxCapture.value)
    && (r.totalLen == num || r.totalLen == 0x2000_0000
        || (maxCapture.Some? && maxCapture.value > 0 && r.totalLen == maxCapture.value))
    && (r.truncated != 0 <==> r.totalLen < num)
    && 512 * (r.fragCnt - 1) < r.totalLen <= 512 * r.fragCnt
  }

  lemma {:induction false} HeaderOfFragment(r: SslEvent, w: Write, maxCapture: Option<u32>)
    requires FragmentOf(r, w)
    requires w.maxCap > 0 <==> maxCapture.Some? && maxCapture.value > 0
    requires w.maxCap > 0 ==> w.maxCap == maxCapture.value
    ensures HeaderFor(r, maxCapture, |w.buf|)
  {
  }

  /** The bytes of one record: its stretch of user memory, up to 512 bytes, or none when unreadable. */
  ghost predicate BytesFor(r: SslEvent, mem: nat -> byte, readable: bool) {
    && r.chunkLen == (if !readable then 0
                      else if r.totalLen - 512 * r.fragIdx < 512 then r.totalLen - 512 * r.fragIdx
                      else 512)
    && forall j :: 0 <= j < r.chunkLen && j < 512 ==> r.payload[j] == mem(512 * r.fragIdx + j)
  }

  lemma {:induction false} BytesOfFragment(r: SslEvent, w: Write, mem: nat -> byte, readable: bool)
    requires FragmentOf(r, w) && w.buf == ReadMem(mem, 0, |w.buf|) && (r.chunkLen != 0 <==> readable)
    ensures BytesFor(r, mem, readable)
  {
    RangeOf(w, r.fragIdx);
    assert r.chunkLen != 0 ==> forall j :: 0 <= j < r.chunkLen ==>
      r.payload[j] == r.payload[..r.chunkLen][j] == w.buf[512 * r.fragIdx + j];
  }

  lemma {:induction false} RecordsOfWrite(records: seq<SslEvent>, w: Write, mem: nat -> byte, kernel: Kernel,
                                          maxCapture: Option<u32>)
    requires w.maxCap > 0 <==> maxCapture.Some? && maxCapture.value > 0
    requires w.maxCap > 0 ==> w.maxCap == maxCapture.value
    requires w.buf == ReadMem(mem, 0, |w.buf|)
    requires forall i :: 0 <= i < |records| ==>
               FragmentOf(records[i], w) && (records[i].chunkLen != 0 <==> kernel.readable(i))
    ensures forall i :: 0 <= i < |records| ==>
              HeaderFor(records[i], maxCapture, |w.buf|) && BytesFor(records[i], mem, kernel.readable(i))
  {
    hide FragmentOf, HeaderFor, BytesFor;
    forall i | 0 <= i < |records|
      ensures HeaderFor(records[i], maxCapture, |w.buf|) && BytesFor(records[i], mem, kernel.readable(i))
    {
      HeaderOfFragment(records[i], w, maxCapture);
      BytesOfFragment(records[i], w, mem, kernel.readable(i));
    }
  }

  class Probe {
    var callStates: map<u64, CallState>
    const maxCapture: Option<u32>

    constructor (maxCapture: Option<u32>)
      ensures callStates == map[] && this.maxCapture == maxCapture
    {
      callStates := map[];
      this.maxCapture := maxCapture;
    }

    ghost function StateOf(pidTgid: u64): Option<CallState>
      reads this
    {
      if pidTgid in callStates then Some(callStates[pidTgid]) else None
    }

    method NextCallId(pidTgid: u64, buf: u64, num: u32, now: u64) returns (callId: u32)
      modifies this
      ensures callStates == old(callStates)[pidTgid := NextState(old(StateOf(pidTgid)), Call(buf, num, now))]
      ensures callId == callStates[pidTgid].lastCallId
    {
      if pidTgid !in callStates {
        callStates := callStates[pidTgid := CallState(buf, num, 1, now, 1)];
        return 1;
      }
      var st := callStates[pidTgid];
      if st.lastBuf == buf && st.lastNum == num && now >= st.lastTs && now - st.lastTs <= DEDUP_WINDOW_NS {
        callId := st.lastCallId;
      } else {
        st := st.(serial := ToU32(st.serial + 1));
        if st.serial == 0 {
          st := st.(serial := 1);
        }
        callId := st.serial;
      }
      st := st.(lastBuf := buf, lastNum := num, lastCallId := callId, lastTs := now);
      callStates := callStates[pidTgid := st];
    }

    /** The configured cap; 0 when there is none. */
    function CapOf(): (cap: u32)
      ensures cap > 0 <==> maxCapture.Some? && maxCapture.value > 0
      ensures cap > 0 ==> cap == maxCapture.value
    {
      match maxCapture case None => 0 case Some(v) => v
    }

    /** Cuts one write into ring records. Calls with a null buffer, or a length that is not in
        1..2^31-1, leave no trace. Otherwise the records are the fragments of the write in order,
        up to the first one for which no ring slot could be reserved. */
    method EmitFromBuf(pidTgid: u64, buf: u64, mem: nat -> byte, num: int, now: u64, hookType: u32,
                       kernel: Kernel, garbage: Payload)
      returns (records: seq<SslEvent>, ghost w: Write)
      modifies this
      ensures num <= 0 || num > 0x7fff_ffff || buf == 0 ==> records == [] && callStates == old(callStates)
      ensures 0 < num <= 0x7fff_ffff && buf != 0 ==>
                && callStates == old(callStates)[pidTgid := NextState(old(StateOf(pidTgid)), Call(buf, num, now))]
                && w.key == Key(pidTgid / 0x1_0000_0000, ToU32(pidTgid), callStates[pidTgid].lastCallId)
                && w.buf == ReadMem(mem, 0, num) && w.maxCap == CapOf()
                && |records| <= FragCount(w)
                && (|records| < FragCount(w) ==> !kernel.reserved(|records|))
                && (forall i :: 0 <= i < |records| ==>
                      && kernel.reserved(i) && FragmentOf(records[i], w)
                      && records[i].fragIdx == i && records[i].hookType == hookType
                      && (records[i].chunkLen != 0 <==> kernel.readable(i)))
      ensures 0 < num <= 0x7fff_ffff && buf != 0 ==>
                forall i :: 0 <= i < |records| ==>
                  HeaderFor(records[i], maxCapture, num) && BytesFor(records[i], mem, kernel.readable(i))
    {
      hide FragmentOf, RecordAt, HeaderFor, BytesFor;
      records := [];
      w := WriteCall(Key(0, 0, 0), [0], 0);
      if num < 0 || num > 0x7fff_ffff {
        return;
      }
      if num <= 0 || buf == 0 {
        return;
      }
      var origLen: u32 := num;
      var totalLen: u32 := origLen;
      var truncated: u32 := 0;
      var maxCap := CapOf();
      if maxCap > 0 && totalLen > maxCap {
        totalLen := maxCap;
        truncated := 1;
      }
      var frag64 := WholeChunks(totalLen + CHUNK_SIZE - 1);
      if frag64 == 0 {
        return;
      }
      var fragCnt: u32;
      if frag64 > LOOP_MAX {
        fragCnt := LOOP_MAX;
        totalLen := ToU32(ChunkStart(LOOP_MAX));
        truncated := 1;
      } else {
        fragCnt := frag64;
      }
      var callId := NextCallId(pidTgid, buf, num, now);
      w := WriteCall(Key(pidTgid / 0x1_0000_0000, ToU32(pidTgid), callId), ReadMem(mem, 0, num), maxCap);
      assert totalLen == CaptureLen(w) && fragCnt == FragCount(w);
      var ec := new EmitCtx(mem, pidTgid, callId, origLen, totalLen, truncated, fragCnt, hookType);
      var index: u32 := 0;
      while index < fragCnt
        modifies ec
        invariant index <= fragCnt && |records| == index && ec.truncated == truncated
        invariant forall i :: 0 <= i < |records| ==>
                    && kernel.reserved(i) && FragmentOf(records[i], w)
                    && records[i].fragIdx == i && records[i].hookType == hookType
                    && (records[i].chunkLen != 0 <==> kernel.readable(i))
      {
        var rec := ec.EmitOneFrag(index, kernel, garbage);
        if rec.None? {
          break;
        }
        RecordIsFragment(w, mem, pidTgid, truncated, hookType, index, kernel.readable(index), garbage);
        records := records + [rec.value];
        index := index + 1;
      }
      RecordsOfWrite(records, w, mem, kernel, maxCapture);
    }
  }
}
