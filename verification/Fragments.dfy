/** One logical write and the fragments the probe cuts it into. */
module Fragments {
  import opened Base
  import opened ReassemblySpec

  /** Fragments the probe will cut at most: the iteration limit it sets for itself. */
  const LOOP_MAX := 0x10_0000

  /** A non-empty write of at most 2^31 - 1 bytes, as the probe saw it. */
  datatype WriteCall = WriteCall(key: Key, buf: seq<byte>, maxCap: u32)

  type Write = w: WriteCall | 0 < |w.buf| <= 0x7fff_ffff
    witness WriteCall(Key(0, 0, 0), [0], 0)

  /** How many bytes of the write are captured: a configured cap and the fragment budget limit it. */
  function CaptureLen(w: Write): (n: u32)
    ensures 0 < n <= |w.buf| && n <= ChunkStart(LOOP_MAX)
  {
    var capped := if w.maxCap > 0 then Min(|w.buf|, w.maxCap) else |w.buf|;
    Min(capped, ChunkStart(LOOP_MAX))
  }

  /** The captured length is the greatest that the write, a configured cap and the budget allow. */
  lemma {:induction false} CapturesMost(w: Write, n: nat)
    ensures n <= CaptureLen(w) <==>
              n <= |w.buf| && n <= 0x2000_0000 && (w.maxCap > 0 ==> n <= w.maxCap)
  {
  }

  function FragCount(w: Write): (n: u32)
    ensures 0 < n <= LOOP_MAX
    ensures ChunkStart(n - 1) < CaptureLen(w) <= ChunkStart(n)
  {
    WholeChunks(CaptureLen(w) + CHUNK_SIZE - 1)
  }

  /** The bytes fragment i carries. */
  function PieceOf(w: Write, i: nat): (p: seq<byte>)
    requires i < FragCount(w)
    ensures 0 < |p| <= CHUNK_SIZE
  {
    w.buf[ChunkStart(i)..Min(ChunkStart(i + 1), CaptureLen(w))]
  }

  /** The captured bytes: the promise is that a reassembled payload is this and nothing else. */
  function Captured(w: Write): seq<byte> {
    w.buf[..CaptureLen(w)]
  }

  /** A record is a fragment of w: header of the write, and either the bytes of its range or,
      when the probe could not read them, an empty chunk. */
  ghost predicate FragmentOf(ev: SslEvent, w: Write) {
    && KeyOf(ev) == w.key
    && ev.origLen == |w.buf| && ev.totalLen == CaptureLen(w)
    && (ev.truncated != 0 <==> CaptureLen(w) < |w.buf|)
    && ev.fragCnt == FragCount(w) && ev.fragIdx < FragCount(w)
    && (ev.chunkLen != 0 ==> ev.chunkLen == |PieceOf(w, ev.fragIdx)|
                             && ev.payload[..ev.chunkLen] == PieceOf(w, ev.fragIdx))
  }

  /** The event a fully reassembled write must give. */
  function ExactEvent(w: Write, hookType: u32): CaptureEvent {
    CaptureEvent(w.key.pid, w.key.tid, w.key.callId, |w.buf|, CaptureLen(w), CaptureLen(w) < |w.buf|,
                 hookType, Captured(w))
  }

  lemma {:induction false} Joined(buf: seq<byte>, lo: nat, hi: nat)
    requires lo <= hi <= |buf|
    ensures buf[..lo] + buf[lo..hi] == buf[..hi]
  {
  }

  /** The range of fragment i begins inside the captured prefix. */
  lemma {:induction false} RangeOf(w: Write, i: nat)
    requires i < FragCount(w)
    ensures ChunkStart(i) < Min(ChunkStart(i + 1), CaptureLen(w)) <= |w.buf|
    ensures PieceOf(w, i) == w.buf[ChunkStart(i)..Min(ChunkStart(i + 1), CaptureLen(w))]
  {
  }

  /** The ranges tile the captured prefix: in order, without gap or overlap. */
  lemma {:induction false} PiecesTile(w: Write, frags: map<nat, seq<byte>>, n: nat)
    requires n <= FragCount(w)
    requires forall i: nat :: i < n ==> i in frags && frags[i] == PieceOf(w, i)
    ensures Concat(frags, n) == w.buf[..Min(ChunkStart(n), CaptureLen(w))]
  {
    hide CaptureLen, FragCount, PieceOf;
    if n == 0 {
    } else {
      PiecesTile(w, frags, n - 1);
      RangeOf(w, n - 1);
      Joined(w.buf, ChunkStart(n - 1), Min(ChunkStart(n), CaptureLen(w)));
    }
  }
}
