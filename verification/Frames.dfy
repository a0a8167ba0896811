/** Length-prefixed frames over a byte pipe. */
module Frames {
  import opened Base

  type Bytes = seq<byte>

  /** 256 MiB, the longest body a reader accepts. */
  const MAX_FRAME: nat := 268435456

  function BigEndian(n: u32): (h: Bytes)
    ensures |h| == 4
  {
    var b2: int := n / 256;
    var b1: int := b2 / 256;
    var b0: int := b1 / 256;
    [b0, b1 % 256, b2 % 256, n % 256]
  }

  function FromBigEndian(h: Bytes): (n: u32)
    requires |h| == 4
  {
    var b0: int, b1: int, b2: int, b3: int := h[0], h[1], h[2], h[3];
    ((b0 * 256 + b1) * 256 + b2) * 256 + b3
  }

  lemma {:induction false} BigEndianInverse(n: u32)
    ensures FromBigEndian(BigEndian(n)) == n
  {
    var b2: int := n / 256;
    var b1: int := b2 / 256;
    assert n == (b2 / 256 * 256 + b2 % 256) * 256 + n % 256;
    assert b1 == b1 / 256 * 256 + b1 % 256;
  }

  /** Most significant byte first. */
  lemma {:induction false} HeaderBytes(n: u32)
    ensures var h := BigEndian(n);
            var b0: int, b1: int, b2: int, b3: int := h[0], h[1], h[2], h[3];
            n == b0 * 0x100_0000 + b1 * 0x1_0000 + b2 * 0x100 + b3
  {
    BigEndianInverse(n);
  }

  /** What a writer puts on the pipe: the length is cut to 32 bits, and not checked. */
  function EncodeFrame(body: Bytes): Bytes {
    BigEndian(ToU32(|body|)) + body
  }

  predicate Fits(body: Bytes) {
    1 <= |body| <= MAX_FRAME
  }

  datatype ReadError = Eof | UnexpectedEof | BadLength(n: u32)

  datatype ReadResult = Frame(body: Bytes, rest: Bytes) | Failed(error: ReadError, rest: Bytes)

  /** Reading one frame when s is all that will ever arrive: end of input is `Eof` when it comes
      before the first byte asked for, and that may be the first byte of the body. */
  function ReadFrame(s: Bytes): ReadResult {
    if s == [] then Failed(Eof, [])
    else if |s| < 4 then Failed(UnexpectedEof, [])
    else
      var n := FromBigEndian(s[..4]);
      if n == 0 || n > MAX_FRAME then Failed(BadLength(n), s[4..])
      else if |s| == 4 then Failed(Eof, [])
      else if |s| < 4 + n then Failed(UnexpectedEof, [])
      else Frame(s[4..4 + n], s[4 + n..])
  }

  /** How many of n bytes a pipe takes whose reader goes away after so many more; None: it stays. */
  function Taken(room: Option<nat>, n: nat): (t: nat)
    ensures t <= n
  {
    if room.None? then n else Min(n, room.value)
  }

  function RoomAfter(room: Option<nat>, n: nat): Option<nat> {
    if room.None? then None else Some(room.value - Taken(room, n))
  }

  /** The bytes of one direction of a connection that have been written and not read. */
  class Pipe {
    var data: Bytes
    var room: Option<nat>

    constructor (room: Option<nat>)
      ensures data == [] && this.room == room
    {
      data, this.room := [], room;
    }

    /** A write fails when the reader goes away before all of it is taken. */
    method Write(b: Bytes) returns (ok: bool)
      modifies this
      ensures data == old(data) + b[..Taken(old(room), |b|)] && room == RoomAfter(old(room), |b|)
      ensures ok <==> Taken(old(room), |b|) == |b|
    {
      var n := Taken(room, |b|);
      data, room := data + b[..n], RoomAfter(room, |b|);
      ok := n == |b|;
    }

    /** Reads exactly n bytes; `Eof` when there is none at all, `UnexpectedEof` when too few. */
    method ReadFull(n: nat) returns (buf: Bytes, err: Option<ReadError>)
      modifies `data
      ensures err.None? ==> |buf| == n && old(data) == buf + data
      ensures err.Some? ==> |old(data)| < n && data == []
      ensures err.Some? ==> err.value == if old(data) == [] then Eof else UnexpectedEof
      ensures err.None? <==> n <= |old(data)|
    {
      if n <= |data| {
        buf, err := data[..n], None;
        data := data[n..];
      } else {
        buf, err := data, Some(if data == [] then Eof else UnexpectedEof);
        data := [];
      }
    }
  }

  /** Header first, body second, and no body after a header that could not be written. */
  method WriteMessage(w: Pipe, body: Bytes) returns (ok: bool)
    modifies w
    ensures var frame := EncodeFrame(body);
            && w.data == old(w.data) + frame[..Taken(old(w.room), |frame|)]
            && w.room == RoomAfter(old(w.room), |frame|)
            && (ok <==> Taken(old(w.room), |frame|) == |frame|)
  {
    var header := BigEndian(ToU32(|body|));
    ghost var frame := header + body;
    ok := w.Write(header);
    if !ok {
      assert header[..Taken(old(w.room), 4)] == frame[..Taken(old(w.room), |frame|)];
      return;
    }
    assert header[..4] == header;
    ok := w.Write(body);
    assert header + body[..|w.data| - |old(w.data)| - 4] == frame[..|w.data| - |old(w.data)|];
  }

  method ReadMessage(r: Pipe) returns (body: Bytes, err: Option<ReadError>)
    modifies r`data
    ensures err.None? ==> ReadFrame(old(r.data)) == Frame(body, r.data)
    ensures err.Some? ==> ReadFrame(old(r.data)) == Failed(err.value, r.data)
  {
    body := [];
    var hdr;
    hdr, err := r.ReadFull(4);
    if err.Some? {
      return;
    }
    assert old(r.data)[..4] == hdr;
    var n := FromBigEndian(hdr);
    if n == 0 || n > MAX_FRAME {
      err := Some(BadLength(n));
      return;
    }
    body, err := r.ReadFull(n);
  }

  /** A frame is read back as it was written, and the rest left alone, exactly when its body has
      1 byte to 256 MiB. */
  lemma {:induction false} FrameExact(body: Bytes, rest: Bytes)
    ensures ReadFrame(EncodeFrame(body) + rest) == Frame(body, rest) <==> Fits(body)
    ensures Fits(body) <==> 1 <= |body| <= 256 * 1024 * 1024
  {
    var n := ToU32(|body|);
    var s := EncodeFrame(body) + rest;
    assert s[..4] == BigEndian(n);
    BigEndianInverse(n);
    if Fits(body) {
      assert s[4..4 + n] == body && s[4 + n..] == rest;
    }
  }

  /** Every body a writer can send reads as a frame, or is refused for its length modulo 2^32. */
  lemma {:induction false} WriterUnchecked(body: Bytes, rest: Bytes)
    requires !Fits(body)
    ensures var n := ToU32(|body|);
            ReadFrame(EncodeFrame(body) + rest)
            == if 1 <= n <= MAX_FRAME then Frame(body[..n], body[n..] + rest) else Failed(BadLength(n), body + rest)
  {
    var n := ToU32(|body|);
    var s := EncodeFrame(body) + rest;
    assert s[..4] == BigEndian(n);
    BigEndianInverse(n);
    assert s[4..] == body + rest;
    if 1 <= n <= MAX_FRAME {
      assert s[4..4 + n] == body[..n] && s[4 + n..] == body[n..] + rest;
    }
  }

  // ---------------------------------------------------------------- streams of frames

  function EncodeAll(bodies: seq<Bytes>): Bytes {
    if bodies == [] then [] else EncodeFrame(bodies[0]) + EncodeAll(bodies[1..])
  }

  datatype Decoded = Decoded(bodies: seq<Bytes>, error: ReadError, rest: Bytes)

  function Prepend(bodies: seq<Bytes>, d: Decoded): Decoded {
    d.(bodies := bodies + d.bodies)
  }

  /** Reading frame after frame until a read fails. */
  function DecodeAll(s: Bytes): Decoded
    decreases |s|
  {
    match ReadFrame(s)
    case Failed(error, rest) => Decoded([], error, rest)
    case Frame(body, rest) => Prepend([body], DecodeAll(rest))
  }

  ghost predicate AllFit(bodies: seq<Bytes>) {
    forall i :: 0 <= i < |bodies| ==> Fits(bodies[i])
  }

  lemma {:induction false} DecodeNext(body: Bytes, tail: Bytes)
    requires Fits(body)
    ensures DecodeAll(EncodeFrame(body) + tail) == Prepend([body], DecodeAll(tail))
  {
    FrameExact(body, tail);
  }

  lemma {:induction false} DecodeTruncated(body: Bytes, k: nat)
    requires Fits(body) && k < |EncodeFrame(body)|
    ensures DecodeAll(EncodeFrame(body)[..k]) == Decoded([], if k == 0 || k == 4 then Eof else UnexpectedEof, [])
  {
    if 4 <= k {
      assert EncodeFrame(body)[..k][..4] == BigEndian(ToU32(|body|));
      BigEndianInverse(ToU32(|body|));
    }
  }

  /** Frames written one after another are read back as the same list, whatever follows them. */
  lemma {:induction false} StreamRoundTrip(bodies: seq<Bytes>, rest: Bytes)
    requires AllFit(bodies)
    ensures DecodeAll(EncodeAll(bodies) + rest) == Prepend(bodies, DecodeAll(rest))
  {
    hide DecodeAll, EncodeFrame;
    if bodies == [] {
      assert EncodeAll(bodies) + rest == rest;
      assert bodies + DecodeAll(rest).bodies == DecodeAll(rest).bodies;
    } else {
      var tail := EncodeAll(bodies[1..]) + rest;
      assert EncodeAll(bodies) + rest == EncodeFrame(bodies[0]) + tail;
      DecodeNext(bodies[0], tail);
      StreamRoundTrip(bodies[1..], rest);
      assert [bodies[0]] + (bodies[1..] + DecodeAll(rest).bodies) == bodies + DecodeAll(rest).bodies;
    }
  }

  /** What is read from the first k bytes of a stream of frames: a prefix of its list, a shorter
      one unless nothing was cut off, and never a bad length; end of input reads as `Eof` exactly
      when the cut is between two frames or just after a header. */
  ghost predicate CutReads(bodies: seq<Bytes>, k: nat, d: Decoded) {
    && d.bodies <= bodies && d.rest == []
    && (d.bodies == bodies <==> k == |EncodeAll(bodies)|)
    && |EncodeAll(d.bodies)| <= k
    && d.error == if k == |EncodeAll(d.bodies)| || k == |EncodeAll(d.bodies)| + 4 then Eof else UnexpectedEof
  }

  lemma {:induction false} CutReadsNext(body: Bytes, tail: seq<Bytes>, k: nat, d: Decoded)
    requires CutReads(tail, k, d)
    ensures CutReads([body] + tail, |EncodeFrame(body)| + k, Prepend([body], d))
  {
    hide EncodeFrame;
    assert ([body] + d.bodies)[1..] == d.bodies && ([body] + tail)[1..] == tail;
  }

  lemma {:induction false} CutInFirst(bodies: seq<Bytes>, k: nat)
    requires AllFit(bodies) && k <= |EncodeAll(bodies)|
    requires bodies == [] || k < |EncodeFrame(bodies[0])|
    ensures CutReads(bodies, k, DecodeAll(EncodeAll(bodies)[..k]))
  {
    if bodies == [] {
    } else {
      hide DecodeAll;
      assert EncodeAll(bodies)[..k] == EncodeFrame(bodies[0])[..k];
      DecodeTruncated(bodies[0], k);
    }
  }

  /** So `Eof` alone does not show that a stream ended cleanly. */
  lemma {:induction false} StreamPrefix(bodies: seq<Bytes>, k: nat)
    requires AllFit(bodies) && k <= |EncodeAll(bodies)|
    ensures CutReads(bodies, k, DecodeAll(EncodeAll(bodies)[..k]))
  {
    hide DecodeAll, EncodeFrame, CutReads;
    if bodies == [] || k < |EncodeFrame(bodies[0])| {
      CutInFirst(bodies, k);
    } else {
      var frame, tail := EncodeFrame(bodies[0]), bodies[1..];
      var s := EncodeAll(tail)[..k - |frame|];
      assert EncodeAll(bodies)[..k] == frame + s;
      DecodeNext(bodies[0], s);
      StreamPrefix(tail, k - |frame|);
      CutReadsNext(bodies[0], tail, k - |frame|, DecodeAll(s));
      assert bodies == [bodies[0]] + tail;
    }
  }
}
