/** The client call and the plugin's serve loop as programs over the two pipes. */
module Serving {
  import opened Base
  import opened Frames
  import opened Rpc

  class Client {
    const up: Pipe
    const down: Pipe
    var nextID: u64

    constructor (up: Pipe, down: Pipe)
      ensures this.up == up && this.down == down && nextID == 0
    {
      this.up, this.down, nextID := up, down, 0;
    }

    /** The call up to its write: parameters that cannot be encoded use up an id and write nothing;
        a write that fails part-way ends the call. */
    method Begin(c: Codec, name: string, params: Option<Bytes>) returns (req: Option<Request>)
      modifies `nextID, up
      ensures nextID == ToU64(old(nextID) + 1)
      ensures params.None? ==> req.None? && up.data == old(up.data) && up.room == old(up.room)
      ensures params.Some? ==>
                var r := Request(nextID, name, params.value);
                var frame := EncodeFrame(c.encReq(r));
                && up.data == old(up.data) + frame[..Taken(old(up.room), |frame|)]
                && up.room == RoomAfter(old(up.room), |frame|)
                && req == if Taken(old(up.room), |frame|) == |frame| then Some(r) else None
    {
      nextID := ToU64(nextID + 1);
      if params.None? {
        return None;
      }
      var r := Request(nextID, name, params.value);
      var ok := WriteMessage(up, c.encReq(r));
      return if ok then Some(r) else None;
    }

    /** The rest of the call: read one reply, check its id, report the plugin's error or its result. */
    method End(c: Codec, req: Request) returns (o: Outcome)
      modifies down`data
      ensures o == Finish(c, req, old(down.data))
      ensures ReadFrame(old(down.data)).rest == down.data
    {
      var body, err := ReadMessage(down);
      if err.Some? {
        return ReadFailed;
      }
      var resp := c.decResp(body);
      if resp.None? {
        return ReadFailed;
      }
      if resp.value.id != req.id {
        return IdMismatch;
      }
      if !resp.value.ok {
        return PluginError(resp.value.error);
      }
      if |resp.value.result| == 0 {
        return Returned([]);
      }
      var bad := c.resultError(req.methodName, resp.value.result);
      return if bad.Some? then Undecodable(bad.value) else Returned(resp.value.result);
    }
  }

  /** What a plugin does with everything that arrives: answer frame after frame, until a read, a
      decoding or the write of a reply fails, or a close request has been answered. */
  function ServeStream<S, Cfg, Ev>(c: Codec, p: Plugin<S, Cfg, Ev>, s: S, data: Bytes, room: Option<nat>): (S, Bytes)
    decreases |data|
  {
    match ReadFrame(data)
    case Failed(_, _) => (s, [])
    case Frame(body, rest) =>
      if c.decReq(body).None? then (s, []) else
      var req := c.decReq(body).value;
      var (next, resp) := Handle(p, s, req);
      var reply := EncodeFrame(c.encResp(resp));
      var n := Taken(room, |reply|);
      if n < |reply| || req.methodName == METHOD_CLOSE then (next, reply[..n]) else
      var (last, replies) := ServeStream(c, p, next, rest, RoomAfter(room, |reply|));
      (last, reply + replies)
  }

  lemma {:induction false} FrameShrinks(s: Bytes)
    ensures ReadFrame(s).Frame? ==> |ReadFrame(s).rest| < |s|
  {
  }

  method Serve<S, Cfg, Ev>(c: Codec, p: Plugin<S, Cfg, Ev>, handler: S, input: Pipe, output: Pipe) returns (last: S)
    requires input != output
    modifies input, output
    ensures last == ServeStream(c, p, handler, old(input.data), old(output.room)).0
    ensures output.data == old(output.data) + ServeStream(c, p, handler, old(input.data), old(output.room)).1
  {
    hide Handle, EncodeFrame, ReadFrame, Taken, RoomAfter;
    last := handler;
    while true
      invariant ServeStream(c, p, handler, old(input.data), old(output.room)).0
                == ServeStream(c, p, last, input.data, output.room).0
      invariant old(output.data) + ServeStream(c, p, handler, old(input.data), old(output.room)).1
                == output.data + ServeStream(c, p, last, input.data, output.room).1
      decreases |input.data|
    {
      ghost var out, room := output.data, output.room;
      FrameShrinks(input.data);
      var body, err := ReadMessage(input);
      if err.Some? || c.decReq(body).None? {
        return;
      }
      var req := c.decReq(body).value;
      var (next, resp) := Handle(p, last, req);
      var ok := WriteMessage(output, c.encResp(resp));
      last := next;
      if !ok || req.methodName == METHOD_CLOSE {
        return;
      }
      ghost var reply, replies := EncodeFrame(c.encResp(resp)), ServeStream(c, p, next, input.data, output.room).1;
      assert reply[..|reply|] == reply;
      assert out + (reply + replies) == (out + reply) + replies;
    }
  }

  function RequestBodies(c: Codec, reqs: seq<Request>): seq<Bytes> {
    seq(|reqs|, i requires 0 <= i < |reqs| => c.encReq(reqs[i]))
  }

  function ResponseBodies(c: Codec, resps: seq<Response>): seq<Bytes> {
    seq(|resps|, i requires 0 <= i < |resps| => c.encResp(resps[i]))
  }

  /** Serving from the first request on. */
  lemma {:induction false} ServeFirst<S, Cfg, Ev>(p: Plugin<S, Cfg, Ev>, s: S, reqs: seq<Request>)
    requires reqs != []
    ensures var (next, resp) := Handle(p, s, reqs[0]);
            ServeAll(p, s, reqs) == (ServeAll(p, next, reqs[1..]).0, [resp] + ServeAll(p, next, reqs[1..]).1)
  {
    hide Handle;
    var n := |reqs| - 1;
    var next, resp := Handle(p, s, reqs[0]).0, Handle(p, s, reqs[0]).1;
    var tail := reqs[1..];
    assert reqs == reqs[..n] + [reqs[n]];
    ServeAllNext(p, s, reqs[..n], reqs[n]);
    if n == 0 {
      assert tail == [] && reqs[..n] == [];
      assert ServeAll(p, next, tail) == (next, []);
      assert ServeAll(p, s, reqs[..n]) == (s, []);
      assert ServeAll(p, s, reqs).1 == [] + [resp] == [resp] + ServeAll(p, next, tail).1;
    } else {
      var mid := tail[..n - 1];
      assert reqs[..n][1..] == mid && tail == mid + [reqs[n]];
      ServeFirst(p, s, reqs[..n]);
      ServeAllNext(p, next, mid, reqs[n]);
      var before, served := ServeAll(p, next, mid).0, ServeAll(p, next, mid).1;
      var last := Handle(p, before, reqs[n]);
      assert ServeAll(p, s, reqs[..n]) == (before, [resp] + served);
      assert ServeAll(p, s, reqs) == (last.0, ([resp] + served) + [last.1]);
      assert ([resp] + served) + [last.1] == [resp] + (served + [last.1]);
    }
  }

  lemma {:induction false} BodiesNext(c: Codec, reqs: seq<Request>)
    requires reqs != []
    ensures RequestBodies(c, reqs)[0] == c.encReq(reqs[0]) && RequestBodies(c, reqs)[1..] == RequestBodies(c, reqs[1..])
  {
  }

  lemma {:induction false} ResponsesNext(c: Codec, resp: Response, resps: seq<Response>)
    ensures EncodeAll(ResponseBodies(c, [resp] + resps))
            == EncodeFrame(c.encResp(resp)) + EncodeAll(ResponseBodies(c, resps))
  {
    assert ResponseBodies(c, [resp] + resps)[1..] == ResponseBodies(c, resps);
  }

  /** One frame at the front of the stream is one request answered, while its reply can be written. */
  lemma {:induction false} ServeNext<S, Cfg, Ev>(c: Codec, p: Plugin<S, Cfg, Ev>, s: S, req: Request, tail: Bytes,
                                                 room: Option<nat>)
    requires Faithful(c) && Fits(c.encReq(req))
    ensures var (next, resp) := Handle(p, s, req);
            var reply := EncodeFrame(c.encResp(resp));
            var served := ServeStream(c, p, s, EncodeFrame(c.encReq(req)) + tail, room);
            if room.Some? && room.value < |reply| then served == (next, reply[..room.value])
            else if req.methodName == METHOD_CLOSE then served == (next, reply)
            else
              var (last, replies) :=
                ServeStream(c, p, next, tail, if room.None? then None else Some(room.value - |reply|));
              served == (last, reply + replies)
  {
    FrameExact(c.encReq(req), tail);
    var reply := EncodeFrame(c.encResp(Handle(p, s, req).1));
    assert reply[..|reply|] == reply;
    hide Handle, EncodeFrame, ReadFrame, Fits;
  }

  /** No further request can be had: the stream ends, breaks off or has a bad frame here. */
  predicate Unreadable(c: Codec, tail: Bytes) {
    ReadFrame(tail).Failed? || c.decReq(ReadFrame(tail).body).None?
  }

  lemma {:induction false} NothingServed<S, Cfg, Ev>(c: Codec, p: Plugin<S, Cfg, Ev>, s: S)
    ensures EncodeAll(ResponseBodies(c, [])) == [] && ServeAll(p, s, []) == (s, [])
  {
    assert ResponseBodies(c, []) == [];
  }

  lemma {:induction false} ServeStops<S, Cfg, Ev>(c: Codec, p: Plugin<S, Cfg, Ev>, s: S, tail: Bytes, room: Option<nat>)
    requires Unreadable(c, tail)
    ensures ServeStream(c, p, s, EncodeAll(RequestBodies(c, [])) + tail, room) == (s, [])
    ensures EncodeAll(ResponseBodies(c, [])) == [] && ServeAll(p, s, []) == (s, [])
  {
    hide ReadFrame, Handle;
    NothingServed(c, p, s);
    assert RequestBodies(c, []) == [] && [] + tail == tail;
  }

  /** A plugin fed the frames of any requests, of which only the last may be a close, answers with
      exactly the frames of the responses it builds for them one after another; and nothing is read
      after a close request or after bytes that are no request. */
  lemma {:induction false} ServeAnswersAll<S, Cfg, Ev>(c: Codec, p: Plugin<S, Cfg, Ev>, s: S, reqs: seq<Request>,
          tail: Bytes)
    requires Faithful(c) && AllFit(RequestBodies(c, reqs))
    requires forall i :: 0 <= i < |reqs| - 1 ==> reqs[i].methodName != METHOD_CLOSE
    requires Unreadable(c, tail) || (reqs != [] && reqs[|reqs| - 1].methodName == METHOD_CLOSE)
    ensures var (last, served) := ServeAll(p, s, reqs);
            ServeStream(c, p, s, EncodeAll(RequestBodies(c, reqs)) + tail, None)
            == (last, EncodeAll(ResponseBodies(c, served)))
  {
    hide Handle, EncodeFrame, Fits, ServeStream, Unreadable;
    if reqs == [] {
      ServeStops(c, p, s, tail, None);
    } else {
      var (next, resp) := Handle(p, s, reqs[0]);
      var others := reqs[1..];
      var more := EncodeAll(RequestBodies(c, others)) + tail;
      BodiesNext(c, reqs);
      assert EncodeAll(RequestBodies(c, reqs)) + tail == EncodeFrame(c.encReq(reqs[0])) + more;
      ServeFirst(p, s, reqs);
      ResponsesNext(c, resp, ServeAll(p, next, others).1);
      ServeNext(c, p, s, reqs[0], more, None);
      if reqs[0].methodName == METHOD_CLOSE {
        assert others == [] && ServeAll(p, next, others) == (next, []) && ResponseBodies(c, []) == [];
        assert EncodeFrame(c.encResp(resp)) + [] == EncodeFrame(c.encResp(resp));
      } else {
        ServeAnswersAll(c, p, next, others, tail);
      }
    }
  }

  /** The output for the first j requests is the first reply and the output for the others. */
  lemma {:induction false} ServedFirst<S, Cfg, Ev>(c: Codec, p: Plugin<S, Cfg, Ev>, s: S, reqs: seq<Request>, j: nat)
    requires 0 < j <= |reqs|
    ensures var (next, resp) := Handle(p, s, reqs[0]);
            var (last, served) := ServeAll(p, next, reqs[1..][..j - 1]);
            && ServeAll(p, s, reqs[..j]).0 == last
            && EncodeAll(ResponseBodies(c, ServeAll(p, s, reqs[..j]).1))
               == EncodeFrame(c.encResp(resp)) + EncodeAll(ResponseBodies(c, served))
  {
    hide Handle, EncodeFrame, EncodeAll;
    var (next, resp) := Handle(p, s, reqs[0]);
    assert reqs[..j][1..] == reqs[1..][..j - 1];
    ServeFirst(p, s, reqs[..j]);
    ResponsesNext(c, resp, ServeAll(p, next, reqs[1..][..j - 1]).1);
  }

  lemma {:induction false} OneServed<S, Cfg, Ev>(c: Codec, p: Plugin<S, Cfg, Ev>, s: S, reqs: seq<Request>)
    requires reqs != []
    ensures var (next, resp) := Handle(p, s, reqs[0]);
            && ServeAll(p, s, reqs[..1]).0 == next
            && EncodeAll(ResponseBodies(c, ServeAll(p, s, reqs[..1]).1)) == EncodeFrame(c.encResp(resp))
            && EncodeAll(ResponseBodies(c, ServeAll(p, s, reqs[..0]).1)) == []
  {
    hide Handle, EncodeFrame;
    var (next, resp) := Handle(p, s, reqs[0]);
    ServedFirst(c, p, s, reqs, 1);
    assert reqs[1..][..0] == [] && reqs[..0] == [] && ResponseBodies(c, []) == [];
    assert ServeAll(p, next, []) == (next, []);
    assert EncodeFrame(c.encResp(resp)) + [] == EncodeFrame(c.encResp(resp));
  }

  /** Of these requests the first j are handled, and the output is their replies, cut after so many
      bytes; only the last of them may be cut, and it is unless j is all. */
  ghost predicate CutShort<S, Cfg, Ev>(c: Codec, p: Plugin<S, Cfg, Ev>, s: S, reqs: seq<Request>, room: nat,
                                       result: (S, Bytes), j: nat) {
    && j <= |reqs| && result.0 == ServeAll(p, s, reqs[..j]).0
    && (var out := EncodeAll(ResponseBodies(c, ServeAll(p, s, reqs[..j]).1));
        result.1 == (if room < |out| then out[..room] else out) && (j < |reqs| ==> room < |out|))
    && (j > 0 ==> |EncodeAll(ResponseBodies(c, ServeAll(p, s, reqs[..j - 1]).1))| <= room)
  }

  lemma {:induction false} CutNone<S, Cfg, Ev>(c: Codec, p: Plugin<S, Cfg, Ev>, s: S, room: nat)
    ensures CutShort(c, p, s, [], room, (s, []), 0)
  {
    NothingServed(c, p, s);
    var none: seq<Request> := [];
    assert none[..0] == [];
  }

  lemma {:induction false} CutFirst<S, Cfg, Ev>(c: Codec, p: Plugin<S, Cfg, Ev>, s: S, reqs: seq<Request>, room: nat)
    requires reqs != []
    ensures var (next, resp) := Handle(p, s, reqs[0]);
            var reply := EncodeFrame(c.encResp(resp));
            && (room < |reply| ==> CutShort(c, p, s, reqs, room, (next, reply[..room]), 1))
            && (room >= |reply| && |reqs| == 1 ==> CutShort(c, p, s, reqs, room, (next, reply), 1))
  {
    hide Handle, EncodeFrame, ServeAll, ResponseBodies;
    OneServed(c, p, s, reqs);
  }

  lemma {:induction false} CutLater<S, Cfg, Ev>(c: Codec, p: Plugin<S, Cfg, Ev>, s: S, reqs: seq<Request>, room: nat,
                                                rest: (S, Bytes), i: nat)
    requires reqs != []
    requires var reply := EncodeFrame(c.encResp(Handle(p, s, reqs[0]).1));
             |reply| <= room && CutShort(c, p, Handle(p, s, reqs[0]).0, reqs[1..], room - |reply|, rest, i)
    ensures var reply := EncodeFrame(c.encResp(Handle(p, s, reqs[0]).1));
            CutShort(c, p, s, reqs, room, (rest.0, reply + rest.1), i + 1)
  {
    hide Handle, EncodeFrame, EncodeAll, ServeAll, ResponseBodies;
    var (next, resp) := Handle(p, s, reqs[0]);
    var reply := EncodeFrame(c.encResp(resp));
    ServedFirst(c, p, s, reqs, i + 1);
    var out := EncodeAll(ResponseBodies(c, ServeAll(p, next, reqs[1..][..i]).1));
    assert room < |reply + out| ==> (reply + out)[..room] == reply + out[..room - |reply|];
    if i > 0 {
      ServedFirst(c, p, s, reqs, i);
    } else {
      assert reqs[..0] == [];
      NothingServed(c, p, s);
    }
  }

  /** A writer that fails after so many bytes: the replies are cut there, and no request is handled
      after the first one whose reply was cut. */
  lemma {:induction false} ServeCutShort<S, Cfg, Ev>(c: Codec, p: Plugin<S, Cfg, Ev>, s: S, reqs: seq<Request>,
          tail: Bytes, room: nat)
    returns (j: nat)
    requires Faithful(c) && AllFit(RequestBodies(c, reqs))
    requires forall i :: 0 <= i < |reqs| - 1 ==> reqs[i].methodName != METHOD_CLOSE
    requires Unreadable(c, tail) || (reqs != [] && reqs[|reqs| - 1].methodName == METHOD_CLOSE)
    ensures CutShort(c, p, s, reqs, room,
                     ServeStream(c, p, s, EncodeAll(RequestBodies(c, reqs)) + tail, Some(room)), j)
  {
    hide Handle, EncodeFrame, Fits, ServeStream, Unreadable, CutShort;
    if reqs == [] {
      j := 0;
      ServeStops(c, p, s, tail, Some(room));
      CutNone(c, p, s, room);
    } else {
      var (next, resp) := Handle(p, s, reqs[0]);
      var others, reply := reqs[1..], EncodeFrame(c.encResp(resp));
      var more := EncodeAll(RequestBodies(c, others)) + tail;
      BodiesNext(c, reqs);
      assert EncodeAll(RequestBodies(c, reqs)) + tail == EncodeFrame(c.encReq(reqs[0])) + more;
      ServeNext(c, p, s, reqs[0], more, Some(room));
      CutFirst(c, p, s, reqs, room);
      if room < |reply| || reqs[0].methodName == METHOD_CLOSE {
        j := 1;
      } else {
        var i := ServeCutShort(c, p, next, others, tail, room - |reply|);
        CutLater(c, p, s, reqs, room, ServeStream(c, p, next, more, Some(room - |reply|)), i);
        j := i + 1;
      }
    }
  }
}
