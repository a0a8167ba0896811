/** A client and a plugin process calling each other in lockstep over two byte pipes. */
module Rpc {
  import opened Base
  import opened Frames

  const API_VERSION := "1"

  const METHOD_INFO := "info"
  const METHOD_CONFIGURE := "configure"
  const METHOD_PROCESS := "process"
  const METHOD_EMIT := "emit"
  const METHOD_CLOSE := "close"

  datatype Request = Request(id: u64, methodName: string, params: Bytes)

  datatype Response = Response(id: u64, ok: bool, error: string, result: Bytes)

  datatype Result<T> = Ok(value: T) | Err(error: string)

  datatype PluginInfo = PluginInfo(name: string, kind: string, apiVersion: string)

  /** A plugin: what its handler does in each state S, the JSON encoding of its values, and the
      quoting of a name in an error message. */
  datatype Plugin<!S, !Cfg, !Ev> = Plugin(
    info: S -> (S, PluginInfo),
    configure: (S, Cfg) -> (S, Option<string>),
    process: (S, Ev) -> (S, Ev, Result<Option<Ev>>),   // also the event as the handler leaves it
    emit: (S, Ev) -> (S, Option<string>),
    close: S -> (S, Option<string>),
    emptyCfg: Cfg,
    decodeCfg: Bytes -> Result<Cfg>,
    decodeEv: Bytes -> Result<Ev>,
    encodeEv: Ev -> Result<Bytes>,
    encodeInfo: PluginInfo -> Result<Bytes>,
    encodeStatus: string -> Bytes,
    quote: string -> string)

  function ErrResp(id: u64, error: string): Response {
    Response(id, false, error, [])
  }

  function Reply(id: u64, result: Result<Bytes>): Response {
    match result
    case Ok(b) => Response(id, true, "", b)
    case Err(e) => ErrResp(id, e)
  }

  /** The reply to a handler call that returns only an error. */
  function StatusReply<S, Cfg, Ev>(p: Plugin<S, Cfg, Ev>, id: u64, err: Option<string>, message: string): Response {
    if err.Some? then ErrResp(id, err.value) else Reply(id, Ok(p.encodeStatus(message)))
  }

  /** Answers one request: the handler's next state, and the response. */
  function Handle<S, Cfg, Ev>(p: Plugin<S, Cfg, Ev>, s: S, req: Request): (S, Response) {
    if req.methodName == METHOD_INFO then
      var (s', info) := p.info(s);
      (s', Reply(req.id, p.encodeInfo(if info.apiVersion == "" then info.(apiVersion := API_VERSION) else info)))
    else if req.methodName == METHOD_CONFIGURE then
      var cfg := if req.params == [] then Ok(p.emptyCfg) else p.decodeCfg(req.params);
      if cfg.Err? then (s, ErrResp(req.id, cfg.error)) else
      var (s', err) := p.configure(s, cfg.value);
      (s', StatusReply(p, req.id, err, "ok"))
    else if req.methodName == METHOD_PROCESS then
      var ev := p.decodeEv(req.params);
      if ev.Err? then (s, ErrResp(req.id, ev.error)) else
      var (s', left, out) := p.process(s, ev.value);
      if out.Err? then (s', ErrResp(req.id, out.error)) else
      (s', Reply(req.id, p.encodeEv(if out.value.Some? then out.value.value else left)))
    else if req.methodName == METHOD_EMIT then
      var ev := p.decodeEv(req.params);
      if ev.Err? then (s, ErrResp(req.id, ev.error)) else
      var (s', err) := p.emit(s, ev.value);
      (s', StatusReply(p, req.id, err, "ok"))
    else if req.methodName == METHOD_CLOSE then
      var (s', err) := p.close(s);
      (s', StatusReply(p, req.id, err, "closed"))
    else
      (s, ErrResp(req.id, "unknown method " + p.quote(req.methodName)))
  }

  /** Whatever the request and the handler do, the response carries the request's id; an error
      response has no result; and a request that cannot be understood does not reach the handler. */
  lemma {:induction false} HandleAnswers<S, Cfg, Ev>(p: Plugin<S, Cfg, Ev>, s: S, req: Request)
    ensures Handle(p, s, req).1.id == req.id
    ensures Handle(p, s, req).1.ok ==> Handle(p, s, req).1.error == ""
    ensures !Handle(p, s, req).1.ok ==> Handle(p, s, req).1.result == []
    ensures var known := {METHOD_INFO, METHOD_CONFIGURE, METHOD_PROCESS, METHOD_EMIT, METHOD_CLOSE};
            var undecodable :=
              || (req.methodName == METHOD_CONFIGURE && req.params != [] && p.decodeCfg(req.params).Err?)
              || (req.methodName in {METHOD_PROCESS, METHOD_EMIT} && p.decodeEv(req.params).Err?);
            req.methodName !in known || undecodable ==> Handle(p, s, req).0 == s && !Handle(p, s, req).1.ok
  {
  }

  /** The handler's state and all responses after serving the requests in order. */
  function ServeAll<S, Cfg, Ev>(p: Plugin<S, Cfg, Ev>, s: S, reqs: seq<Request>): (S, seq<Response>) {
    if reqs == [] then (s, []) else
    var (before, served) := ServeAll(p, s, reqs[..|reqs| - 1]);
    var (after, resp) := Handle(p, before, reqs[|reqs| - 1]);
    (after, served + [resp])
  }

  // ---------------------------------------------------------------- what each method does

  /** Asking for information: an API version the handler leaves empty is sent as "1". */
  lemma {:induction false} InfoCalls<S, Cfg, Ev>(p: Plugin<S, Cfg, Ev>, s: S, req: Request)
    requires req.methodName == "info"
    ensures var (after, resp) := Handle(p, s, req);
            var info := p.info(s).1;
            var sent := PluginInfo(info.name, info.kind, if info.apiVersion == "" then "1" else info.apiVersion);
            && after == p.info(s).0 && (resp.ok <==> p.encodeInfo(sent).Ok?)
            && (resp.ok ==> resp.result == p.encodeInfo(sent).value)
            && (!resp.ok ==> resp.error == p.encodeInfo(sent).error)
  {
  }

  /** Configuring: no parameters give the empty configuration, and the handler's error is the reply's. */
  lemma {:induction false} ConfigureCalls<S, Cfg, Ev>(p: Plugin<S, Cfg, Ev>, s: S, req: Request, cfg: Cfg)
    requires req.methodName == "configure"
    requires if req.params == [] then cfg == p.emptyCfg else p.decodeCfg(req.params) == Ok(cfg)
    ensures var (after, resp) := Handle(p, s, req);
            && after == p.configure(s, cfg).0 && (resp.ok <==> p.configure(s, cfg).1.None?)
            && (resp.ok ==> resp.result == p.encodeStatus("ok"))
            && (!resp.ok ==> resp.error == p.configure(s, cfg).1.value)
  {
  }

  /** Processing: the result is the handler's replacement, or else the event as the handler left it. */
  lemma {:induction false} ProcessCalls<S, Cfg, Ev>(p: Plugin<S, Cfg, Ev>, s: S, req: Request, ev: Ev)
    requires req.methodName == "process" && p.decodeEv(req.params) == Ok(ev)
    ensures var (after, resp) := Handle(p, s, req);
            var (next, left, out) := p.process(s, ev);
            && after == next
            && (out.Err? ==> !resp.ok && resp.error == out.error)
            && (forall other: Ev :: out == Ok(Some(other)) ==>
                  (if p.encodeEv(other).Ok? then resp.ok && resp.result == p.encodeEv(other).value
                   else !resp.ok && resp.error == p.encodeEv(other).error))
            && (out == Ok(None) ==>
                  (if p.encodeEv(left).Ok? then resp.ok && resp.result == p.encodeEv(left).value
                   else !resp.ok && resp.error == p.encodeEv(left).error))
  {
  }

  /** Emitting: the event reaches the handler, whose error is the reply's. */
  lemma {:induction false} EmitCalls<S, Cfg, Ev>(p: Plugin<S, Cfg, Ev>, s: S, req: Request, ev: Ev)
    requires req.methodName == "emit" && p.decodeEv(req.params) == Ok(ev)
    ensures var (after, resp) := Handle(p, s, req);
            && after == p.emit(s, ev).0 && (resp.ok <==> p.emit(s, ev).1.None?)
            && (resp.ok ==> resp.result == p.encodeStatus("ok"))
            && (!resp.ok ==> resp.error == p.emit(s, ev).1.value)
  {
  }

  /** Closing closes the handler, whose error is the reply's. */
  lemma {:induction false} CloseCalls<S, Cfg, Ev>(p: Plugin<S, Cfg, Ev>, s: S, req: Request)
    requires req.methodName == "close"
    ensures var (after, resp) := Handle(p, s, req);
            && after == p.close(s).0 && (resp.ok <==> p.close(s).1.None?)
            && (resp.ok ==> resp.result == p.encodeStatus("closed"))
            && (!resp.ok ==> resp.error == p.close(s).1.value)
  {
  }

  /** Nothing is handled that is not one of the five methods, or whose parameters do not decode. */
  lemma {:induction false} RefusedCalls<S, Cfg, Ev>(p: Plugin<S, Cfg, Ev>, s: S, req: Request)
    ensures req.methodName !in {"info", "configure", "process", "emit", "close"} ==>
              Handle(p, s, req) == (s, Response(req.id, false, "unknown method " + p.quote(req.methodName), []))
    ensures req.methodName == "configure" && req.params != [] && p.decodeCfg(req.params).Err? ==>
              Handle(p, s, req) == (s, Response(req.id, false, p.decodeCfg(req.params).error, []))
    ensures req.methodName in {"process", "emit"} && p.decodeEv(req.params).Err? ==>
              Handle(p, s, req) == (s, Response(req.id, false, p.decodeEv(req.params).error, []))
  {
  }

  // ---------------------------------------------------------------- the trace of handler calls

  /** One call of a handler method. */
  datatype HandlerCall<Cfg, Ev> = Info | Configure(cfg: Cfg) | Process(ev: Ev) | Emit(ev: Ev) | Close

  /** The same plugin, with a record of every handler call in its state. */
  function Logged<S, Cfg, Ev>(p: Plugin<S, Cfg, Ev>): Plugin<(S, seq<HandlerCall<Cfg, Ev>>), Cfg, Ev> {
    Plugin(
      (s: (S, seq<HandlerCall<Cfg, Ev>>)) => var (next, info) := p.info(s.0); ((next, s.1 + [Info]), info),
      (s: (S, seq<HandlerCall<Cfg, Ev>>), cfg: Cfg) =>
        var (next, err) := p.configure(s.0, cfg); ((next, s.1 + [Configure(cfg)]), err),
      (s: (S, seq<HandlerCall<Cfg, Ev>>), ev: Ev) =>
        var (next, left, out) := p.process(s.0, ev); ((next, s.1 + [Process(ev)]), left, out),
      (s: (S, seq<HandlerCall<Cfg, Ev>>), ev: Ev) =>
        var (next, err) := p.emit(s.0, ev); ((next, s.1 + [Emit(ev)]), err),
      (s: (S, seq<HandlerCall<Cfg, Ev>>)) => var (next, err) := p.close(s.0); ((next, s.1 + [Close]), err),
      p.emptyCfg, p.decodeCfg, p.decodeEv, p.encodeEv, p.encodeInfo, p.encodeStatus, p.quote)
  }

  /** The handler call a request asks for, if it asks for one that can be made. */
  function Asked<S, Cfg, Ev>(p: Plugin<S, Cfg, Ev>, req: Request): seq<HandlerCall<Cfg, Ev>> {
    match req.methodName
    case "info" => [Info]
    case "configure" =>
      if req.params == [] then [Configure(p.emptyCfg)]
      else if p.decodeCfg(req.params).Ok? then [Configure(p.decodeCfg(req.params).value)] else []
    case "process" => if p.decodeEv(req.params).Ok? then [Process(p.decodeEv(req.params).value)] else []
    case "emit" => if p.decodeEv(req.params).Ok? then [Emit(p.decodeEv(req.params).value)] else []
    case "close" => [Close]
    case _ => []
  }

  function AskedAll<S, Cfg, Ev>(p: Plugin<S, Cfg, Ev>, reqs: seq<Request>): seq<HandlerCall<Cfg, Ev>> {
    if reqs == [] then [] else AskedAll(p, reqs[..|reqs| - 1]) + Asked(p, reqs[|reqs| - 1])
  }

  /** One request, with the calls recorded: the same state and response, and the call it asks for. */
  lemma {:induction false} HandleLogs<S, Cfg, Ev>(p: Plugin<S, Cfg, Ev>, s: S, log: seq<HandlerCall<Cfg, Ev>>,
                                                  req: Request)
    ensures Handle(Logged(p), (s, log), req).0.0 == Handle(p, s, req).0
    ensures Handle(Logged(p), (s, log), req).1 == Handle(p, s, req).1
    ensures Handle(Logged(p), (s, log), req).0.1 == log + Asked(p, req)
  {
  }

  /** Over any requests, the handler is called exactly as the requests ask that can be understood, in
      order, and recording the calls changes nothing else. */
  lemma {:induction false} CallsAreThoseAsked<S, Cfg, Ev>(p: Plugin<S, Cfg, Ev>, s: S, reqs: seq<Request>)
    ensures var (after, served) := ServeAll(p, s, reqs);
            ServeAll(Logged(p), (s, []), reqs) == ((after, AskedAll(p, reqs)), served)
  {
    if reqs == [] {
    } else {
      hide Handle, Logged, Asked;
      var before := reqs[..|reqs| - 1];
      CallsAreThoseAsked(p, s, before);
      HandleLogs(p, ServeAll(p, s, before).0, AskedAll(p, before), reqs[|reqs| - 1]);
    }
  }

  // ---------------------------------------------------------------- the two processes

  /** How requests and responses are written as frame bodies, and what is wrong, if anything, with
      the bytes of a method's result. */
  datatype Codec = Codec(
    encReq: Request -> Bytes,
    decReq: Bytes -> Option<Request>,
    encResp: Response -> Bytes,
    decResp: Bytes -> Option<Response>,
    resultError: (string, Bytes) -> Option<string>)

  ghost predicate Faithful(c: Codec) {
    && (forall r: Request :: c.decReq(c.encReq(r)) == Some(r))
    && (forall r: Response :: c.decResp(c.encResp(r)) == Some(r))
  }

  /** What a call returns: an error of the connection, an error of the plugin, an error in decoding
      the result, or a result. */
  datatype Outcome =
    | ReadFailed
    | IdMismatch
    | PluginError(error: string)
    | Undecodable(error: string)
    | Returned(result: Bytes)

  datatype Client = Idle | Sending(req: Request, rest: Bytes) | Receiving(req: Request, got: Bytes) | Killed

  datatype Server = Reading(got: Bytes) | Replying(req: Request, resp: Response, rest: Bytes) | Exited

  datatype State<S> = State(
    calls: nat,               // calls begun
    client: Client,
    server: Server,
    up: Bytes,                // written by the client, not yet read
    down: Bytes,              // written by the plugin, not yet read
    handler: S,
    sent: seq<Request>,       // history: every request written
    served: seq<Response>,    // history: every response built
    results: seq<Outcome>,    // history: what the calls that wrote a request returned
    sized: bool)              // history: every frame body had 1 byte to 256 MiB

  datatype Action =
    | Call(methodName: string, params: Bytes)
    | CallUnmarshalable       // the parameters cannot be encoded: an error before anything is written
    | ClientWrite(n: nat)     // the next n bytes go into the pipe
    | ClientSent
    | ClientRead(n: nat)      // n bytes arrive
    | ClientReturn
    | ServerRead(n: nat)
    | ServerHandle
    | ServerWrite(n: nat)
    | ServerNext

  /** How many more bytes a reader that has got these asks for: first a header, then its body. */
  function Wanted(got: Bytes): nat {
    if |got| < 4 then 4 - |got| else
    var n := FromBigEndian(got[..4]);
    if n == 0 || n > MAX_FRAME || |got| >= 4 + n then 0 else 4 + n - |got|
  }

  predicate Enabled<S>(s: State<S>, cap: nat, a: Action) {
    match a
    case Call(_, _) => s.client.Idle?
    case CallUnmarshalable => s.client.Idle?
    case ClientWrite(n) => s.client.Sending? && 1 <= n <= |s.client.rest| && |s.up| + n <= cap
    case ClientSent => s.client.Sending? && s.client.rest == []
    case ClientRead(n) => s.client.Receiving? && 1 <= n <= |s.down| && n <= Wanted(s.client.got)
    case ClientReturn => s.client.Receiving? && Wanted(s.client.got) == 0
    case ServerRead(n) => s.server.Reading? && 1 <= n <= |s.up| && n <= Wanted(s.server.got)
    case ServerHandle => s.server.Reading? && Wanted(s.server.got) == 0
    case ServerWrite(n) => s.server.Replying? && 1 <= n <= |s.server.rest| && |s.down| + n <= cap
    case ServerNext => s.server.Replying? && s.server.rest == []
  }

  /** An empty result is not decoded. */
  function OutcomeOf(c: Codec, req: Request, resp: Response): Outcome {
    if !resp.ok then PluginError(resp.error)
    else if resp.result != [] && c.resultError(req.methodName, resp.result).Some? then
      Undecodable(c.resultError(req.methodName, resp.result).value)
    else Returned(resp.result)
  }

  /** The end of a call, once its reply frame is complete or refused. */
  function Finish(c: Codec, req: Request, got: Bytes): Outcome {
    match ReadFrame(got)
    case Failed(_, _) => ReadFailed
    case Frame(body, _) =>
      var resp := c.decResp(body);
      if resp.None? then ReadFailed
      else if resp.value.id != req.id then IdMismatch
      else OutcomeOf(c, req, resp.value)
  }

  function Next<S, Cfg, Ev>(c: Codec, p: Plugin<S, Cfg, Ev>, cap: nat, s: State<S>, a: Action): State<S>
    requires Enabled(s, cap, a)
  {
    match a
    case Call(name, params) =>
      var req := Request(ToU64(s.calls + 1), name, params);
      s.(calls := s.calls + 1, client := Sending(req, EncodeFrame(c.encReq(req))), sent := s.sent + [req],
         sized := s.sized && Fits(c.encReq(req)))
    case CallUnmarshalable => s.(calls := s.calls + 1)
    case ClientWrite(n) =>
      s.(client := s.client.(rest := s.client.rest[n..]), up := s.up + s.client.rest[..n])
    case ClientSent => s.(client := Receiving(s.client.req, []))
    case ClientRead(n) => s.(client := s.client.(got := s.client.got + s.down[..n]), down := s.down[n..])
    case ClientReturn =>
      s.(client := if s.client.req.methodName == METHOD_CLOSE then Killed else Idle,
         results := s.results + [Finish(c, s.client.req, s.client.got)])
    case ServerRead(n) => s.(server := Reading(s.server.got + s.up[..n]), up := s.up[n..])
    case ServerHandle =>
      var frame := ReadFrame(s.server.got);
      if frame.Failed? || c.decReq(frame.body).None? then s.(server := Exited) else
      var req := c.decReq(frame.body).value;
      var (handler, resp) := Handle(p, s.handler, req);
      s.(server := Replying(req, resp, EncodeFrame(c.encResp(resp))), handler := handler,
         served := s.served + [resp], sized := s.sized && Fits(c.encResp(resp)))
    case ServerWrite(n) =>
      s.(server := s.server.(rest := s.server.rest[n..]), down := s.down + s.server.rest[..n])
    case ServerNext => s.(server := if s.server.req.methodName == METHOD_CLOSE then Exited else Reading([]))
  }

  function Init<S>(handler: S): State<S> {
    State(0, Idle, Reading([]), [], [], handler, [], [], [], true)
  }

  /** The state a run leads to; None when some action of it was not possible. */
  function Run<S, Cfg, Ev>(c: Codec, p: Plugin<S, Cfg, Ev>, cap: nat, handler: S, acts: seq<Action>): Option<State<S>> {
    if acts == [] then Some(Init(handler)) else
    var before := Run(c, p, cap, handler, acts[..|acts| - 1]);
    var a := acts[|acts| - 1];
    if before.Some? && Enabled(before.value, cap, a) then Some(Next(c, p, cap, before.value, a)) else None
  }

  // ---------------------------------------------------------------- the lockstep invariant

  function Unsent(client: Client): Bytes {
    if client.Sending? then client.rest else []
  }

  function Got(client: Client): Bytes {
    if client.Receiving? then client.got else []
  }

  function ServerGot(server: Server): Bytes {
    if server.Reading? then server.got else []
  }

  function ServerUnsent(server: Server): Bytes {
    if server.Replying? then server.rest else []
  }

  /** The client has at most one call open, and the plugin has answered at most that one. */
  ghost predicate Lockstep<S>(s: State<S>) {
    && |s.results| <= |s.served| <= |s.sent|
    && |s.sent| == |s.results| + (if s.client.Idle? || s.client.Killed? then 0 else 1)
    && (s.client.Sending? || s.client.Receiving? ==> s.client.req == s.sent[|s.sent| - 1])
    && (s.server.Replying? ==>
          s.served != [] && s.server.req == s.sent[|s.served| - 1] && s.server.resp == s.served[|s.served| - 1])
  }

  /** A close request is the last one, and only it ends the plugin. */
  ghost predicate CloseLast<S>(s: State<S>) {
    && (forall k :: 0 <= k < |s.sent| - 1 ==> s.sent[k].methodName != METHOD_CLOSE)
    && (s.client.Idle? && s.sent != [] ==> s.sent[|s.sent| - 1].methodName != METHOD_CLOSE)
    && (s.server.Exited? ==>
          |s.served| == |s.sent| && s.sent != [] && s.sent[|s.sent| - 1].methodName == METHOD_CLOSE)
  }

  /** Where the bytes are: of the open call's request until it is answered, then of its response. */
  ghost predicate Bytewise<S>(c: Codec, s: State<S>)
    requires Lockstep(s)
  {
    && (if |s.served| < |s.sent| then
          ServerGot(s.server) + s.up + Unsent(s.client) == EncodeFrame(c.encReq(s.sent[|s.sent| - 1]))
        else
          ServerGot(s.server) == [] && s.up == [] && Unsent(s.client) == [])
    && (if |s.results| < |s.served| then
          Got(s.client) + s.down + ServerUnsent(s.server) == EncodeFrame(c.encResp(s.served[|s.served| - 1]))
        else
          Got(s.client) == [] && s.down == [] && ServerUnsent(s.server) == [])
  }

  /** Responses are those of a plugin serving the requests one after another; results are those
      responses; and the open call's frames have an acceptable size. */
  ghost predicate Answered<S, Cfg, Ev>(c: Codec, p: Plugin<S, Cfg, Ev>, handler: S, s: State<S>)
    requires Lockstep(s)
  {
    && (s.handler, s.served) == ServeAll(p, handler, s.sent[..|s.served|])
    && (forall k :: 0 <= k < |s.served| ==> s.served[k].id == s.sent[k].id)
    && (forall k :: 0 <= k < |s.results| ==> s.results[k] == OutcomeOf(c, s.sent[k], s.served[k]))
    && (s.sent != [] ==> Fits(c.encReq(s.sent[|s.sent| - 1])))
    && (s.served != [] ==> Fits(c.encResp(s.served[|s.served| - 1])))
  }

  ghost predicate Inv<S, Cfg, Ev>(c: Codec, p: Plugin<S, Cfg, Ev>, handler: S, s: State<S>) {
    Lockstep(s) && CloseLast(s) && Bytewise(c, s) && Answered(c, p, handler, s)
  }

  /** A reader asks for exactly the bytes of the frame being sent, no more. */
  lemma {:induction false} WantedExact(got: Bytes, tail: Bytes, body: Bytes)
    requires got + tail == EncodeFrame(body) && Fits(body)
    ensures Wanted(got) == 0 ==> tail == [] && got == EncodeFrame(body) && ReadFrame(got) == Frame(body, [])
    ensures Wanted(got) <= |tail|
  {
    hide BigEndian, FromBigEndian;
    if |got| >= 4 {
      assert got[..4] == EncodeFrame(body)[..4] == BigEndian(|body|);
      BigEndianInverse(|body|);
    }
    if tail == [] {
      FrameExact(body, []);
      assert EncodeFrame(body) + [] == EncodeFrame(body) == got;
    }
  }

  lemma {:induction false} NothingYet()
    ensures Wanted([]) == 4
  {
  }

  lemma {:induction false} ServeAllNext<S, Cfg, Ev>(p: Plugin<S, Cfg, Ev>, s: S, reqs: seq<Request>, req: Request)
    ensures var (before, served) := ServeAll(p, s, reqs);
            var (after, resp) := Handle(p, before, req);
            ServeAll(p, s, reqs + [req]) == (after, served + [resp])
  {
    assert (reqs + [req])[..|reqs|] == reqs;
  }

  /** Starting a call, when no other is open. */
  lemma {:induction false} CallInv<S, Cfg, Ev>(c: Codec, p: Plugin<S, Cfg, Ev>, cap: nat, handler: S,
          s: State<S>, a: Action)
    requires Inv(c, p, handler, s) && Enabled(s, cap, a) && a.Call? && Next(c, p, cap, s, a).sized
    ensures Inv(c, p, handler, Next(c, p, cap, s, a))
  {
    hide Handle, EncodeFrame, Wanted, Fits, ServeAll;
    var s' := Next(c, p, cap, s, a);
    assert s'.sent[..|s.served|] == s.sent[..|s.served|];
    assert forall k :: 0 <= k < |s.sent| ==> s'.sent[k] == s.sent[k];
  }

  lemma {:induction false} UnmarshalableInv<S, Cfg, Ev>(c: Codec, p: Plugin<S, Cfg, Ev>, cap: nat, handler: S,
          s: State<S>)
    requires Inv(c, p, handler, s) && Enabled(s, cap, CallUnmarshalable)
    ensures Inv(c, p, handler, Next(c, p, cap, s, CallUnmarshalable))
  {
    hide Handle, EncodeFrame, Wanted, Fits, ServeAll;
  }

  /** What has been answered does not depend on where the bytes are. */
  lemma {:induction false} StillAnswered<S, Cfg, Ev>(c: Codec, p: Plugin<S, Cfg, Ev>, handler: S, s: State<S>,
          s': State<S>)
    requires Lockstep(s) && Lockstep(s') && Answered(c, p, handler, s)
    requires s'.handler == s.handler && s'.sent == s.sent && s'.served == s.served && s'.results == s.results
    ensures Answered(c, p, handler, s')
  {
  }

  /** Moving bytes between neighbours leaves the whole as it is. */
  lemma {:induction false} MoveLeft(x: Bytes, y: Bytes, z: Bytes, n: nat)
    requires n <= |z|
    ensures x + (y + z[..n]) + z[n..] == x + y + z
    ensures (x + z[..n]) + z[n..] + y == x + z + y
  {
  }

  /** Bytes moving from the client. */
  lemma {:induction false} SendInv<S, Cfg, Ev>(c: Codec, p: Plugin<S, Cfg, Ev>, cap: nat, handler: S,
          s: State<S>, n: nat)
    requires Inv(c, p, handler, s) && Enabled(s, cap, ClientWrite(n))
    ensures Inv(c, p, handler, Next(c, p, cap, s, ClientWrite(n)))
  {
    hide Handle, EncodeFrame, Wanted, Fits, ServeAll, Answered;
    MoveLeft(ServerGot(s.server), s.up, s.client.rest, n);
    StillAnswered(c, p, handler, s, Next(c, p, cap, s, ClientWrite(n)));
  }

  lemma {:induction false} SentInv<S, Cfg, Ev>(c: Codec, p: Plugin<S, Cfg, Ev>, cap: nat, handler: S, s: State<S>)
    requires Inv(c, p, handler, s) && Enabled(s, cap, ClientSent)
    ensures Inv(c, p, handler, Next(c, p, cap, s, ClientSent))
  {
    hide Handle, EncodeFrame, Wanted, Fits, ServeAll, Answered;
    StillAnswered(c, p, handler, s, Next(c, p, cap, s, ClientSent));
  }

  /** Bytes moving to the client. */
  lemma {:induction false} ReceiveInv<S, Cfg, Ev>(c: Codec, p: Plugin<S, Cfg, Ev>, cap: nat, handler: S,
          s: State<S>, n: nat)
    requires Inv(c, p, handler, s) && Enabled(s, cap, ClientRead(n))
    ensures Inv(c, p, handler, Next(c, p, cap, s, ClientRead(n)))
  {
    hide Handle, EncodeFrame, Wanted, Fits, ServeAll, Answered;
    MoveLeft(s.client.got, ServerUnsent(s.server), s.down, n);
    StillAnswered(c, p, handler, s, Next(c, p, cap, s, ClientRead(n)));
  }

  /** Bytes moving to the plugin. */
  lemma {:induction false} ServerReadInv<S, Cfg, Ev>(c: Codec, p: Plugin<S, Cfg, Ev>, cap: nat, handler: S,
          s: State<S>, n: nat)
    requires Inv(c, p, handler, s) && Enabled(s, cap, ServerRead(n))
    ensures Inv(c, p, handler, Next(c, p, cap, s, ServerRead(n)))
  {
    hide Handle, EncodeFrame, Wanted, Fits, ServeAll, Answered;
    MoveLeft(s.server.got, Unsent(s.client), s.up, n);
    StillAnswered(c, p, handler, s, Next(c, p, cap, s, ServerRead(n)));
  }

  /** Bytes moving from the plugin. */
  lemma {:induction false} ReplyInv<S, Cfg, Ev>(c: Codec, p: Plugin<S, Cfg, Ev>, cap: nat, handler: S,
          s: State<S>, a: Action)
    requires Inv(c, p, handler, s) && Enabled(s, cap, a) && (a.ServerWrite? || a.ServerNext?)
    ensures Inv(c, p, handler, Next(c, p, cap, s, a))
  {
    hide Handle, EncodeFrame, Wanted, Fits, ServeAll;
    if a.ServerWrite? {
      MoveLeft(Got(s.client), s.down, s.server.rest, a.n);
    }
  }

  /** A complete request frame is the open call's request, all of it and nothing else. */
  lemma {:induction false} RequestComplete<S, Cfg, Ev>(c: Codec, p: Plugin<S, Cfg, Ev>, handler: S, s: State<S>)
    requires Inv(c, p, handler, s) && s.server.Reading? && Wanted(s.server.got) == 0
    ensures |s.served| < |s.sent| && s.up == [] && Unsent(s.client) == []
    ensures ReadFrame(s.server.got) == Frame(c.encReq(s.sent[|s.sent| - 1]), [])
  {
    hide Handle, EncodeFrame, Wanted, Fits, ServeAll, ReadFrame, CloseLast;
    NothingYet();
    assert |s.served| < |s.sent|;
    var got, tail := s.server.got, s.up + Unsent(s.client);
    assert ServerGot(s.server) + s.up + Unsent(s.client) == got + tail;
    WantedExact(got, tail, c.encReq(s.sent[|s.sent| - 1]));
  }

  /** So the plugin answers that request, in the state the ones before it left. */
  lemma {:induction false} HandleAnswersOpenCall<S, Cfg, Ev>(c: Codec, p: Plugin<S, Cfg, Ev>, cap: nat, handler: S,
          s: State<S>)
    requires Inv(c, p, handler, s) && Enabled(s, cap, ServerHandle) && Faithful(c)
    ensures s.sent != []
    ensures var req := s.sent[|s.sent| - 1];
            var (after, resp) := Handle(p, s.handler, req);
            Next(c, p, cap, s, ServerHandle)
            == s.(server := Replying(req, resp, EncodeFrame(c.encResp(resp))), handler := after,
                  served := s.served + [resp], sized := s.sized && Fits(c.encResp(resp)))
  {
    hide Inv, Handle, EncodeFrame, Wanted, Fits, ReadFrame;
    RequestComplete(c, p, handler, s);
  }

  lemma {:induction false} HandleInv<S, Cfg, Ev>(c: Codec, p: Plugin<S, Cfg, Ev>, cap: nat, handler: S, s: State<S>)
    requires Inv(c, p, handler, s) && Enabled(s, cap, ServerHandle) && Faithful(c)
    requires Next(c, p, cap, s, ServerHandle).sized
    ensures Inv(c, p, handler, Next(c, p, cap, s, ServerHandle))
  {
    hide Handle, EncodeFrame, Wanted, Fits, ServeAll, ReadFrame, Next, Faithful;
    RequestComplete(c, p, handler, s);
    HandleAnswersOpenCall(c, p, cap, handler, s);
    var req := s.sent[|s.sent| - 1];
    HandleAnswers(p, s.handler, req);
    ServeAllNext(p, handler, s.sent[..|s.served|], req);
    assert s.sent[..|s.served|] + [req] == s.sent[..|s.served| + 1];
  }

  /** A complete reply frame is the response to the open call. */
  lemma {:induction false} ReturnInv<S, Cfg, Ev>(c: Codec, p: Plugin<S, Cfg, Ev>, cap: nat, handler: S, s: State<S>)
    requires Inv(c, p, handler, s) && Enabled(s, cap, ClientReturn) && Faithful(c)
    ensures Inv(c, p, handler, Next(c, p, cap, s, ClientReturn))
  {
    hide Handle, EncodeFrame, Wanted, Fits, ServeAll, ReadFrame;
    NothingYet();
    assert |s.results| < |s.served|;
    assert Got(s.client) + s.down + ServerUnsent(s.server) == s.client.got + (s.down + ServerUnsent(s.server));
    WantedExact(s.client.got, s.down + ServerUnsent(s.server), c.encResp(s.served[|s.served| - 1]));
  }

  lemma {:induction false} StepInv<S, Cfg, Ev>(c: Codec, p: Plugin<S, Cfg, Ev>, cap: nat, handler: S,
          s: State<S>, a: Action)
    requires Inv(c, p, handler, s) && Enabled(s, cap, a) && Faithful(c)
    requires Next(c, p, cap, s, a).sized
    ensures Inv(c, p, handler, Next(c, p, cap, s, a))
  {
    hide Inv, Enabled, Next, Faithful;
    match a
    case Call(_, _) => CallInv(c, p, cap, handler, s, a);
    case CallUnmarshalable => UnmarshalableInv(c, p, cap, handler, s);
    case ClientWrite(n) => SendInv(c, p, cap, handler, s, n);
    case ClientSent => SentInv(c, p, cap, handler, s);
    case ClientRead(n) => ReceiveInv(c, p, cap, handler, s, n);
    case ClientReturn => ReturnInv(c, p, cap, handler, s);
    case ServerHandle => HandleInv(c, p, cap, handler, s);
    case ServerRead(n) => ServerReadInv(c, p, cap, handler, s, n);
    case _ => ReplyInv(c, p, cap, handler, s, a);
  }

  lemma {:induction false} SizedBefore<S, Cfg, Ev>(c: Codec, p: Plugin<S, Cfg, Ev>, cap: nat, s: State<S>, a: Action)
    requires Enabled(s, cap, a) && Next(c, p, cap, s, a).sized
    ensures s.sized
  {
    hide Handle, EncodeFrame, Wanted, Fits, ServeAll, ReadFrame;
  }

  lemma {:induction false} RunInv<S, Cfg, Ev>(c: Codec, p: Plugin<S, Cfg, Ev>, cap: nat, handler: S, acts: seq<Action>)
    requires Faithful(c) && Run(c, p, cap, handler, acts).Some? && Run(c, p, cap, handler, acts).value.sized
    ensures Inv(c, p, handler, Run(c, p, cap, handler, acts).value)
  {
    hide Enabled, Next, Faithful;
    if acts == [] {
    } else {
      hide Inv;
      var s, a := Run(c, p, cap, handler, acts[..|acts| - 1]).value, acts[|acts| - 1];
      SizedBefore(c, p, cap, s, a);
      RunInv(c, p, cap, handler, acts[..|acts| - 1]);
      StepInv(c, p, cap, handler, s, a);
    }
  }

  /** What a call reports of the plugin's response: its error, what is wrong with its result, or the
      result as it is. */
  lemma {:induction false} OutcomeSays(c: Codec, req: Request, resp: Response)
    ensures !resp.ok <==> OutcomeOf(c, req, resp) == PluginError(resp.error)
    ensures resp.ok && resp.result == [] ==> OutcomeOf(c, req, resp) == Returned([])
    ensures resp.ok && resp.result != [] && c.resultError(req.methodName, resp.result).None? ==>
              OutcomeOf(c, req, resp) == Returned(resp.result)
    ensures resp.ok && resp.result != [] && c.resultError(req.methodName, resp.result).Some? ==>
              OutcomeOf(c, req, resp) == Undecodable(c.resultError(req.methodName, resp.result).value)
  {
  }

  /** A call takes no reply but one that can be read and decoded and carries its own id. */
  lemma {:induction false} ReplyChecked(c: Codec, req: Request, body: Bytes, rest: Bytes, got: Bytes)
    ensures ReadFrame(got).Failed? ==> Finish(c, req, got) == ReadFailed
    ensures Fits(body) ==>
              var o := Finish(c, req, EncodeFrame(body) + rest);
              match c.decResp(body)
              case None => o == ReadFailed
              case Some(resp) => if resp.id == req.id then o == OutcomeOf(c, req, resp) else o == IdMismatch
  {
    FrameExact(body, rest);
    hide ReadFrame, EncodeFrame, Fits, OutcomeOf;
  }

  /** For any sequence of calls, any plugin and any interleaving of the bytes, with every frame body
      of 1 byte to 256 MiB: the k-th call that wrote a request returned the response the plugin built
      for the k-th request, in the state left by the ones before; no id ever mismatched, no read
      failed; and both pipes are empty between calls. */
  lemma {:induction false} CallsMatchReplies<S, Cfg, Ev>(c: Codec, p: Plugin<S, Cfg, Ev>, cap: nat, handler: S,
          acts: seq<Action>)
    requires Faithful(c) && Run(c, p, cap, handler, acts).Some? && Run(c, p, cap, handler, acts).value.sized
    ensures var s := Run(c, p, cap, handler, acts).value;
            && |s.sent| - 1 <= |s.results| <= |s.served| <= |s.sent|
            && s.served == ServeAll(p, handler, s.sent[..|s.served|]).1
            && (forall k :: 0 <= k < |s.results| ==>
                  s.results[k] == OutcomeOf(c, s.sent[k], s.served[k])
                  && !s.results[k].IdMismatch? && !s.results[k].ReadFailed?
                  && (!s.served[k].ok ==> s.results[k] == PluginError(s.served[k].error))
                  && (s.results[k].Returned? ==> s.results[k].result == s.served[k].result))
            && (s.client.Idle? ==> s.up == [] && s.down == [] && |s.results| == |s.sent| && !s.server.Exited?)
  {
    hide Run, Enabled, Next, Faithful, ServeAll;
    RunInv(c, p, cap, handler, acts);
  }

  // ---------------------------------------------------------------- every call returns

  /** A client that wants more of the reply has it coming. */
  lemma {:induction false} ReplyOnItsWay<S, Cfg, Ev>(c: Codec, p: Plugin<S, Cfg, Ev>, handler: S, s: State<S>)
    requires Inv(c, p, handler, s) && s.client.Receiving? && |s.served| == |s.sent|
    ensures Wanted(s.client.got) == 0 || s.down != [] || ServerUnsent(s.server) != []
  {
    hide Handle, EncodeFrame, Wanted, Fits, ServeAll, CloseLast;
    var got, tail := s.client.got, s.down + ServerUnsent(s.server);
    assert Got(s.client) + s.down + ServerUnsent(s.server) == got + tail;
    WantedExact(got, tail, c.encResp(s.served[|s.served| - 1]));
  }

  lemma {:induction false} RequestGone<S, Cfg, Ev>(c: Codec, p: Plugin<S, Cfg, Ev>, handler: S, s: State<S>)
    requires Inv(c, p, handler, s) && |s.served| == |s.sent|
    ensures Unsent(s.client) == []
  {
  }

  /** The client's side of an answered call can move, unless the plugin has yet to write. */
  lemma {:induction false} ClientMoves<S, Cfg, Ev>(c: Codec, p: Plugin<S, Cfg, Ev>, cap: nat, handler: S, s: State<S>)
    requires Inv(c, p, handler, s) && (s.client.Sending? || s.client.Receiving?)
    requires |s.served| == |s.sent| && (s.down != [] || ServerUnsent(s.server) == [])
    ensures exists a: Action :: Enabled(s, cap, a)
  {
    RequestGone(c, p, handler, s);
    hide Inv, Wanted;
    if s.client.Sending? {
      assert Enabled(s, cap, ClientSent);
    } else {
      ReplyOnItsWay(c, p, handler, s);
      if Wanted(s.client.got) == 0 {
        assert Enabled(s, cap, ClientReturn);
      } else {
        assert Enabled(s, cap, ClientRead(1));
      }
    }
  }

  /** A plugin that wants more of the open request has it coming. */
  lemma {:induction false} RequestOnItsWay<S, Cfg, Ev>(c: Codec, p: Plugin<S, Cfg, Ev>, handler: S, s: State<S>)
    requires Inv(c, p, handler, s) && |s.served| < |s.sent| && s.server.Reading?
    ensures Wanted(s.server.got) == 0 || s.up != [] || Unsent(s.client) != []
  {
    hide Handle, EncodeFrame, Wanted, Fits, ServeAll, CloseLast;
    var got, tail := s.server.got, s.up + Unsent(s.client);
    assert ServerGot(s.server) + s.up + Unsent(s.client) == got + tail;
    WantedExact(got, tail, c.encReq(s.sent[|s.sent| - 1]));
  }

  /** The client can write, or the plugin can read, as long as the open call is not answered. */
  lemma {:induction false} RequestMoves<S, Cfg, Ev>(c: Codec, p: Plugin<S, Cfg, Ev>, cap: nat, handler: S, s: State<S>)
    requires Inv(c, p, handler, s) && cap >= 1 && |s.served| < |s.sent| && s.server.Reading?
    ensures exists a: Action :: Enabled(s, cap, a)
  {
    RequestOnItsWay(c, p, handler, s);
    hide Inv, Wanted;
    if Wanted(s.server.got) == 0 {
      assert Enabled(s, cap, ServerHandle);
    } else if s.up != [] {
      assert Enabled(s, cap, ServerRead(1));
    } else {
      assert Enabled(s, cap, ClientWrite(1));
    }
  }

  /** While a call is open somebody can move, however small the pipes. */
  lemma {:induction false} NeverStuck<S, Cfg, Ev>(c: Codec, p: Plugin<S, Cfg, Ev>, cap: nat, handler: S, s: State<S>)
    requires Inv(c, p, handler, s) && cap >= 1 && (s.client.Sending? || s.client.Receiving?)
    ensures exists a: Action :: Enabled(s, cap, a)
  {
    if s.server.Replying? && s.server.rest == [] {
      assert Enabled(s, cap, ServerNext);
    } else if s.server.Replying? && |s.down| < cap {
      assert Enabled(s, cap, ServerWrite(1));
    } else if |s.served| < |s.sent| {
      RequestMoves(c, p, cap, handler, s);
    } else {
      ClientMoves(c, p, cap, handler, s);
    }
  }

  /** What is left to do for the open call, most significant first. */
  datatype Rank = Rank(unserved: nat, unreturned: nat, unsent: nat, piped: nat, turns: nat)

  function RankOf<S>(s: State<S>): Rank
    requires |s.results| <= |s.served| <= |s.sent|
  {
    Rank(|s.sent| - |s.served|, |s.sent| - |s.results|, |Unsent(s.client)| + |ServerUnsent(s.server)|,
         |s.up| + |s.down|, (if s.client.Sending? then 1 else 0) + (if s.server.Replying? then 1 else 0))
  }

  predicate Less(a: Rank, b: Rank) {
    if a.unserved != b.unserved then a.unserved < b.unserved
    else if a.unreturned != b.unreturned then a.unreturned < b.unreturned
    else if a.unsent != b.unsent then a.unsent < b.unsent
    else if a.piped != b.piped then a.piped < b.piped
    else a.turns < b.turns
  }

  lemma {:induction false} MovedCloser<S, Cfg, Ev>(c: Codec, p: Plugin<S, Cfg, Ev>, cap: nat, s: State<S>, a: Action)
    requires Lockstep(s) && Enabled(s, cap, a) && !a.Call? && !a.CallUnmarshalable?
    requires a.ServerHandle? ==> |Next(c, p, cap, s, a).served| == |s.served| + 1
    requires Lockstep(Next(c, p, cap, s, a))
    ensures Less(RankOf(Next(c, p, cap, s, a)), RankOf(s))
  {
    hide Handle, EncodeFrame, Wanted, Fits, ServeAll, ReadFrame;
  }

  /** Every step that does not begin a call brings the open one closer to its end; with
      `NeverStuck`, every call returns. */
  lemma {:induction false} EveryStepCloser<S, Cfg, Ev>(c: Codec, p: Plugin<S, Cfg, Ev>, cap: nat, handler: S,
          s: State<S>, a: Action)
    requires Inv(c, p, handler, s) && Enabled(s, cap, a) && Faithful(c) && !a.Call? && !a.CallUnmarshalable?
    requires Next(c, p, cap, s, a).sized
    ensures Inv(c, p, handler, Next(c, p, cap, s, a))
    ensures Less(RankOf(Next(c, p, cap, s, a)), RankOf(s))
  {
    hide Handle, EncodeFrame, Wanted, Fits, ServeAll, ReadFrame;
    hide Faithful, Bytewise, Answered, CloseLast, Next, Enabled, RankOf, Less;
    StepInv(c, p, cap, handler, s, a);
    if a.ServerHandle? {
      HandleAnswersOpenCall(c, p, cap, handler, s);
    }
    MovedCloser(c, p, cap, s, a);
  }
}
