/** The event handlers of `server` (src/server.cpp): what the server does
    when a request arrives, when a WebSocket message arrives and when a
    client disconnects. The transport is abstracted into the effects the
    handlers have: a write to a client, a call of a route handler, or an
    exception escaping the handler. */
module Server {
  import opened Wrappers
  import opened Types
  import Router
  import Script
  import Mountpoint

  /** A parsed HTTP request: method, path and parameters. */
  datatype Request = Request(verb: string, path: string, params: KvMap)

  /** What a handler does to the outside world. */
  datatype Effect =
    | Sent(to: ClientId, write: Write)
    /** A route handler invoked for client `who`. */
    | Ran(who: ClientId, handler: Router.Handler, groups: seq<string>, params: KvMap)
    /** An exception that escapes the handler. */
    | Threw(message: string)

  /** The `connections_` set of open WebSocket connections. */
  datatype Server = Server(connections: set<ClientId>)

  /** The server after construction: no connections. */
  function Initial(): (s: Server)
    ensures s.connections == {}
  {
    Server({})
  }

  /** `json_response`: a text WebSocket frame (opcode 1) holding
      `{"e": code}`, with `"m": msg` added only for a non-empty message. */
  function JsonResponse(who: ClientId, code: int, msg: string := ""): (r: Effect)
    ensures r.Sent? && r.to == who && r.write.WebMessage? && r.write.opcode == 1
    ensures "e" in r.write.json && r.write.json["e"] == JInt(code)
    ensures "m" in r.write.json <==> msg != ""
    ensures "m" in r.write.json ==> r.write.json["m"] == JStr(msg)
    ensures r.write.json.Keys <= {"e", "m"}
  {
    var j := map["e" := JInt(code)];
    Sent(who, WebMessage(1, if msg != "" then j["m" := JStr(msg)] else j))
  }

  /** `html_response`: a simple HTML response with the given status. */
  function HtmlResponse(who: ClientId, code: int, msg: string := ""): (r: Effect)
    ensures r.Sent? && r.to == who && r.write.SimpleHtml?
    ensures r.write.status == code && r.write.body == msg
  {
    Sent(who, SimpleHtml(code, msg))
  }

  /** `text_response`: a simple plain-text response with the given status. */
  function TextResponse(who: ClientId, code: int, msg: string := ""): (r: Effect)
    ensures r.Sent? && r.to == who && r.write.SimpleText?
    ensures r.write.status == code && r.write.body == msg
  {
    Sent(who, SimpleText(code, msg))
  }

  /** The body of the 404 sent for an unrouted request. */
  const AngryBody: string := "Krabby is angry"

  /** `r_handler`: the request goes to the script engine's routes only;
      an unrouted request gets a 404 HTML page. The mountpoints are not
      consulted. */
  function OnRequest(engine: Script.Engine, rx: Router.Regex, who: ClientId, req: Request): (r: seq<Effect>)
    ensures |r| == 1
    ensures var o := Router.Handle(engine.routes, rx, req.verb, req.path, req.params);
      && (o.Unhandled? <==> r[0] == HtmlResponse(who, 404, AngryBody))
      && (o.Invoked? <==> r[0].Ran?)
      && (o.Invoked? ==> r[0] == Ran(who, o.handler, o.groups, req.params))
      && (o.MissingField? <==> r[0].Threw?)
      && (o.MissingField? ==> r[0] == Threw(Router.MissingFieldMessage(o.field)))
  {
    match Script.HandleRoute(engine, rx, req.verb, req.path, req.params)
    case Invoked(h, groups, params) => [Ran(who, h, groups, params)]
    case MissingField(f) => [Threw(Router.MissingFieldMessage(f))]
    case Unhandled => [HtmlResponse(who, 404, AngryBody)]
  }

  /** Registered mountpoints make no difference to how a request is
      answered. */
  lemma OnRequestIgnoresMounts(engine: Script.Engine, rx: Router.Regex, who: ClientId, req: Request,
                               mounts: seq<Mountpoint.Mount>)
    ensures OnRequest(engine.(mounts := mounts), rx, who, req) == OnRequest(engine, rx, who, req)
  {
  }

  /** `w_handler`: binary frames are ignored; a text frame from a known
      connection is answered with a "Not implemented" JSON error, and one
      from any other client is ignored. The connection set is unchanged. */
  function OnMessage(s: Server, who: ClientId, binary: bool): (r: seq<Effect>)
    ensures r != [] <==> !binary && who in s.connections
    ensures r != [] ==> r == [JsonResponse(who, 404, "Not implemented")]
  {
    if binary then []
    else if who in s.connections then [JsonResponse(who, 404, "Not implemented")]
    else []
  }

  /** `d_handler`: a known connection is forgotten; any other client
      changes nothing. */
  function OnDisconnect(s: Server, who: ClientId): (r: Server)
    ensures who !in r.connections
    ensures forall c :: c != who ==> (c in r.connections <==> c in s.connections)
  {
    if who in s.connections then Server(s.connections - {who}) else s
  }

  /** The events the transport delivers to the handlers. */
  datatype Event =
    | RequestArrived(who: ClientId, req: Request)
    | MessageArrived(who: ClientId, binary: bool)
    | Disconnected(who: ClientId)

  /** The server and the effects so far, after some events. */
  datatype Trace = Trace(server: Server, effects: seq<Effect>)

  /** One event through its handler. */
  function Step(s: Server, engine: Script.Engine, rx: Router.Regex, ev: Event): (r: Trace)
    ensures r.server.connections <= s.connections
    ensures ev.RequestArrived? ==> r == Trace(s, OnRequest(engine, rx, ev.who, ev.req))
    ensures ev.MessageArrived? ==> r == Trace(s, OnMessage(s, ev.who, ev.binary))
    ensures ev.Disconnected? ==> r == Trace(OnDisconnect(s, ev.who), [])
  {
    match ev
    case RequestArrived(who, req) => Trace(s, OnRequest(engine, rx, who, req))
    case MessageArrived(who, binary) => Trace(s, OnMessage(s, who, binary))
    case Disconnected(who) => Trace(OnDisconnect(s, who), [])
  }

  /** A sequence of events, handled in order. */
  function Run(s: Server, engine: Script.Engine, rx: Router.Regex, evs: seq<Event>): (r: Trace)
    decreases |evs|
  {
    if evs == [] then Trace(s, [])
    else
      var t := Step(s, engine, rx, evs[0]);
      var rest := Run(t.server, engine, rx, evs[1..]);
      Trace(rest.server, t.effects + rest.effects)
  }

  /** A write that is a WebSocket frame. */
  predicate IsFrame(e: Effect)
  {
    e.Sent? && e.write.WebMessage?
  }

  /** Nothing ever adds to `connections_`, so from a fresh server no
      connection is ever known and no WebSocket frame is ever sent. */
  lemma {:induction false} NoFrameEverSent(s: Server, engine: Script.Engine, rx: Router.Regex, evs: seq<Event>)
    requires s.connections == {}
    ensures Run(s, engine, rx, evs).server.connections == {}
    ensures forall i :: 0 <= i < |Run(s, engine, rx, evs).effects| ==> !IsFrame(Run(s, engine, rx, evs).effects[i])
    decreases |evs|
  {
    if evs != [] {
      var t := Step(s, engine, rx, evs[0]);
      NoFrameEverSent(t.server, engine, rx, evs[1..]);
      var rest := Run(t.server, engine, rx, evs[1..]);
      assert forall i :: 0 <= i < |t.effects| ==> !IsFrame(t.effects[i]);
      assert Run(s, engine, rx, evs).effects == t.effects + rest.effects;
    }
  }
}
