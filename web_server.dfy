/** The websocket side of the web server (main/webServer.c): how sessions are
    classified at the handshake, the fixed reply to an inbound frame, the
    8-byte telemetry frame and the text frame of the remote debugger, and the
    fan-out of each to the sessions of one kind.

    The HTTP server library is outside the model. Its running instance is a
    `Server` value that carries the snapshot of the client list it hands out
    (`httpd_get_client_list` together with each client's session context);
    the global handle `server` is an `Option<Server>` (`None` is NULL). A
    frame handed to `httpd_ws_send_frame_async` is a `Send` in the returned
    log; whether the library delivers it is not modelled, and no outcome of
    one send influences the next. */
module WebServer {
  import opened Wrappers
  import opened Wire
  import opened CString

  /** `socketType_t`: the integer a websocket session stores as its context.
      A session whose context was never set (a plain HTTP session) reads 0, `WS_NONE`. */
  const WS_DEBUG: u32 := 1
  const WS_DATA: u32 := 2

  /** `char buffer[128]` of the remote debugger. */
  const DEBUG_BUFFER_SIZE: nat := 128

  /** `wsDataType_t` (main/webServer.h), the first word of a telemetry frame. */
  datatype WsDataType = WsDataNone | WsDataPumpState | WsDataWaterTemp | WsDataAmbTemp {
    function Code(): (c: u32)
      ensures c < 4
    {
      match this
      case WsDataNone => 0
      case WsDataPumpState => 1
      case WsDataWaterTemp => 2
      case WsDataAmbTemp => 3
    }
  }

  /** The data type a telemetry word names, if any. */
  function DataTypeOfCode(c: u32): (t: Option<WsDataType>)
    ensures t.Some? <==> c < 4
    ensures t.Some? ==> t.value.Code() == c
  {
    if c == 0 then Some(WsDataNone)
    else if c == 1 then Some(WsDataPumpState)
    else if c == 2 then Some(WsDataWaterTemp)
    else if c == 3 then Some(WsDataAmbTemp)
    else None
  }

  lemma DataTypeCodeRoundTrip(t: WsDataType)
    ensures DataTypeOfCode(t.Code()) == Some(t)
  {
  }

  datatype FrameKind = Text | Binary

  /** An `httpd_ws_frame_t` as sent: its type and its `len` bytes of payload. */
  datatype Frame = Frame(kind: FrameKind, payload: seq<u8>)

  /** A connected client: its socket descriptor and its session context. */
  datatype Session = Session(fd: int, ctx: u32)

  /** A running server, seen through the client list it returns. */
  datatype Server = Server(clients: seq<Session>)

  /** One call of `httpd_ws_send_frame_async(server, fd, &frame)`. */
  datatype Send = Send(fd: int, frame: Frame)

  /** The sends of one pass over `clients` that sends `frame` to every
      session whose context is `tag`, in client-list order. */
  function Broadcast(clients: seq<Session>, tag: u32, frame: Frame): (out: seq<Send>)
    ensures |out| <= |clients|
    ensures forall k :: 0 <= k < |out| ==> out[k].frame == frame
    decreases |clients|
  {
    if clients == [] then []
    else
      var last := clients[|clients| - 1];
      Broadcast(clients[..|clients| - 1], tag, frame)
        + (if last.ctx == tag then [Send(last.fd, frame)] else [])
  }

  /** A broadcast over two lists is the broadcast over the first, then over the second. */
  lemma {:induction false} BroadcastAppend(a: seq<Session>, b: seq<Session>, tag: u32, frame: Frame)
    ensures Broadcast(a + b, tag, frame) == Broadcast(a, tag, frame) + Broadcast(b, tag, frame)
    decreases |b|
  {
    if b != [] {
      var b' := b[..|b| - 1];
      assert (a + b)[..|a + b| - 1] == a + b';
      BroadcastAppend(a, b', tag, frame);
    } else {
      assert a + b == a;
    }
  }

  /** A send reaches `fd` exactly when some listed session of that descriptor has context `tag`. */
  lemma {:induction false} BroadcastReaches(clients: seq<Session>, tag: u32, frame: Frame, fd: int)
    ensures Send(fd, frame) in Broadcast(clients, tag, frame)
        <==> exists j :: 0 <= j < |clients| && clients[j] == Session(fd, tag)
    decreases |clients|
  {
    if clients != [] {
      var init := clients[..|clients| - 1];
      BroadcastReaches(init, tag, frame, fd);
      if exists j :: 0 <= j < |init| && init[j] == Session(fd, tag) {
        var j :| 0 <= j < |init| && init[j] == Session(fd, tag);
        assert clients[j] == Session(fd, tag);
      }
      if exists j :: 0 <= j < |clients| && clients[j] == Session(fd, tag) {
        var j :| 0 <= j < |clients| && clients[j] == Session(fd, tag);
        if j < |init| { assert init[j] == Session(fd, tag); }
      }
    }
  }

  /** A descriptor that no listed session has receives nothing. */
  lemma {:induction false} BroadcastSkips(clients: seq<Session>, tag: u32, frame: Frame, fd: int)
    requires forall k :: 0 <= k < |clients| ==> clients[k].fd != fd
    ensures Send(fd, frame) !in Broadcast(clients, tag, frame)
    decreases |clients|
  {
    if clients != [] {
      var init := clients[..|clients| - 1];
      forall k | 0 <= k < |init| ensures init[k].fd != fd {
        assert init[k] == clients[k];
      }
      BroadcastSkips(init, tag, frame, fd);
    }
  }

  predicate DistinctFds(clients: seq<Session>)
  {
    forall i, j :: 0 <= i < j < |clients| ==> clients[i].fd != clients[j].fd
  }

  /** Dropping the last client keeps the descriptors distinct, and none of the rest shares the last one's. */
  lemma DistinctFdsInit(clients: seq<Session>)
    requires DistinctFds(clients) && clients != []
    ensures DistinctFds(clients[..|clients| - 1])
    ensures forall k :: 0 <= k < |clients| - 1 ==> clients[k].fd != clients[|clients| - 1].fd
  {
    var init := clients[..|clients| - 1];
    forall a, b | 0 <= a < b < |init| ensures init[a].fd != init[b].fd {
      assert init[a] == clients[a] && init[b] == clients[b];
    }
  }

  /** The sends of a broadcast to `s`: those to the clients before the last, plus one if the last is `s`'s and has the tag. */
  lemma BroadcastLastCount(clients: seq<Session>, tag: u32, frame: Frame, s: Send)
    requires clients != []
    ensures multiset(Broadcast(clients, tag, frame))[s]
         == multiset(Broadcast(clients[..|clients| - 1], tag, frame))[s]
            + (if clients[|clients| - 1].ctx == tag && s == Send(clients[|clients| - 1].fd, frame) then 1 else 0)
  {
    var last := clients[|clients| - 1];
    var tail := if last.ctx == tag then [Send(last.fd, frame)] else [];
    assert Broadcast(clients, tag, frame) == Broadcast(clients[..|clients| - 1], tag, frame) + tail;
  }

  /** With one session per descriptor, a broadcast sends to each session of
      context `tag` exactly once and to every other session not at all. */
  lemma {:induction false} BroadcastOncePerSession(clients: seq<Session>, tag: u32, frame: Frame, j: nat)
    requires DistinctFds(clients) && j < |clients|
    ensures multiset(Broadcast(clients, tag, frame))[Send(clients[j].fd, frame)]
         == if clients[j].ctx == tag then 1 else 0
    decreases |clients|
  {
    var init := clients[..|clients| - 1];
    var s := Send(clients[j].fd, frame);
    DistinctFdsInit(clients);
    BroadcastLastCount(clients, tag, frame, s);
    if j == |clients| - 1 {
      BroadcastSkips(init, tag, frame, clients[j].fd);
    } else {
      BroadcastOncePerSession(init, tag, frame, j);
      assert init[j] == clients[j];
    }
  }

  /** The shared loop of `sendData` and `sendToRemoteDebugger`: one send per
      listed client whose session context is `tag`. */
  method SendToTagged(server: Server, tag: u32, frame: Frame) returns (sent: seq<Send>)
    ensures sent == Broadcast(server.clients, tag, frame)
  {
    var clients := server.clients;
    sent := [];
    var i := 0;
    while i < |clients|
      invariant i <= |clients|
      invariant sent == Broadcast(clients[..i], tag, frame)
    {
      assert clients[..i + 1][..i] == clients[..i];
      if clients[i].ctx == tag {
        sent := sent + [Send(clients[i].fd, frame)];
      }
      i := i + 1;
    }
    assert clients[..i] == clients;
  }

  /** The binary frame of `sendData`: the words `[dataType][data]` as they lie in memory. */
  function DataFrame(dataType: WsDataType, data: u32): (f: Frame)
    ensures f.kind == Binary && |f.payload| == 8
    ensures BytesWords(f.payload) == [dataType.Code(), data]
  {
    WordsRoundTrip([dataType.Code(), data]);
    Frame(Binary, WordsBytes([dataType.Code(), data]))
  }

  /** The two words of a received telemetry frame, decoded back into its data type and value. */
  lemma DataFrameRoundTrip(dataType: WsDataType, data: u32)
    ensures var w := BytesWords(DataFrame(dataType, data).payload);
            |w| == 2 && DataTypeOfCode(w[0]) == Some(dataType) && w[1] == data
  {
  }

  /** `sendData(dataType, data)`. */
  method SendData(server: Option<Server>, dataType: WsDataType, data: u32) returns (sent: seq<Send>)
    ensures server.None? ==> sent == []
    ensures server.Some? ==> sent == Broadcast(server.value.clients, WS_DATA, DataFrame(dataType, data))
  {
    var payload := new u32[2];
    payload[0] := dataType.Code();
    payload[1] := data;
    sent := [];
    if server.Some? {
      assert payload[..] == [dataType.Code(), data];
      var frame := Frame(Binary, WordsBytes(payload[..]));
      sent := SendToTagged(server.value, WS_DATA, frame);
    }
  }

  /** The text the remote debugger sends for a formatted message: what
      `vsnprintf` leaves in the 128-byte buffer, read up to its terminator. */
  function DebugText(formatted: string): (s: string)
    ensures |s| <= DEBUG_BUFFER_SIZE - 1 && s <= formatted && NoNul(s)
    ensures s == Prefix(CStr(formatted), DEBUG_BUFFER_SIZE - 1)
    ensures NoNul(formatted) ==> s == Prefix(formatted, DEBUG_BUFFER_SIZE - 1)
  {
    PrefixOfCStr(formatted, DEBUG_BUFFER_SIZE - 1);
    if NoNul(formatted) then CStrOfNoNul(formatted); CStr(Prefix(formatted, DEBUG_BUFFER_SIZE - 1))
    else CStr(Prefix(formatted, DEBUG_BUFFER_SIZE - 1))
  }

  function DebugFrame(formatted: string): (f: Frame)
    requires IsByteText(formatted)
    ensures f.kind == Text && |f.payload| == |DebugText(formatted)| <= DEBUG_BUFFER_SIZE - 1
    ensures IsByteText(DebugText(formatted)) && f.payload == TextBytes(DebugText(formatted))
  {
    var s := DebugText(formatted);
    ByteTextOfPrefix(s, formatted);
    Frame(Text, TextBytes(s))
  }

  /** `sendToRemoteDebugger(format, ...)`, given the text the format expands to. */
  method SendToRemoteDebugger(server: Option<Server>, formatted: string) returns (sent: seq<Send>)
    requires IsByteText(formatted)
    ensures server.None? ==> sent == []
    ensures server.Some? ==> sent == Broadcast(server.value.clients, WS_DEBUG, DebugFrame(formatted))
  {
    sent := [];
    if server.Some? {
      var buffer := new char[DEBUG_BUFFER_SIZE];
      ghost var before := buffer[..];
      var written := CopyTerminated(buffer, 0, formatted);
      ghost var kept := formatted[..written];
      assert kept == Prefix(formatted, DEBUG_BUFFER_SIZE - 1);
      assert buffer[..] == kept + [NUL] + before[written + 1..];
      var len := StrLenOf(buffer);
      CStrOfTerminated(kept, before[written + 1..]);
      assert buffer[..len] == CStr(buffer[..]) == CStr(kept);
      assert buffer[..len] == DebugText(formatted);
      ByteTextOfPrefix(buffer[..len], formatted);
      var frame := Frame(Text, TextBytes(buffer[..len]));
      sent := SendToTagged(server.value, WS_DEBUG, frame);
    }
  }

  /** A debug message is sent whole when it has fewer than 128 characters, and cut to 127 otherwise. */
  lemma DebugFrameLength(formatted: string)
    requires IsByteText(formatted) && NoNul(formatted)
    ensures |DebugFrame(formatted).payload| == Min(|formatted|, DEBUG_BUFFER_SIZE - 1)
    ensures DebugFrame(formatted).payload == TextBytes(Prefix(formatted, DEBUG_BUFFER_SIZE - 1))
  {
  }

  // ---------------------------------------------------------------------
  // The websocket handler

  /** `HTTP_GET` marks the handshake request; frames arrive with another method. */
  datatype HttpMethod = HttpGet | HttpOther

  /** `esp_err_t` values the handler returns. */
  const ESP_OK: int := 0
  const ESP_FAIL: int := -1

  /** What `wsHandler` does with one request. */
  datatype WsOutcome =
    | Accepted(sessCtx: u32)   // ESP_OK, with `sess_ctx` set to the endpoint's tag
    | Rejected                 // ESP_FAIL, no session context stored
    | Replied(reply: Frame)    // a frame was received and this frame answers it
  {
    /** The status of a handshake; a reply's status is that of the library's send. */
    function HandshakeStatus(): (e: int)
      requires !Replied?
      ensures e == ESP_OK <==> Accepted?
      ensures Rejected? ==> e == ESP_FAIL
    {
      if Accepted? then ESP_OK else ESP_FAIL
    }
  }

  /** `char sendMessage[] = "Debugger Message Received"`, terminator included. */
  const REPLY_MESSAGE: string := "Debugger Message Received"

  /** The text frame answering every inbound frame: `strnlen(sendMessage, 50)` bytes of the message. */
  function ReplyFrame(): (f: Frame)
    ensures f.kind == Text
  {
    var sendMessage := REPLY_MESSAGE + [NUL];
    var len := StrNLen(sendMessage, 50);
    ByteTextPrefix(len);
    Frame(Text, TextBytes(sendMessage[..len]))
  }

  lemma ReplyMessageText()
    ensures |REPLY_MESSAGE| == 25 && NoNul(REPLY_MESSAGE) && IsByteText(REPLY_MESSAGE)
  {
  }

  lemma ByteTextPrefix(len: nat)
    requires len <= |REPLY_MESSAGE + [NUL]|
    ensures IsByteText((REPLY_MESSAGE + [NUL])[..len])
  {
    ReplyMessageText();
    var s := (REPLY_MESSAGE + [NUL])[..len];
    forall i | 0 <= i < len ensures IsByteChar(s[i]) {
      if i < |REPLY_MESSAGE| { assert s[i] == REPLY_MESSAGE[i]; }
    }
  }

  /** The reply carries exactly the 25 characters of the message. */
  lemma ReplyFrameIsMessage()
    ensures IsByteText(REPLY_MESSAGE)
    ensures ReplyFrame().payload == TextBytes(REPLY_MESSAGE) && |ReplyFrame().payload| == 25
  {
    ReplyMessageText();
    var sendMessage := REPLY_MESSAGE + [NUL];
    assert sendMessage[..|REPLY_MESSAGE|] == REPLY_MESSAGE;
    StrLenUnique(sendMessage, |REPLY_MESSAGE|);
  }

  /** `wsHandler(req)`: a handshake succeeds only for the debug and data tags
      and keeps the tag as the session context; any other request is a frame,
      answered with the fixed reply. */
  function WsHandler(httpMethod: HttpMethod, userCtx: u32): (r: WsOutcome)
    ensures httpMethod == HttpGet ==> !r.Replied?
    ensures httpMethod == HttpGet ==> (r.Accepted? <==> userCtx == WS_DEBUG || userCtx == WS_DATA)
    ensures r.Accepted? ==> r.sessCtx == userCtx
    ensures httpMethod != HttpGet ==> r.Replied?
    ensures r.Replied? ==> IsByteText(REPLY_MESSAGE) && r.reply == Frame(Text, TextBytes(REPLY_MESSAGE))
  {
    ReplyFrameIsMessage();
    if httpMethod == HttpGet then
      if userCtx == WS_DEBUG then Accepted(userCtx)
      else if userCtx == WS_DATA then Accepted(userCtx)
      else Rejected
    else
      Replied(ReplyFrame())
  }

  // ---------------------------------------------------------------------
  // URI registrations of start_web_server

  /** What a registered URI leads to; a websocket endpoint carries its `user_ctx` tag. */
  datatype Handler = WsEndpoint(userCtx: u32) | FileServer

  datatype UriHandler = UriHandler(uri: string, httpMethod: HttpMethod, handler: Handler)

  const DEBUGGER_URI: string := "/api/v1/ws/remoteDebugger"
  const DATA_URI: string := "/api/v1/ws/data"
  const FILES_URI: string := "/*"

  /** The handlers `start_web_server` registers, in registration order: all
      for GET, with distinct templates, and the catch-all file handler last,
      so it shadows neither websocket endpoint. */
  function Registrations(): (t: seq<UriHandler>)
    ensures |t| == 3 && forall k :: 0 <= k < |t| ==> t[k].httpMethod == HttpGet
    ensures forall i, j :: 0 <= i < j < |t| ==> t[i].uri != t[j].uri
    ensures forall k :: 0 <= k < |t| - 1 ==> t[k].handler.WsEndpoint?
    ensures t[|t| - 1] == UriHandler(FILES_URI, HttpGet, FileServer)
  {
    [ UriHandler(DEBUGGER_URI, HttpGet, WsEndpoint(WS_DEBUG)),
      UriHandler(DATA_URI, HttpGet, WsEndpoint(WS_DATA)),
      UriHandler(FILES_URI, HttpGet, FileServer) ]
  }

  /** `httpd_uri_match_wildcard` for the templates registered here: a
      template ending in `*` matches every path that starts with the rest of
      it; any other template matches only itself. */
  predicate UriMatches(template: string, path: string)
    ensures template == path ==> UriMatches(template, path)
    ensures UriMatches(template, path) ==> |path| >= |template| - 1
  {
    if |template| > 0 && template[|template| - 1] == '*' then template[..|template| - 1] <= path
    else template == path
  }

  /** The path of a request URI, up to its first `?`: the library's dispatcher
      matches the handler templates against this part only. */
  function UriPath(uri: string): (p: string)
    ensures p <= uri && '?' !in p
    ensures |p| < |uri| ==> uri[|p|] == '?'
  {
    if uri == [] || uri[0] == '?' then []
    else
      var rest := UriPath(uri[1..]);
      assert uri == [uri[0]] + uri[1..];
      [uri[0]] + rest
  }

  /** A query appended to a path is not part of the path. */
  lemma {:induction false} UriPathOfQuery(path: string, query: string)
    requires '?' !in path
    ensures UriPath(path + "?" + query) == path
    ensures UriPath(path) == path
  {
    if path != [] {
      assert (path + "?" + query)[1..] == path[1..] + "?" + query;
      assert path[0] != '?' && '?' !in path[1..];
      UriPathOfQuery(path[1..], query);
      assert [path[0]] + path[1..] == path;
    }
  }

  /** The first registered handler whose URI matches. */
  function FirstMatch(table: seq<UriHandler>, uri: string): (h: Option<Handler>)
    ensures h.Some? <==> exists k :: 0 <= k < |table| && UriMatches(table[k].uri, uri)
    ensures h.Some? ==> exists k :: 0 <= k < |table| && UriMatches(table[k].uri, uri) && table[k].handler == h.value
                                 && forall k' :: 0 <= k' < k ==> !UriMatches(table[k'].uri, uri)
  {
    if table == [] then None
    else if UriMatches(table[0].uri, uri) then Some(table[0].handler)
    else
      var h := FirstMatch(table[1..], uri);
      assert forall k :: 1 <= k < |table| ==> table[k] == table[1..][k - 1];
      h
  }

  lemma FirstMatchStep(table: seq<UriHandler>, uri: string)
    requires table != []
    ensures FirstMatch(table, uri)
         == if UriMatches(table[0].uri, uri) then Some(table[0].handler) else FirstMatch(table[1..], uri)
  {
  }

  /** Every path under `/` is at least served by the catch-all file handler. */
  lemma CatchAllMatches(path: string)
    ensures |path| > 0 && path[0] == '/' ==> UriMatches(FILES_URI, path)
  {
    assert FILES_URI[|FILES_URI| - 1] == '*' && FILES_URI[..|FILES_URI| - 1] == "/";
    if |path| > 0 && path[0] == '/' {
      assert path[..1] == "/";
    }
  }

  /** The handler the server dispatches a request to: the first registration
      whose template matches the URI's path; every path under `/` has one. */
  function Route(uri: string): (h: Option<Handler>)
    ensures |UriPath(uri)| > 0 && UriPath(uri)[0] == '/' ==> h.Some?
  {
    var t := Registrations();
    CatchAllMatches(UriPath(uri));
    assert t[2].uri == FILES_URI;
    FirstMatch(t, UriPath(uri))
  }

  /** The debugger endpoint carries WS_DEBUG and the data endpoint WS_DATA. */
  lemma RouteEndpoints()
    ensures Route(DEBUGGER_URI) == Some(WsEndpoint(WS_DEBUG))
    ensures Route(DATA_URI) == Some(WsEndpoint(WS_DATA))
  {
    var t0 := Registrations();
    var t1 := t0[1..];
    assert t0[0] == UriHandler(DEBUGGER_URI, HttpGet, WsEndpoint(WS_DEBUG));
    assert t1[0] == UriHandler(DATA_URI, HttpGet, WsEndpoint(WS_DATA));
    assert DEBUGGER_URI[|DEBUGGER_URI| - 1] != '*' && DATA_URI[|DATA_URI| - 1] != '*';
    assert |DEBUGGER_URI| != |DATA_URI|;
    assert forall i :: 0 <= i < |DEBUGGER_URI| ==> DEBUGGER_URI[i] != '?';
    assert forall i :: 0 <= i < |DATA_URI| ==> DATA_URI[i] != '?';
    UriPathOfQuery(DEBUGGER_URI, "");
    UriPathOfQuery(DATA_URI, "");
    FirstMatchStep(t0, DEBUGGER_URI);
    FirstMatchStep(t0, DATA_URI);
    FirstMatchStep(t1, DATA_URI);
  }

  /** The two endpoints are the only websocket endpoints; every other path under `/` is a file. */
  lemma RouteTags(uri: string)
    ensures var p := UriPath(uri);
            p != DEBUGGER_URI && p != DATA_URI && |p| > 0 && p[0] == '/' ==> Route(uri) == Some(FileServer)
    ensures Route(uri).Some? && Route(uri).value.WsEndpoint? ==> UriPath(uri) == DEBUGGER_URI || UriPath(uri) == DATA_URI
  {
    var t0 := Registrations();
    var t1 := t0[1..];
    var t2 := t1[1..];
    assert t0[0] == UriHandler(DEBUGGER_URI, HttpGet, WsEndpoint(WS_DEBUG));
    assert t1[0] == UriHandler(DATA_URI, HttpGet, WsEndpoint(WS_DATA));
    assert t2 == [UriHandler(FILES_URI, HttpGet, FileServer)] && t2[1..] == [];
    assert DEBUGGER_URI[|DEBUGGER_URI| - 1] != '*' && DATA_URI[|DATA_URI| - 1] != '*';
    var p := UriPath(uri);
    FirstMatchStep(t0, p);
    FirstMatchStep(t1, p);
    FirstMatchStep(t2, p);
    CatchAllMatches(p);
  }

  /** A query string does not change where a request goes: `/api/v1/ws/data?x=1`
      opens the data websocket like `/api/v1/ws/data`. */
  lemma RouteIgnoresQuery(path: string, query: string)
    requires '?' !in path
    ensures Route(path + "?" + query) == Route(path)
  {
    UriPathOfQuery(path, query);
  }

  /** The session a handshake on `uri` opens for descriptor `fd`, if it succeeds. */
  function OpenSession(fd: int, uri: string): (s: Option<Session>)
    ensures s.Some? ==> s.value.fd == fd && (s.value.ctx == WS_DEBUG || s.value.ctx == WS_DATA)
    ensures uri == DEBUGGER_URI ==> s == Some(Session(fd, WS_DEBUG))
    ensures uri == DATA_URI ==> s == Some(Session(fd, WS_DATA))
  {
    RouteEndpoints();
    match Route(uri)
    case Some(WsEndpoint(tag)) =>
      (match WsHandler(HttpGet, tag)
       case Accepted(ctx) => Some(Session(fd, ctx))
       case _ => None)
    case _ => None
  }

  /** A client that connected at the data endpoint receives every telemetry
      frame exactly once and no debugger text; one that connected at the
      debugger endpoint receives every debugger text exactly once and no
      telemetry. */
  lemma SessionsGetTheirOwnStream(clients: seq<Session>, j: nat, dataType: WsDataType, data: u32, formatted: string)
    requires DistinctFds(clients) && j < |clients| && IsByteText(formatted)
    requires Some(clients[j]) == OpenSession(clients[j].fd, DATA_URI)
          || Some(clients[j]) == OpenSession(clients[j].fd, DEBUGGER_URI)
    ensures var fd := clients[j].fd;
            var toData := multiset(Broadcast(clients, WS_DATA, DataFrame(dataType, data)))[Send(fd, DataFrame(dataType, data))];
            var toDebug := multiset(Broadcast(clients, WS_DEBUG, DebugFrame(formatted)))[Send(fd, DebugFrame(formatted))];
            if Some(clients[j]) == OpenSession(fd, DATA_URI) then toData == 1 && toDebug == 0
            else toData == 0 && toDebug == 1
  {
    RouteEndpoints();
    BroadcastOncePerSession(clients, WS_DATA, DataFrame(dataType, data), j);
    BroadcastOncePerSession(clients, WS_DEBUG, DebugFrame(formatted), j);
  }
}
