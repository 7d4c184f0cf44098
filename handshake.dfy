/**
 * The two-round login handshake (src/client.rs, `login`): `hello` yields a
 * nonce, `login` carries the parameters with the password replaced by the
 * nonce-salted hash and yields the client id.
 */
module Handshake {
  import opened Wrappers
  import opened Rpc
  import opened Transport
  import opened Client

  /** The ways the handshake can end without a client id. */
  datatype LoginError =
    | WriteFailed               // `send_message` reported an error; the scripted writer only refuses, so there is no cause to keep
    | ReadFailed(cause: string) // `receive_message` reported an error
    | Rejected(error: string)   // `hello` answered with an error, rendered as compact text
    | MissingErrorPayload       // `hello` answered with neither success nor an error value: `unwrap` panics
    | ResultFailed(cause: string) // `result()` of a response reported an error
    | BadNonce                  // the `hello` result has no `nonce`: "Bad nonce"
    | HashNotUtf8               // the hash is not valid UTF-8
    | SocketClosed              // the stream ended before the `login` response: "Socked closed"

  /**
   * The code the handshake calls but this model does not see, as plain
   * functions: the password hash, the UTF-8 conversions, the message read when
   * the stream ends before the `hello` response, and the value accessors.
   */
  datatype Collaborators = Collaborators(
    passwordHash: (seq<byte>, seq<byte>) -> seq<byte>,
    utf8Bytes: string -> seq<byte>,
    utf8Decode: seq<byte> -> Option<string>,
    defaultResponse: RpcResponse,
    asMap: RpcValue -> map<string, RpcValue>,
    asStr: RpcValue -> string,
    asI32: RpcValue -> i32)

  /** The first request: `hello`, no parameter, empty destination. */
  function HelloRequest(): (r: RpcRequest)
    ensures r.shvPath == "" && r.methodName == "hello" && r.param.None?
  {
    RpcRequest("", "hello", None)
  }

  /** The second request: `login` with the rendered parameters, empty destination. */
  function LoginRequest(p: LoginParams): (r: RpcRequest)
    ensures r.shvPath == "" && r.methodName == "login" && r != HelloRequest()
    ensures r.param.Some? && ParseLoginRequest(r.param.value) == Some(p.Normalized())
  {
    RenderRoundTrip(p);
    RpcRequest("", "login", Some(p.ToRpcValue()))
  }

  /** The `hello` response: the frame read, or the default message when the stream ended. */
  function HelloReply(env: Collaborators, i: Incoming): RpcResponse
    requires !i.ReadError?
  {
    if i.Frame? then i.message else env.defaultResponse
  }

  /** The nonce a `hello` response carries, or why there is none. */
  function HelloNonce(env: Collaborators, resp: RpcResponse): (r: Result<string, LoginError>)
    ensures r.Ok? <==> resp.isSuccess && resp.result.Ok? && "nonce" in env.asMap(resp.result.value)
    ensures r.Ok? ==> r.value == env.asStr(env.asMap(resp.result.value)["nonce"])
    ensures !resp.isSuccess ==> r.Err? && (r.error.Rejected? || r.error.MissingErrorPayload?)
    ensures !resp.isSuccess && resp.error.Some? ==> r == Err(Rejected(resp.error.value))
    ensures !resp.isSuccess && resp.error.None? ==> r == Err(MissingErrorPayload)
    ensures resp.isSuccess && resp.result.Err? ==> r == Err(ResultFailed(resp.result.error))
    ensures resp.isSuccess && resp.result.Ok? && !r.Ok? ==> r == Err(BadNonce)
  {
    if !resp.isSuccess then
      match resp.error
      case Some(e) => Err(Rejected(e))
      case None => Err(MissingErrorPayload)
    else
      match resp.result
      case Err(e) => Err(ResultFailed(e))
      case Ok(v) =>
        var m := env.asMap(v);
        if "nonce" in m then Ok(env.asStr(m["nonce"])) else Err(BadNonce)
  }

  /** The hash of the password salted with the nonce, as a string if it is valid UTF-8. */
  function SaltedPassword(env: Collaborators, password: string, nonce: string): Option<string>
  {
    env.utf8Decode(env.passwordHash(env.utf8Bytes(password), env.utf8Bytes(nonce)))
  }

  /** A copy of the parameters whose password is the salted hash; the caller's value is untouched. */
  function HashedParams(env: Collaborators, p: LoginParams, nonce: string): (r: Result<LoginParams, LoginError>)
    ensures r.Ok? <==> SaltedPassword(env, p.password, nonce).Some?
    ensures r.Ok? ==> r.value.password == SaltedPassword(env, p.password, nonce).value
    ensures r.Ok? ==> r.value.(password := p.password) == p
    ensures r.Err? ==> r.error == HashNotUtf8
  {
    match SaltedPassword(env, p.password, nonce)
    case Some(h) => Ok(p.(password := h))
    case None => Err(HashNotUtf8)
  }

  /** The client id a `login` response carries: its `clientId`, or 0 when it has none. */
  function ClientId(env: Collaborators, resp: RpcResponse): (r: Result<i32, LoginError>)
    ensures r.Err? <==> resp.result.Err?
    ensures r.Err? ==> r.error == ResultFailed(resp.result.error)
    ensures r.Ok? && "clientId" in env.asMap(resp.result.value) ==>
      r.value == env.asI32(env.asMap(resp.result.value)["clientId"])
    ensures r.Ok? && "clientId" !in env.asMap(resp.result.value) ==> r.value == 0
  {
    match resp.result
    case Err(e) => Err(ResultFailed(e))
    case Ok(v) =>
      var m := env.asMap(v);
      if "clientId" in m then Ok(env.asI32(m["clientId"])) else Ok(0)
  }

  /**
   * The first round: send `hello`, read its response, and derive the
   * parameters with the salted password. It sends at most `hello` and reads at
   * most one frame, and when it yields parameters it has done both.
   * `HelloRoundOutcome` says when it yields parameters and which.
   */
  function HelloRound(env: Collaborators, p: LoginParams, w: Wire): (r: (Result<LoginParams, LoginError>, Wire))
    ensures r.1.sent == w.sent || r.1.sent == w.sent + [HelloRequest()]
    ensures r.1.inbox == w.inbox || (w.inbox != [] && r.1.inbox == w.inbox[1..])
    ensures r.0.Ok? ==> r.1 == Receive(Send(w, HelloRequest()).1).1 && r.1.sent == w.sent + [HelloRequest()]
  {
    var (helloSent, w1) := Send(w, HelloRequest());
    if !helloSent then (Err(WriteFailed), w1)
    else
      var (first, w2) := Receive(w1);
      if first.ReadError? then (Err(ReadFailed(first.cause)), w2)
      else
        match HelloNonce(env, HelloReply(env, first))
        case Err(e) => (Err(e), w2)
        case Ok(nonce) => (HashedParams(env, p, nonce), w2)
  }

  /**
   * The first round yields parameters exactly when `hello` was written and
   * answered, without a read error, by a response carrying a nonce whose salted
   * hash is valid UTF-8; they are the caller's parameters with the password
   * replaced by that hash.
   */
  lemma HelloRoundOutcome(env: Collaborators, p: LoginParams, w: Wire)
    ensures var r := HelloRound(env, p, w).0;
      && (r.Ok? <==>
            && w.writable > 0
            && !Receive(w).0.ReadError?
            && var n := HelloNonce(env, HelloReply(env, Receive(w).0));
            && n.Ok?
            && SaltedPassword(env, p.password, n.value).Some?)
      && (r.Ok? ==>
            var n := HelloNonce(env, HelloReply(env, Receive(w).0));
            r.value == p.(password := SaltedPassword(env, p.password, n.value).value))
  {
  }

  /**
   * The second round: send `login` with the given parameters and read the
   * client id. It sends at most that request and reads at most one frame.
   */
  function LoginRound(env: Collaborators, q: LoginParams, w: Wire): (r: (Result<i32, LoginError>, Wire))
    ensures r.1.sent == w.sent || r.1.sent == w.sent + [LoginRequest(q)]
    ensures r.1.inbox == w.inbox || (w.inbox != [] && r.1.inbox == w.inbox[1..])
    ensures r.0.Ok? ==> w.inbox != [] && r.1.inbox == w.inbox[1..] && r.1.sent == w.sent + [LoginRequest(q)]
    ensures r.0.Ok? ==> Receive(Send(w, LoginRequest(q)).1).0.Frame?
  {
    var (loginSent, w1) := Send(w, LoginRequest(q));
    if !loginSent then (Err(WriteFailed), w1)
    else
      var (second, w2) := Receive(w1);
      match second
      case ReadError(c) => (Err(ReadFailed(c)), w2)
      case EndOfStream => (Err(SocketClosed), w2)
      case Frame(resp) => (ClientId(env, resp), w2)
  }

  /** The whole handshake over a reader/writer pair: its outcome and the pair's state after it. */
  function Run(env: Collaborators, p: LoginParams, w: Wire): (Result<i32, LoginError>, Wire)
  {
    var (hashed, w1) := HelloRound(env, p, w);
    match hashed
    case Err(e) => (Err(e), w1)
    case Ok(q) => LoginRound(env, q, w1)
  }

  /** `login`: runs the handshake on the connection, step by step. */
  method Login(conn: Connection, p: LoginParams, env: Collaborators) returns (r: Result<i32, LoginError>)
    modifies conn
    ensures (r, conn.State()) == Run(env, p, old(conn.State()))
  {
    var ok := conn.SendMessage(HelloRequest());
    if !ok {
      return Err(WriteFailed);
    }
    var first := conn.ReceiveMessage();
    if first.ReadError? {
      return Err(ReadFailed(first.cause));
    }
    var resp := HelloReply(env, first);
    var nonce := HelloNonce(env, resp);
    if nonce.Err? {
      return Err(nonce.error);
    }
    var hashed := HashedParams(env, p, nonce.value);
    if hashed.Err? {
      return Err(hashed.error);
    }
    ok := conn.SendMessage(LoginRequest(hashed.value));
    if !ok {
      return Err(WriteFailed);
    }
    var second := conn.ReceiveMessage();
    match second
    case ReadError(c) =>
      r := Err(ReadFailed(c));
    case EndOfStream =>
      r := Err(SocketClosed);
    case Frame(m) =>
      r := ClientId(env, m);
  }

  // ---------------------------------------------------------------------------
  // What the handshake promises.
  // ---------------------------------------------------------------------------

  /**
   * At most two requests: the requests already sent stay, at most two are
   * added, the first of them is `hello` and the second is `login`, both to the
   * empty destination.
   */
  lemma AtMostTwoRequests(env: Collaborators, p: LoginParams, w: Wire)
    ensures var w' := Run(env, p, w).1;
      && |w.sent| <= |w'.sent| <= |w.sent| + 2
      && w'.sent[..|w.sent|] == w.sent
      && (|w'.sent| > |w.sent| ==> w'.sent[|w.sent|] == HelloRequest())
      && (|w'.sent| == |w.sent| + 2 ==>
            w'.sent[|w.sent| + 1].shvPath == "" && w'.sent[|w.sent| + 1].methodName == "login")
  {
    var (hashed, w1) := HelloRound(env, p, w);
    if hashed.Ok? {
      var w2 := LoginRound(env, hashed.value, w1).1;
      assert w2.sent == w1.sent || w2.sent == w.sent + [HelloRequest(), LoginRequest(hashed.value)];
    }
  }

  /** At most two frames are read: what remains of the queue is a suffix at most two shorter. */
  lemma AtMostTwoFrames(env: Collaborators, p: LoginParams, w: Wire)
    ensures var w' := Run(env, p, w).1;
      && |w'.inbox| <= |w.inbox| <= |w'.inbox| + 2
      && w'.inbox == w.inbox[|w.inbox| - |w'.inbox|..]
  {
    var (hashed, w1) := HelloRound(env, p, w);
    if hashed.Ok? {
      var w2 := LoginRound(env, hashed.value, w1).1;
      assert Run(env, p, w).1 == w2;
      DropAtMostTwo(w.inbox, w1.inbox, w2.inbox);
    } else {
      assert Run(env, p, w).1 == w1;
      DropAtMostTwo(w.inbox, w1.inbox, w1.inbox);
    }
  }

  /** Dropping at most one entry twice leaves a suffix at most two shorter. */
  lemma DropAtMostTwo<T>(s: seq<T>, s1: seq<T>, s2: seq<T>)
    requires s1 == s || (s != [] && s1 == s[1..])
    requires s2 == s1 || (s1 != [] && s2 == s1[1..])
    ensures |s2| <= |s| <= |s2| + 2 && s2 == s[|s| - |s2|..]
  {
    if s1 != s && s2 != s1 {
      assert s[1..][1..] == s[2..];
    }
  }

  /** A writer that accepts nothing: the handshake fails and nothing is sent or read. */
  lemma HelloWriteFails(env: Collaborators, p: LoginParams, w: Wire)
    requires w.writable == 0
    ensures Run(env, p, w) == (Err(WriteFailed), w)
  {
  }

  /**
   * A `hello` response that is not a success ends the handshake with the
   * server's error, and `hello` is the only request ever sent.
   */
  lemma HelloRejectedSendsOnlyHello(env: Collaborators, p: LoginParams, w: Wire)
    requires w.writable > 0
    requires !Receive(w).0.ReadError? && !HelloReply(env, Receive(w).0).isSuccess
    ensures var (r, w') := Run(env, p, w);
      var resp := HelloReply(env, Receive(w).0);
      && r == (if resp.error.Some? then Err(Rejected(resp.error.value)) else Err(MissingErrorPayload))
      && w'.sent == w.sent + [HelloRequest()]
      && w'.inbox == Receive(w).1.inbox
  {
  }

  /** A successful `hello` result without `nonce` fails with "Bad nonce"; no `login` is sent. */
  lemma MissingNonceSendsNoLogin(env: Collaborators, p: LoginParams, w: Wire)
    requires w.writable > 0
    requires !Receive(w).0.ReadError?
    requires var resp := HelloReply(env, Receive(w).0);
      resp.isSuccess && resp.result.Ok? && "nonce" !in env.asMap(resp.result.value)
    ensures var (r, w') := Run(env, p, w);
      r == Err(BadNonce) && w'.sent == w.sent + [HelloRequest()]
  {
  }

  /**
   * On success exactly two requests were sent, `hello` and then `login` whose
   * parameter is the rendering of the caller's parameters with the password
   * replaced by the salted hash of the nonce; exactly two frames were read.
   */
  lemma SuccessSendsHelloThenLogin(env: Collaborators, p: LoginParams, w: Wire)
    ensures var (r, w') := Run(env, p, w);
      r.Ok? ==>
        && !Receive(w).0.ReadError?
        && var nonce := HelloNonce(env, HelloReply(env, Receive(w).0));
        && nonce.Ok?
        && SaltedPassword(env, p.password, nonce.value).Some?
        && w'.sent == w.sent + [HelloRequest(), LoginRequest(p.(password := SaltedPassword(env, p.password, nonce.value).value))]
        && |w.inbox| >= 2 && w'.inbox == w.inbox[2..]
  {
  }

  /**
   * What the server reads from the `login` request is exactly the caller's
   * parameters, as far as they are transmitted, with only the password replaced.
   */
  lemma LoginRequestCarriesHashedParams(env: Collaborators, p: LoginParams, w: Wire)
    ensures var (_, w') := Run(env, p, w);
      |w'.sent| == |w.sent| + 2 ==>
        && !Receive(w).0.ReadError?
        && var nonce := HelloNonce(env, HelloReply(env, Receive(w).0));
        && nonce.Ok?
        && SaltedPassword(env, p.password, nonce.value).Some?
        && w'.sent[|w.sent| + 1].param.Some?
        && ParseLoginRequest(w'.sent[|w.sent| + 1].param.value)
             == Some(p.Normalized().(password := SaltedPassword(env, p.password, nonce.value).value))
  {
    var (_, w') := Run(env, p, w);
    if |w'.sent| == |w.sent| + 2 {
      var first := Receive(w).0;
      var nonce := HelloNonce(env, HelloReply(env, first));
      var h := SaltedPassword(env, p.password, nonce.value).value;
      var q := p.(password := h);
      assert w'.sent[|w.sent| + 1] == LoginRequest(q);
      RenderRoundTrip(q);
      assert q.Normalized() == p.Normalized().(password := h);
    }
  }

  /**
   * Once `login` was sent, the entry read next decides the outcome: an ended
   * stream (a queued end of stream or an empty queue) is the hard failure
   * `SocketClosed`, a read error is passed on, and a frame yields its client id.
   */
  lemma LoginAnswerOutcome(env: Collaborators, p: LoginParams, w: Wire)
    ensures var (r, w') := Run(env, p, w);
      |w'.sent| == |w.sent| + 2 ==>
        r == (if |w.inbox| < 2 then Err(SocketClosed)
              else match w.inbox[1]
                case EndOfStream => Err(SocketClosed)
                case ReadError(c) => Err(ReadFailed(c))
                case Frame(m) => ClientId(env, m))
  {
  }

  /** A read error in place of the `hello` response ends the handshake with that error; only `hello` was sent. */
  lemma HelloReadFails(env: Collaborators, p: LoginParams, w: Wire)
    requires w.writable > 0 && w.inbox != [] && w.inbox[0].ReadError?
    ensures Run(env, p, w) == (Err(ReadFailed(w.inbox[0].cause)),
      w.(inbox := w.inbox[1..], sent := w.sent + [HelloRequest()], writable := w.writable - 1))
  {
  }

  /** A writer that accepts `hello` but refuses `login` ends the handshake with `WriteFailed`. */
  lemma LoginWriteFails(env: Collaborators, p: LoginParams, w: Wire)
    requires w.writable == 1
    ensures HelloRound(env, p, w).0.Ok? ==> Run(env, p, w).0 == Err(WriteFailed)
  {
  }

  /**
   * A `hello` answered without a read error by a response carrying a nonce,
   * whose salted hash is valid UTF-8, is followed by `login` with the caller's
   * parameters and the hashed password, provided the writer takes both.
   */
  lemma HelloAcceptedSendsLogin(env: Collaborators, p: LoginParams, w: Wire)
    requires w.writable >= 2 && !Receive(w).0.ReadError?
    requires var n := HelloNonce(env, HelloReply(env, Receive(w).0));
      n.Ok? && SaltedPassword(env, p.password, n.value).Some?
    ensures var n := HelloNonce(env, HelloReply(env, Receive(w).0));
      Run(env, p, w).1.sent
        == w.sent + [HelloRequest(), LoginRequest(p.(password := SaltedPassword(env, p.password, n.value).value))]
  {
  }

  /**
   * A `hello` answer that gives no nonce ends the handshake with the reason
   * `HelloNonce` names (rejection, missing error, failed result, bad nonce), and
   * a hash that is not valid UTF-8 with `HashNotUtf8`; either way only `hello`
   * was sent.
   */
  lemma HelloFailureOutcome(env: Collaborators, p: LoginParams, w: Wire)
    requires w.writable > 0 && !Receive(w).0.ReadError?
    ensures var n := HelloNonce(env, HelloReply(env, Receive(w).0));
      var (r, w') := Run(env, p, w);
      && (n.Err? ==> r == Err(n.error) && w'.sent == w.sent + [HelloRequest()])
      && (n.Ok? && SaltedPassword(env, p.password, n.value).None? ==>
            r == Err(HashNotUtf8) && w'.sent == w.sent + [HelloRequest()])
  {
  }

  /** The `hello` round reads at most the first frame: frames behind it stay queued, untouched. */
  lemma HelloRoundLeavesLaterFrames(env: Collaborators, p: LoginParams, w: Wire, extra: seq<Incoming>)
    requires w.inbox != []
    ensures var (h, w1) := HelloRound(env, p, w);
      HelloRound(env, p, w.(inbox := w.inbox + extra)) == (h, w1.(inbox := w1.inbox + extra))
  {
    assert (w.inbox + extra)[0] == w.inbox[0];
    assert (w.inbox + extra)[1..] == w.inbox[1..] + extra;
  }

  /** The `login` round reads at most the first frame: frames behind it stay queued, untouched. */
  lemma LoginRoundLeavesLaterFrames(env: Collaborators, q: LoginParams, w: Wire, extra: seq<Incoming>)
    requires w.inbox != []
    ensures var (r, w1) := LoginRound(env, q, w);
      LoginRound(env, q, w.(inbox := w.inbox + extra)) == (r, w1.(inbox := w1.inbox + extra))
  {
    var u := w.(inbox := w.inbox + extra);
    assert u.inbox[0] == w.inbox[0];
    assert u.inbox[1..] == w.inbox[1..] + extra;
    if w.writable > 0 {
      var w1 := Receive(Send(w, LoginRequest(q)).1).1;
      var u1 := Receive(Send(u, LoginRequest(q)).1).1;
      assert u1 == w1.(inbox := w1.inbox + extra);
    }
  }

  /**
   * Frames queued after the first two are never read: appending more frames
   * changes neither the outcome nor the requests, and they are all left queued.
   */
  lemma LaterFramesUnread(env: Collaborators, p: LoginParams, w: Wire, extra: seq<Incoming>)
    requires |w.inbox| >= 2
    ensures var (r, w') := Run(env, p, w);
      Run(env, p, w.(inbox := w.inbox + extra)) == (r, w'.(inbox := w'.inbox + extra))
  {
    var (h, w1) := HelloRound(env, p, w);
    HelloRoundLeavesLaterFrames(env, p, w, extra);
    if h.Ok? {
      LoginRoundLeavesLaterFrames(env, h.value, w1, extra);
    }
  }

  // ---------------------------------------------------------------------------
  // End-to-end scenarios, for value accessors that behave as their names say.
  // ---------------------------------------------------------------------------

  /** Accessors that read a map, a string and an integer as themselves. */
  ghost predicate PlainAccessors(env: Collaborators)
  {
    && (forall m :: env.asMap(Map(m)) == m)
    && (forall s :: env.asStr(Str(s)) == s)
    && (forall i: i32 :: env.asI32(Int(i)) == i)
  }

  function SuccessResponse(v: RpcValue): RpcResponse
  {
    RpcResponse(true, None, Ok(v))
  }

  /** `hello` answers `{nonce: "abc123"}`, `login` answers `{clientId: 42}`: the client id is 42. */
  lemma ScenarioClientId(env: Collaborators, p: LoginParams)
    requires PlainAccessors(env)
    requires SaltedPassword(env, p.password, "abc123").Some?
    ensures var inbox := [Frame(SuccessResponse(Map(map["nonce" := Str("abc123")]))),
                          Frame(SuccessResponse(Map(map["clientId" := Int(42)])))];
      Run(env, p, Wire(inbox, [], 2)).0 == Ok(42)
  {
  }

  /** `hello` answers `{nonce: "xyz"}`, `login` answers a map without `clientId`: the client id is 0. */
  lemma ScenarioNoClientId(env: Collaborators, p: LoginParams)
    requires PlainAccessors(env)
    requires SaltedPassword(env, p.password, "xyz").Some?
    ensures var inbox := [Frame(SuccessResponse(Map(map["nonce" := Str("xyz")]))),
                          Frame(SuccessResponse(Map(map["user" := Str("x")])))];
      Run(env, p, Wire(inbox, [], 2)).0 == Ok(0)
  {
  }

  /** `hello` answers an error: the handshake is rejected and no `login` is sent. */
  lemma ScenarioHelloError(env: Collaborators, p: LoginParams, e: string)
    ensures var inbox := [Frame(RpcResponse(false, Some(e), Err(e)))];
      Run(env, p, Wire(inbox, [], 2)) == (Err(Rejected(e)), Wire([], [HelloRequest()], 1))
  {
    var inbox := [Frame(RpcResponse(false, Some(e), Err(e)))];
    assert inbox[1..] == [];
    assert [] + [HelloRequest()] == [HelloRequest()];
  }

  /** `hello` answers a success without `nonce`: "Bad nonce". */
  lemma ScenarioHelloWithoutNonce(env: Collaborators, p: LoginParams)
    requires PlainAccessors(env)
    ensures var inbox := [Frame(SuccessResponse(Map(map[])))];
      Run(env, p, Wire(inbox, [], 2)).0 == Err(BadNonce)
  {
  }
}
