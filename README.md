# Client login handshake of an SHV RPC client, in Dafny

This project models the client side of logging in to an SHV RPC broker
(`src/client.rs` of libshvrpc-rs) and proves properties of the model:

- **Login parameters and their rendering.** `LoginType` with its wire name,
  `LoginParams`, and `to_rpcvalue`, which projects the parameters into a nested
  string-keyed map: a `login` map (`user`, `password`, `type`) and an `options`
  map that may hold `idleWatchDogTimeOut` (three heartbeats, in seconds) and a
  `device` map holding either `deviceId` or `mountPoint`. The rendering is paired
  with a reader (`ParseLoginRequest`) that recovers every transmitted field.
- **The two-round handshake.** `hello` is sent and answered with a nonce. Then
  `login` is sent with the password replaced by the nonce-salted hash, and it is
  answered with the client id. The reader and the writer are a `Connection`
  object: a scripted queue of incoming frames, a log of sent requests, and the
  number of writes the writer still accepts. `Login` is a method that runs on a
  `Connection`. It is proved equal to the pure function `Run`, which runs a `hello` round and then a `login` round. The lemmas about `Run`
  cover ordering, error paths and message contents.
- **Defaults.** `LoginParams::default`, `ClientConfig::default` and the
  heartbeat default of a stored configuration.

Files: `wrappers.dfy` (Option, Result), `rpc.dfy` (RPC values, requests,
responses), `transport.dfy` (the scripted connection), `client.dfy` (login
parameters, rendering, configuration defaults), `handshake.dfy` (the handshake).

The code the handshake calls but that is not part of this model is passed in as
a `Collaborators` value of plain functions: `sha1_password_hash`,
`str::as_bytes`, `str::from_utf8`, `RpcMessage::default`, and the value
accessors `as_map`, `as_str` and `as_i32`. A received message is seen through
what `is_success()`, `error()` (rendered with `to_cpon`) and `result()` return.
Two more points about the model:
- An empty frame queue reads as the end of the stream, and so does a queued
  `EndOfStream` entry.
- A request counts as sent only when the writer accepts it.

Points where the model records a choice:
- After `hello`, an ended stream is read as `RpcMessage::default()`, which is a
  collaborator. So the model neither assumes nor excludes that such a message
  counts as success. After `login`, an ended stream is the failure
  `SocketClosed`. The source's error text for it is "Socked closed".
- The `login` response is not checked with `is_success`. Only its `result()` is
  inspected, and an error there is passed on as `ResultFailed`.
- When `hello` is not a success and `error()` is empty, the source's `unwrap`
  panics. The model returns the distinct outcome `MissingErrorPayload` instead.
- The password is replaced by the salted hash whatever the login type. A
  `PLAIN` login also sends the hash, with `type` set to `PLAIN`. The model
  follows the code here, although the login type is meant to decide whether
  the raw password or the hash is sent.
- The `options` map is always rendered, even when it is empty. Only an empty
  `device` map is omitted.

## Model

| member | source | states |
|---|---|---|
| `Client.LoginType.ToStr` | src/client.rs:17-22 | the wire name of each login type is read back as that login type, so the names are distinct |
| `Client.ToStrInjective` | src/client.rs:17-22 | two login types have the same wire name exactly when they are equal |
| `Client.LoginMap` | src/client.rs:58-61 | the `login` map has exactly the keys `user`, `password` and `type`, holding the user, the password and the login type's wire name |
| `Client.DeviceMap` | src/client.rs:70-75 | the device map holds `deviceId` alone when the device id is non-empty, whatever the mount point; otherwise `mountPoint` alone when the mount point is non-empty; otherwise nothing; it never holds both |
| `Client.OptionsMap` | src/client.rs:63-78 | `options` holds only `idleWatchDogTimeOut` and `device`; `idleWatchDogTimeOut` is present iff a heartbeat is set and is then three times its seconds; `device` is present iff the device id or the mount point is non-empty, and it then has exactly one entry |
| `Client.LoginParams.ToRpcValue` | src/client.rs:56-81 | the rendered value is a map with exactly the keys `login` and `options`, holding the two sub-maps |
| `Client.RenderRoundTrip` | src/client.rs:56-81 | reading the rendered request back gives the parameters, except that the mount point is dropped when a device id is present |
| `Client.RenderInjective` | src/client.rs:56-81 | two parameter sets render to the same value exactly when they agree on every transmitted field |
| `Client.PasswordOnlyReplaced` | src/client.rs:97-99 | replacing the password changes only `login.password` in the rendering; `options` and the other `login` entries stay the same |
| `Client.DefaultLoginParams` | src/client.rs:41-53 | the default parameters: empty user, password, device id and mount point, SHA1 login, and a 60-second heartbeat |
| `Client.DefaultLoginRendering` | src/client.rs:41-53 | the default parameters (SHA1, empty strings, 60-second heartbeat) render with a 180-second watchdog and no device entry |
| `Client.DefaultHeartbeat` | src/client.rs:107 | the heartbeat interval a stored configuration without one gets is "1m" |
| `Client.WithFieldDefaults` | src/client.rs:107-116 | a stored configuration without a heartbeat interval gets "1m"; every other field is carried over unchanged |
| `Client.DefaultClientConfig` | src/client.rs:146-156 | the default configuration: url `tcp://localhost:3755`, no device id, mount or reconnect interval, and the default heartbeat |
| `Client.DefaultClientConfigIsStoredUrlOnly` | src/client.rs:146-156 | the default configuration is `tcp://localhost:3755` with no optional field and the "1m" heartbeat, which is what a stored record holding only that url reads as |
| `Transport.Connection.constructor` | src/client.rs:84-86 | a fresh connection has the given frames queued, has sent nothing, and accepts the given number of writes |
| `Transport.Connection.SendMessage` | src/client.rs:89 | a write succeeds exactly while the writer has room, and then appends the request to the log; nothing else changes |
| `Transport.Connection.ReceiveMessage` | src/client.rs:90 | a read yields the next queued frame and removes it, or the end of the stream when the queue is empty |
| `Handshake.HelloRequest` | src/client.rs:88 | the first request is `hello` to the empty destination, with no parameter |
| `Handshake.LoginRequest` | src/client.rs:99 | the second request is `login` to the empty destination; its parameter reads back as the transmitted parameters it was built from |
| `Handshake.HelloReply` | src/client.rs:90 | the `hello` response is the frame read, or the default message when the stream has ended |
| `Handshake.HelloNonce` | src/client.rs:90-95 | the `hello` response yields a nonce exactly when it is a success whose result map holds `nonce`; a non-success yields the server's error, or `MissingErrorPayload` when there is none; a success result without `nonce` yields `BadNonce` |
| `Handshake.SaltedPassword` | src/client.rs:96-98 | the new password is the hash of the password's bytes salted with the nonce's bytes, in that order, if it is valid UTF-8 |
| `Handshake.HashedParams` | src/client.rs:96-98 | a copy of the parameters is made in which only the password changes, to the salted hash of the nonce; the result is `HashNotUtf8` exactly when the hash is not valid UTF-8 |
| `Handshake.ClientId` | src/client.rs:102-105 | the client id is `clientId` of the `login` result when present, otherwise 0; an error result is passed on |
| `Handshake.Run` | src/client.rs:84-106 | the pure model of `login`: the `hello` round, then, if it yields parameters, the `login` round, with the outcome and the connection state after them |
| `Handshake.Login` | src/client.rs:84-106 | running the handshake on a connection gives the outcome and the connection state that `Run` specifies |
| `Handshake.HelloRound` | src/client.rs:88-98 | the first round sends at most `hello` and reads at most one frame; when it yields parameters, it has sent `hello` and read exactly one frame |
| `Handshake.HelloRoundOutcome` | src/client.rs:88-98 | the first round yields parameters exactly when `hello` was written and answered, without a read error, by a response with a nonce whose salted hash is valid UTF-8; they are the caller's parameters with the password replaced by that hash |
| `Handshake.LoginRound` | src/client.rs:99-105 | the second round sends at most the `login` request and reads at most one entry; a client id comes only after that request was sent and a frame, not an ended stream or a read error, was read |
| `Handshake.AtMostTwoRequests` | src/client.rs:88-100 | at most two requests are added to the log, and the requests already there are kept; the first new request is `hello` and the second is `login`, both to the empty destination |
| `Handshake.AtMostTwoFrames` | src/client.rs:90-101 | at most two frames are consumed, from the front of the queue |
| `Handshake.HelloWriteFails` | src/client.rs:88-89 | when the writer refuses `hello`, the handshake fails with `WriteFailed` and the connection is left as it was |
| `Handshake.HelloRejectedSendsOnlyHello` | src/client.rs:88-93 | a `hello` response that is not a success fails the handshake with the server's error, and `hello` is the only request sent |
| `Handshake.MissingNonceSendsNoLogin` | src/client.rs:94-95 | a successful `hello` result without `nonce` fails with `BadNonce`, and no `login` is sent |
| `Handshake.SuccessSendsHelloThenLogin` | src/client.rs:88-100 | on success exactly `hello` and then `login` were sent, the `login` request carrying the caller's parameters with the password replaced by the salted hash; exactly two frames were read |
| `Handshake.LoginRequestCarriesHashedParams` | src/client.rs:96-99 | the `login` request reads back as the caller's transmitted parameters with only the password replaced by the salted hash, whatever the login type |
| `Handshake.LoginAnswerOutcome` | src/client.rs:100-105 | once `login` was sent, an ended stream (queued or by an empty queue) fails with `SocketClosed`, a read error is passed on as `ReadFailed`, and a frame gives its client id |
| `Handshake.HelloReadFails` | src/client.rs:88-90 | a read error in place of the `hello` response fails the handshake with that error, after only `hello` was sent and one entry read |
| `Handshake.LoginWriteFails` | src/client.rs:99-100 | when the writer accepts `hello` but refuses `login`, the handshake fails with `WriteFailed` |
| `Handshake.HelloAcceptedSendsLogin` | src/client.rs:94-99 | a `hello` answered with a nonce whose salted hash is valid UTF-8 is followed by `login` with the hashed parameters, when the writer takes both requests |
| `Handshake.HelloFailureOutcome` | src/client.rs:91-98 | a `hello` answer without a nonce ends the handshake with the reason `HelloNonce` gives, including a failed `result()`, and an invalid UTF-8 hash with `HashNotUtf8`; only `hello` was sent |
| `Handshake.HelloRoundLeavesLaterFrames` | src/client.rs:90 | the `hello` round reads only the first frame: frames queued behind it change nothing and stay queued |
| `Handshake.LoginRoundLeavesLaterFrames` | src/client.rs:101 | the `login` round reads only the first frame: frames queued behind it change nothing and stay queued |
| `Handshake.LaterFramesUnread` | src/client.rs:90-101 | frames queued after the first two are never read: appending frames changes neither the outcome nor the requests sent, and they all stay queued |
| `Handshake.ScenarioClientId` | src/client.rs:84-106 | `hello` answered with `{nonce: "abc123"}` and `login` with `{clientId: 42}` gives client id 42 |
| `Handshake.ScenarioNoClientId` | src/client.rs:84-106 | a `login` result without `clientId` gives client id 0 |
| `Handshake.ScenarioHelloError` | src/client.rs:88-93 | an error answer to `hello` gives `Rejected` with the server's text; only `hello` was sent and one frame was read |
| `Handshake.ScenarioHelloWithoutNonce` | src/client.rs:94-95 | a successful `hello` answer without `nonce` gives `BadNonce` |

## Left out

- Asynchronous I/O: blocking, suspension and cancellation of `send_message` and `receive_message` are not modelled. The reader and writer are a scripted queue and a log.
- Request ids and any other header fields that `RpcMessage::new_request` fills in are not part of this model. A request is its destination, method name and parameter.
- SHA-1 and the crate's `sha1_password_hash`, UTF-8 encoding and decoding, `RpcMessage::default`, `is_success`, `error`, `result` and `to_cpon`, and the value accessors `as_map`, `as_str` and `as_i32` are not part of this model. They are parameters of the handshake.
- `Client.OptionsMap`: `as_secs() * 3` is computed on unbounded naturals. The 64-bit overflow of the source for heartbeats above a third of `u64::MAX` seconds is not modelled.
- Sub-second parts of the heartbeat `Duration` are not modelled: the heartbeat is a whole number of seconds, which is all that `as_secs` passes on.
- `Handshake.Login`: the panic of `error().unwrap()` on a non-success message without an error value is modelled as the outcome `MissingErrorPayload`, not as a panic.
- `ClientConfig::from_file` and `from_file_or_default` are not modelled: they do file-system checks, reads, directory creation, writes, YAML encoding and logging. Only the defaults they produce are modelled.
- The `Scheme` enum is not modelled, because the core code never uses it.
