# rust-chat handshake core, modelled in Dafny

The repository is a single-threaded WebSocket server built on the mio reactor.
This model covers the part that runs the HTTP-to-WebSocket upgrade handshake:

- **The header-capture handler** (`HttpParser`). The HTTP tokenizer calls back into it. `on_header_field` remembers the header name and `on_header_value` stores the value under that name.
- **The per-connection state machine** (`WebSocketClient`).
  - `read` drains the non-blocking socket into the parser until the socket would block, fails, or the parser reports an Upgrade request. An upgrade flips the state to `HandshakeResponse` and the interest from readable to writable.
  - `write` derives the `Sec-WebSocket-Accept` key from the captured `Sec-WebSocket-Key` (section 4.2.2 of RFC 6455: SHA-1 of the key followed by the GUID, then base64). It then sends the `101 Switching Protocols` response, flips the state to `Connected` and flips the interest back to readable.
- **The server's reactor handler** (`WebSocketServer::ready`).
  - On the listener's token it accepts a connection, takes the next token from `token_counter` and files a new client under it, registered for reading.
  - On a client's token it runs `read` and/or `write`, read first. After each, it re-registers the client with its current interest.

Files, one module each:

| file | module | models |
|---|---|---|
| `option.dfy` | `Wrappers` | `Option` |
| `utf8.dfy` | `Utf8` | bytes and `str::as_bytes` (UTF-8, RFC 3629) |
| `reactor.dfy` | `Reactor` | mio's `EventSet`, `Token`, and the outcome of `accept` |
| `header_capture.dfy` | `HeaderCapture` | `http_parser.rs`: the handler class and its effect as a fold over callbacks |
| `request_parser.dfy` | `RequestParser` | the `http_muncher::Parser` the client owns, seen through its callbacks and upgrade flag |
| `socket_client.dfy` | `SocketClient` | `mod.rs` and `client_state.rs`: key derivation, the response, the `Conn` value with `read`/`write` as functions on it, and the class `WebSocketClient` |
| `socket_server.dfy` | `SocketServer` | `socket_server.rs` and the initial server of `main.rs`: the `ServerView` value, `ready` as a function on it, runs of `ready`, and the class `WebSocketServer` |

The imperative code is modelled as classes whose methods update fields in place:
- `HttpParser.OnHeaderField` and `OnHeaderValue`;
- `Parser.Parse`;
- `WebSocketClient.Read`, with its loop, and `WebSocketClient.Write`;
- `WebSocketServer.Ready`.

Each method is proved against a pure function of the old state (`Step` for the two callbacks, `ParseEffect` for `Parse`, `ReadSpec`, `WriteSpec`, `ReadySpec`). The lemmas about those functions state what the code promises.

External behaviour is passed in as data:
- A socket read is a finite script of `try_read` results. Each result is `ReadError`, `WouldBlock` or `Data(chunk)`, with a chunk of at most 2048 bytes.
- An accept is an `AcceptResult`.
- The tokenizer is a `Tokenizer` value. It gives the callbacks a chunk fires after the bytes fed so far, and `is_upgrade` as a predicate on the bytes fed.
- SHA-1 and base64 are a `Crypto` value. SHA-1 returns 20 bytes.
- The reactor's registrations are a ghost map from token to interest.

Panics become preconditions. These are the `unwrap`s on the header lookup, on `current_key` and on `get_mut`, `unreachable!` on `Ok(None)` from `accept`, and overflow of the `usize` counter. The callbacks receive text that is already decoded, and `register`/`reregister` are assumed to succeed; neither panic is modelled.

Behaviour of the code the model keeps as it is:
- `read` feeds the parser in every state, not only while awaiting the handshake, and `write` never checks the state.
  - So if the tokenizer's upgrade flag stays set after the handshake, a later readable event takes a `Connected` client back to `HandshakeResponse` with interest writable, and the next writable event sends a second `101` response (`ReadRevertsConnected`).
  - `ReadEndsOnUpgrade` has no requirement on the starting state, and `ReadSpec` promises only that the state stays or becomes `HandshakeResponse`.
- At end of stream mio's `try_read` answers `Ok(Some(0))` every time, and an empty chunk leaves the bytes fed unchanged. So a client that hangs up before its request has upgraded makes `read` loop for ever (`ReadNeverStopsAtEndOfStream`).
- The code has no `Closing` state, no frame codec, no outgoing frame queue, and no removal of clients on error or hang-up.
- `SERVER_TOKEN` is defined in `src/lib.rs`, which is not part of this model. It is taken to be `Token(0)`; the proofs need only that it is below 2, the first client token.

## Model

| member | source | states |
|---|---|---|
| Utf8.EncodeScalar | src/socket_client/mod.rs:24 | one character's UTF-8 bytes in shortest form: 1, 2, 3 or 4 bytes exactly as the code point is below 0x80, 0x800, 0x10000 or above; a single byte equals the code point, otherwise a lead byte whose range gives the length and continuation bytes in 0x80–0xBF |
| Utf8.EncodeScalarRoundTrip | src/socket_client/mod.rs:24 | decoding the bytes of a character gives back its code point |
| Utf8.EncodeScalarInjective | src/socket_client/mod.rs:24 | distinct characters have distinct encodings |
| Utf8.AsBytes | src/socket_client/mod.rs:24-25 | `as_bytes`: the character-by-character encoding, never shorter than the string |
| Utf8.AsBytesConcat | src/socket_client/mod.rs:24-25 | the bytes of `a + b` are the bytes of `a` followed by those of `b`, so the two hasher updates digest the bytes of key and GUID concatenated |
| Utf8.AsBytesConcatIndex | src/socket_client/mod.rs:24-25 | in the bytes of `a + b`, the bytes of `b` come right after those of `a`, each at its own offset |
| Utf8.AsciiAsBytes | src/socket_client/mod.rs:25 | an ASCII string (such as the GUID) has one byte per character, each equal to its code |
| HeaderCapture.KeyAfter | src/socket_client/http_parser.rs:14-17 | the header name in effect after a run of callbacks is the last field name received; there is none only if there was none before |
| HeaderCapture.Step | src/socket_client/http_parser.rs:14-28 | one callback: the current name becomes a field's name; a value is stored under the current name, and every other entry is kept; the end-of-headers callback changes nothing |
| HeaderCapture.ApplyAll | src/socket_client/http_parser.rs:14-24 | after a run of callbacks the handler's `current_key` is `KeyAfter` of that run, and no header entry is ever removed |
| HeaderCapture.LastValueWins | src/socket_client/http_parser.rs:19-24 | the value captured for a name is the last value received while that name was current; later values under other names do not disturb it |
| HeaderCapture.UntouchedHeaderKept | src/socket_client/http_parser.rs:14-24 | a name under which no value arrives is present afterwards exactly when it was before, with the same value |
| HeaderCapture.CapturedNameHasValue | src/socket_client/http_parser.rs:19-24 | a name newly present in the map received a value while it was the current name |
| HeaderCapture.HttpParser.constructor | src/socket_client/mod.rs:108-113 | a new handler has no current name and an empty header map |
| HeaderCapture.HttpParser.OnHeaderField | src/socket_client/http_parser.rs:14-17 | sets the current name to the name exactly as received, leaves the map alone, answers true |
| HeaderCapture.HttpParser.OnHeaderValue | src/socket_client/http_parser.rs:19-24 | requires a current name; maps it to the value, replacing any earlier value, changes no other entry and not the current name, answers true |
| HeaderCapture.HttpParser.OnHeadersComplete | src/socket_client/http_parser.rs:26-28 | changes nothing and answers false |
| RequestParser.Parser.Request | src/socket_client/mod.rs:108 | a new parser has fed no bytes and calls back the given handler |
| RequestParser.Parser.Parse | src/socket_client/mod.rs:56 | the chunk is appended to the bytes fed, and the handler ends as the fold of the chunk's callbacks over its old fields, applied in order |
| SocketClient.GuidLength | src/socket_client/mod.rs:25 | the GUID hashed is 36 bytes |
| SocketClient.GuidByte | src/socket_client/mod.rs:25 | each GUID byte hashed is the code of the GUID character at that place |
| SocketClient.GenKeyHashesKeyThenGuid | src/socket_client/mod.rs:20-30 | the accept key is base64 of SHA-1 over the key's bytes followed by the GUID's bytes |
| SocketClient.GenKeyInputKeyFirst | src/socket_client/mod.rs:24-25 | the digest input starts with the key's bytes and is 36 bytes longer than they are |
| SocketClient.GenKeyInputGuidAfter | src/socket_client/mod.rs:25 | after the key's bytes, the digest input holds the codes of the GUID's characters in order |
| SocketClient.SwitchingProtocols | src/socket_client/mod.rs:82-85 | the response is the fixed head, the accept key, and the fixed tail, in that order and nothing else |
| SocketClient.SwitchingProtocolsCarriesAccept | src/socket_client/mod.rs:82-85 | the response starts with the `101` status line, and the accept key can be read back out of it unchanged |
| SocketClient.NewConn | src/socket_client/mod.rs:98-120 | a new connection awaits the handshake with interest exactly readable, as its state requires, and has fed, captured and written nothing |
| SocketClient.Feed | src/socket_client/mod.rs:56 | a chunk is appended to the bytes fed; the current name follows the chunk's callbacks and no header is lost; state, interest and output are unchanged |
| SocketClient.Upgrade | src/socket_client/mod.rs:57-63 | the upgrade flip: state `HandshakeResponse`, interest writable and not readable, nothing else changed |
| SocketClient.ReadSpec | src/socket_client/mod.rs:44-69 | `read` never writes to the socket, only appends to the bytes fed, and leaves the state as it was or sets it to `HandshakeResponse` |
| SocketClient.ReadStop | src/socket_client/mod.rs:45-67 | every read stops at one result: all results before it are chunks after which the parser reports no upgrade, and the stop is an error, would-block, or an upgrading chunk |
| SocketClient.ReadEndsOnUpgrade | src/socket_client/mod.rs:55-65 | ending on an upgrading chunk, the parser was fed exactly the chunks up to it, the state is `HandshakeResponse`, and the interest holds writable and not readable; nothing after it is consumed |
| SocketClient.ReadEndsWithoutUpgrade | src/socket_client/mod.rs:47-54 | ending on an error or would-block, the parser was fed exactly the earlier chunks and state and interest are unchanged |
| SocketClient.ReadKeepsConsistent | src/socket_client/mod.rs:44-69 | if the interest matched the state before `read`, it matches afterwards |
| SocketClient.WriteSpec | src/socket_client/mod.rs:71-96 | `write` requires the captured `Sec-WebSocket-Key`; afterwards the state is `Connected`, the interest holds readable and not writable, the parser is untouched, and output is only appended |
| SocketClient.WriteSendsAcceptKey | src/socket_client/mod.rs:76-88 | what `write` appends is a response whose accept key is the one derived from the captured key |
| SocketClient.WriteKeepsConsistent | src/socket_client/mod.rs:90-95 | after `write` the interest is exactly readable, which is what `Connected` needs |
| SocketClient.HandshakeEndToEnd | src/socket_client/mod.rs:44-96 | a new connection whose read upgrades with the key captured, then written to, is `Connected`, wants to read, and has sent exactly one response carrying the derived key |
| SocketClient.ReadNeverStopsAtEndOfStream | src/socket_client/mod.rs:45-67 | when the bytes fed so far do not upgrade, no script of empty reads (end of stream) brings `read` to a stop |
| SocketClient.ReadRevertsConnected | src/socket_client/mod.rs:44-96 | a `Connected` connection whose parser reports an upgrade after the next chunk goes back to `HandshakeResponse` with interest writable, and the next `write` appends another `101` response |
| SocketClient.WebSocketClient.constructor | src/socket_client/mod.rs:98-120 | state `AwaitingHandshake`, interest exactly readable, empty header map, a fresh parser and handler |
| SocketClient.WebSocketClient.Read | src/socket_client/mod.rs:44-69 | the loop leaves the client exactly as `ReadSpec` says for the socket's results |
| SocketClient.WebSocketClient.Write | src/socket_client/mod.rs:71-96 | leaves the client exactly as `WriteSpec` says |
| SocketServer.Inv | src/socket_server.rs:35-40 | under the invariant, neither the listener's token nor the counter's next value names a live client |
| SocketServer.OnReadable | src/socket_server.rs:23-48 | an accept raises the counter by one and files a new connection registered for reading under the new value; a client token runs `read` and re-registers that client's interest; an accept error changes nothing; no connection is removed |
| SocketServer.OnWritable | src/socket_server.rs:54-59 | the addressed client runs `write` and is re-registered with its new interest; counter and table keys are unchanged |
| SocketServer.ReadySpec | src/socket_server.rs:19-60 | the counter rises by one exactly on an accept, no connection is removed, and a handled client token ends registered with that client's interest |
| SocketServer.InitialInv | src/main.rs:17-26 | the server `main` builds (counter 1, no clients, listener registered for reading) meets the server invariant |
| SocketServer.FirstClientGetsTokenTwo | src/socket_server.rs:35-38 | from the initial counter 1 the first accepted client is filed under token 2 as a new connection |
| SocketServer.AcceptAllocatesFreshToken | src/socket_server.rs:35-40 | under the invariant, an accept raises the counter by one, files a new connection under a token no live client holds, registers it for reading, and grows the table by one |
| SocketServer.AcceptErrorChangesNothing | src/socket_server.rs:26-30 | an accept error leaves counter, table and registrations as they were, whatever else the event set holds |
| SocketServer.ClientEventDispatch | src/socket_server.rs:42-59 | on a client token the client ends as `write` after `read`, each applied only when its event is set, read first |
| SocketServer.OnReadableKeepsInv | src/socket_server.rs:23-50 | the readable branch keeps the server invariant |
| SocketServer.OnWritableKeepsInv | src/socket_server.rs:54-59 | the writable branch keeps the server invariant |
| SocketServer.ReadyKeepsInv | src/socket_server.rs:19-60 | `ready` keeps the invariant: client tokens lie in (0, counter], every client is registered with its interest, and its interest matches its state |
| SocketServer.ReadyIsolatesClients | src/socket_server.rs:42-59 | handling one token leaves every other client's connection and registration unchanged |
| SocketServer.RunKeepsInv | src/socket_server.rs:19-60 | any run of `ready` keeps the invariant |
| SocketServer.IssuedConsecutive | src/socket_server.rs:35-36 | the tokens issued during a run are exactly the consecutive values from the starting counter plus one to the final counter, in increasing order, so none repeats |
| SocketServer.IssuedNeverLive | src/socket_server.rs:35-38 | no token issued during a run names a connection live when the run began |
| SocketServer.WebSocketServer.constructor | src/main.rs:17-21 | the object's view is the initial server |
| SocketServer.WebSocketServer.AcceptClient | src/socket_server.rs:35-40 | the counter rises by one and a new client is filed and registered for reading under the new value; nothing else changes |
| SocketServer.WebSocketServer.DispatchRead | src/socket_server.rs:42-48 | the addressed client runs `read` as `ReadSpec` says and is re-registered with its new interest; no other client changes |
| SocketServer.WebSocketServer.DispatchWrite | src/socket_server.rs:54-59 | the addressed client runs `write` as `WriteSpec` says and is re-registered with its new interest; no other client changes |
| SocketServer.WebSocketServer.Ready | src/socket_server.rs:19-60 | leaves the server's view exactly as `ReadySpec` says and keeps the clients' objects apart |

## Left out

- mio's event loop, `register`/`reregister` and the sockets are foreign I/O. Registration is a ghost map. The `edge | oneshot` options, and the disarming between an event and its re-registration, are not modelled.
- SHA-1 and base64 are uninterpreted functions (the `Crypto` value), so nothing is proved about the digest or the encoding themselves.
- The internals of the http_muncher tokenizer are uninterpreted. The callbacks' `bool` answers are returned, but they have no effect on the tokenizer: `Parse` discards them, and the callbacks a chunk fires depend only on the bytes. How http_muncher reacts to `on_headers_complete` returning false is not modelled.
- HttpParser.OnHeaderField: receives the name already decoded. The `str::from_utf8(..).unwrap()` panic on invalid UTF-8 is not modelled; the same holds for `OnHeaderValue`.
- SocketClient.WebSocketClient.Read: covers finite socket scripts that reach an error, would-block or an upgrade (`ReadDefined`). At end of stream `try_read` answers `Ok(Some(0))` forever and the loop never exits. That case is excluded rather than modelled.
- SocketClient.WebSocketClient.Write: the response is taken as written whole. `try_write`'s byte count, its would-block answer and the panic of its `unwrap` on an error are not modelled. Output is kept as text, not as the bytes `as_bytes` gives.
- SocketServer.ReadableDefined: the overflow of the `usize` counter is a precondition, for a 64-bit `usize`, and so are the panics of `unreachable!` on `Ok(None)` from `accept` and of `get_mut(..).unwrap()` on an unknown token.
- `register`/`reregister` are assumed to succeed: the panic of their `unwrap` on a reactor error is not modelled, and the registration map is updated unconditionally.
- `println!` logging is left out.
- `Rc<RefCell<..>>` sharing of the header map is modelled as the single map owned by the handler, which the client reads.
- The `ClientState::AwaitingHandshake` payload of `client_state.rs` is dropped; `mod.rs` never stores a parser in it.
- The bind address and `event_loop.run` of `main.rs` are process wiring and are not modelled.
