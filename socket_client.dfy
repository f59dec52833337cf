/**
 * One WebSocket connection during its handshake: the client object, the
 * accept-key derivation, and the value-level specification of `read` and
 * `write` that the object is proved against.
 */
module SocketClient {
  import opened Wrappers
  import opened Utf8
  import opened Reactor
  import opened HeaderCapture
  import opened RequestParser

  /** `ClientState`; the parser payload of `AwaitingHandshake` is not needed. */
  datatype ClientState = AwaitingHandshake | HandshakeResponse | Connected

  /** `read` reads into a fresh 2048-byte buffer each time round its loop. */
  const BufferSize: nat := 2048

  /** The bytes one `try_read` delivered into that buffer. */
  type Chunk = s: seq<byte> | |s| <= BufferSize

  /** What one `try_read` returned: `Err(e)`, `Ok(None)` (would block) or `Ok(Some(len))`. */
  datatype ReadResult = ReadError | WouldBlock | Data(chunk: Chunk)

  /** A SHA-1 digest. */
  type Digest = s: seq<byte> | |s| == 20 witness seq(20, _ => 0)

  /** The hashing and encoding libraries, left uninterpreted: SHA-1 and standard base64. */
  datatype Crypto = Crypto(sha1: seq<byte> -> Digest, base64: seq<byte> -> string)

  /** The GUID of section 1.3 of RFC 6455. */
  const Guid: string := "258EAFA5-E914-47DA-95CA-C5AB0DC85B11"

  const SecWebSocketKey: string := "Sec-WebSocket-Key"

  /** The GUID is 36 ASCII characters, so it is 36 bytes long ... */
  lemma GuidLength()
    ensures |AsBytes(Guid)| == 36
  {
    assert IsAscii(Guid);
    AsciiAsBytes(Guid);
  }

  /** ... and each of its bytes is the code of the character at that place. */
  lemma GuidByte(i: nat)
    requires i < 36
    ensures AsBytes(Guid)[i] as int == Guid[i] as int
  {
    assert IsAscii(Guid);
    AsciiAsBytes(Guid);
  }

  /**
   * `gen_key`: base64 of the SHA-1 digest of the key followed by the GUID.
   * SHA-1 is a streaming hash, so the two `update`s digest their concatenation.
   */
  function GenKey(key: string, crypto: Crypto): string {
    crypto.base64(crypto.sha1(AsBytes(key + Guid)))
  }

  /** The digest is taken over the key's bytes first and the GUID's bytes after them. */
  lemma GenKeyHashesKeyThenGuid(key: string, crypto: Crypto)
    ensures GenKey(key, crypto) == crypto.base64(crypto.sha1(AsBytes(key) + AsBytes(Guid)))
  {
    AsBytesConcat(key, Guid);
  }

  /** The digest input is the key's bytes followed by as many bytes as the GUID has characters. */
  lemma GenKeyInputKeyFirst(key: string)
    ensures var input := AsBytes(key + Guid);
            |input| == |AsBytes(key)| + 36 && input[..|AsBytes(key)|] == AsBytes(key)
  {
    AsBytesConcat(key, Guid);
    GuidLength();
  }

  /** After the key's bytes, the digest input holds the codes of the GUID's characters, in order. */
  lemma GenKeyInputGuidAfter(key: string, i: nat)
    requires i < 36
    ensures |AsBytes(key)| + i < |AsBytes(key + Guid)|
    ensures AsBytes(key + Guid)[|AsBytes(key)| + i] as int == Guid[i] as int
  {
    GuidLength();
    AsBytesConcatIndex(key, Guid, i);
    GuidByte(i);
  }

  const StatusLine: string := "HTTP/1.1 101 Switching Protocols\r\n"
  const ResponseHead: string := StatusLine + "Connection: Upgrade\r\n" + "Sec-WebSocket-Accept: "
  const ResponseTail: string := "\r\n" + "Upgrade: websocket\r\n" + "\r\n"

  /** The handshake response `write` formats around the accept key. */
  function SwitchingProtocols(accept: string): (r: string)
    ensures |r| == |ResponseHead| + |accept| + |ResponseTail|
    ensures r[..|ResponseHead|] == ResponseHead && r[|r| - |ResponseTail|..] == ResponseTail
    ensures r[|ResponseHead|..|r| - |ResponseTail|] == accept
  {
    ResponseHead + accept + ResponseTail
  }

  /** Reads the accept key back out of a handshake response, if it has that shape. */
  function AcceptOf(response: string): Option<string> {
    if |ResponseHead| + |ResponseTail| <= |response|
       && response[..|ResponseHead|] == ResponseHead
       && response[|response| - |ResponseTail|..] == ResponseTail
    then Some(response[|ResponseHead|..|response| - |ResponseTail|])
    else None
  }

  /** The response carries the accept key, recoverable from it, and starts with the 101 status line. */
  lemma SwitchingProtocolsCarriesAccept(accept: string)
    ensures AcceptOf(SwitchingProtocols(accept)) == Some(accept)
    ensures SwitchingProtocols(accept)[..|StatusLine|] == StatusLine
  {
  }

  /** The connection as a value: the fields of `WebSocketClient` plus what it has written. */
  datatype Conn = Conn(state: ClientState, interest: EventSet, fed: seq<byte>, capture: Capture, written: string)

  /** The interest each state needs from the reactor. */
  function InterestFor(state: ClientState): EventSet {
    if state == HandshakeResponse then {Writable} else {Readable}
  }

  predicate Consistent(c: Conn) {
    c.interest == InterestFor(c.state)
  }

  /** `WebSocketClient::new`. */
  function NewConn(): (r: Conn)
    ensures r.state == AwaitingHandshake && Consistent(r) && r.interest == {Readable}
    ensures r.fed == [] && r.written == [] && r.capture.currentKey.None? && r.capture.headers == map[]
  {
    Conn(AwaitingHandshake, {Readable}, [], Capture(None, map[]), [])
  }

  /** The bytes of the received chunks, in arrival order. */
  function DataBytes(rs: seq<ReadResult>): seq<byte>
    decreases |rs|
  {
    if rs == [] then [] else (if rs[0].Data? then rs[0].chunk else []) + DataBytes(rs[1..])
  }

  /**
   * The bytes of a chunk-led run of results are that chunk followed by the
   * bytes of the rest, so feeding them after `fed` is feeding the chunk first.
   */
  lemma DataBytesSplit(fed: seq<byte>, rs: seq<ReadResult>, j: nat)
    requires j < |rs| && rs[0].Data?
    ensures fed + DataBytes(rs[..j + 1]) == (fed + rs[0].chunk) + DataBytes(rs[1..][..j])
  {
    assert rs[..j + 1][1..] == rs[1..][..j];
  }

  /** One chunk handed to the parser. */
  function Feed(c: Conn, chunk: Chunk, tk: Tokenizer): (r: Conn)
    requires Guarded(c.capture.currentKey, tk.callbacks(c.fed, chunk))
    ensures r.fed == c.fed + chunk
    ensures r.capture.currentKey == KeyAfter(c.capture.currentKey, tk.callbacks(c.fed, chunk))
    ensures c.capture.headers.Keys <= r.capture.headers.Keys
    ensures r.state == c.state && r.interest == c.interest && r.written == c.written
  {
    c.(fed := c.fed + chunk, capture := ParseEffect(tk, c.fed, chunk, c.capture))
  }

  /** The flip `read` performs once the parser reports an upgrade. */
  function Upgrade(c: Conn): (r: Conn)
    ensures r.state == HandshakeResponse && Writable in r.interest && Readable !in r.interest
    ensures r.fed == c.fed && r.capture == c.capture && r.written == c.written
  {
    c.(state := HandshakeResponse, interest := c.interest - {Readable} + {Writable})
  }

  /**
   * The socket results `read` consumes take it to a stop (an error, would
   * block, or an upgrade), and every chunk's callbacks are well formed.
   */
  predicate ReadDefined(c: Conn, socket: seq<ReadResult>, tk: Tokenizer)
    decreases |socket|
  {
    |socket| > 0 &&
    match socket[0]
    case Data(chunk) =>
      Guarded(c.capture.currentKey, tk.callbacks(c.fed, chunk)) &&
      (tk.isUpgrade(c.fed + chunk) || ReadDefined(Feed(c, chunk, tk), socket[1..], tk))
    case _ => true
  }

  /** The connection after `read` meets the socket results `socket`. */
  function ReadSpec(c: Conn, socket: seq<ReadResult>, tk: Tokenizer): (r: Conn)
    requires ReadDefined(c, socket, tk)
    ensures r.written == c.written
    ensures c.fed <= r.fed
    ensures r.state == c.state || r.state == HandshakeResponse
    decreases |socket|
  {
    match socket[0]
    case Data(chunk) =>
      var next := Feed(c, chunk, tk);
      if tk.isUpgrade(next.fed) then Upgrade(next) else ReadSpec(next, socket[1..], tk)
    case _ => c
  }

  /** Every defined read stops at some index `k`; all results before it are non-upgrading chunks. */
  lemma {:induction false} ReadStop(c: Conn, socket: seq<ReadResult>, tk: Tokenizer) returns (k: nat)
    requires ReadDefined(c, socket, tk)
    ensures k < |socket|
    ensures forall j :: 0 <= j < k ==> socket[j].Data? && !tk.isUpgrade(c.fed + DataBytes(socket[..j + 1]))
    ensures socket[k].Data? ==> tk.isUpgrade(c.fed + DataBytes(socket[..k + 1]))
    decreases |socket|
  {
    k := 0;
    if socket[0].Data? {
      var chunk := socket[0].chunk;
      assert socket[..1][1..] == [];
      assert DataBytes(socket[..1]) == chunk;
      if !tk.isUpgrade(c.fed + chunk) {
        var next := Feed(c, chunk, tk);
        var k' := ReadStop(next, socket[1..], tk);
        k := k' + 1;
        forall j | 0 <= j < k
          ensures socket[j].Data? && !tk.isUpgrade(c.fed + DataBytes(socket[..j + 1]))
        {
          if j > 0 {
            DataBytesSplit(c.fed, socket, j);
            assert socket[1..][..j] == socket[1..][..j - 1 + 1];
          }
        }
        assert socket[k] == socket[1..][k'];
        DataBytesSplit(c.fed, socket, k);
      }
    }
  }

  /**
   * A read that ends on an upgrading chunk has fed the parser exactly the chunks
   * up to and including it, and flipped to `HandshakeResponse` with interest
   * writable and not readable; no later result is consumed.
   */
  lemma {:induction false} ReadEndsOnUpgrade(c: Conn, socket: seq<ReadResult>, tk: Tokenizer, k: nat)
    requires ReadDefined(c, socket, tk)
    requires k < |socket| && socket[k].Data?
    requires forall j :: 0 <= j < k ==> socket[j].Data? && !tk.isUpgrade(c.fed + DataBytes(socket[..j + 1]))
    requires tk.isUpgrade(c.fed + DataBytes(socket[..k + 1]))
    ensures var r := ReadSpec(c, socket, tk);
            r.fed == c.fed + DataBytes(socket[..k + 1]) &&
            r.state == HandshakeResponse &&
            r.interest == c.interest - {Readable} + {Writable} &&
            Writable in r.interest && Readable !in r.interest
    decreases |socket|
  {
    var chunk := socket[0].chunk;
    assert socket[..1][1..] == [];
    assert DataBytes(socket[..1]) == chunk;
    if k > 0 {
      var next := Feed(c, chunk, tk);
      assert !tk.isUpgrade(c.fed + chunk);
      forall j | 0 <= j < k - 1
        ensures socket[1..][j].Data? && !tk.isUpgrade(next.fed + DataBytes(socket[1..][..j + 1]))
      {
        DataBytesSplit(c.fed, socket, j + 1);
      }
      DataBytesSplit(c.fed, socket, k);
      ReadEndsOnUpgrade(next, socket[1..], tk, k - 1);
    }
  }

  /**
   * A read that ends on an error or on would-block has fed the parser exactly
   * the chunks before it and leaves state and interest as they were.
   */
  lemma {:induction false} ReadEndsWithoutUpgrade(c: Conn, socket: seq<ReadResult>, tk: Tokenizer, k: nat)
    requires ReadDefined(c, socket, tk)
    requires k < |socket| && !socket[k].Data?
    requires forall j :: 0 <= j < k ==> socket[j].Data? && !tk.isUpgrade(c.fed + DataBytes(socket[..j + 1]))
    ensures var r := ReadSpec(c, socket, tk);
            r.fed == c.fed + DataBytes(socket[..k]) && r.state == c.state && r.interest == c.interest
    decreases |socket|
  {
    if k > 0 {
      var chunk := socket[0].chunk;
      assert socket[..1][1..] == [];
      assert DataBytes(socket[..1]) == chunk;
      var next := Feed(c, chunk, tk);
      DataBytesSplit(c.fed, socket, k - 1);
      forall j | 0 <= j < k - 1
        ensures socket[1..][j].Data? && !tk.isUpgrade(next.fed + DataBytes(socket[1..][..j + 1]))
      {
        DataBytesSplit(c.fed, socket, j + 1);
      }
      ReadEndsWithoutUpgrade(next, socket[1..], tk, k - 1);
    } else {
      assert socket[..0] == [];
    }
  }

  /** `read` keeps the interest matching the state. */
  lemma {:induction false} ReadKeepsConsistent(c: Conn, socket: seq<ReadResult>, tk: Tokenizer)
    requires ReadDefined(c, socket, tk) && Consistent(c)
    ensures Consistent(ReadSpec(c, socket, tk))
    decreases |socket|
  {
    match socket[0]
    case Data(chunk) =>
      var next := Feed(c, chunk, tk);
      if tk.isUpgrade(next.fed) {
        assert next.interest == {Readable} || next.interest == {Writable};
        assert Upgrade(next).interest == {Writable};
      } else {
        ReadKeepsConsistent(next, socket[1..], tk);
      }
    case _ =>
  }

  /** The connection after `write`: the handshake response is sent and the connection is open. */
  function WriteSpec(c: Conn, crypto: Crypto): (r: Conn)
    requires SecWebSocketKey in c.capture.headers
    ensures r.state == Connected && Readable in r.interest && Writable !in r.interest
    ensures r.fed == c.fed && r.capture == c.capture
    ensures c.written <= r.written
  {
    var response := SwitchingProtocols(GenKey(c.capture.headers[SecWebSocketKey], crypto));
    c.(state := Connected,
       interest := c.interest - {Writable} + {Readable},
       written := c.written + response)
  }

  /** What `write` appends is the response carrying the accept key derived from the captured key. */
  lemma WriteSendsAcceptKey(c: Conn, crypto: Crypto)
    requires SecWebSocketKey in c.capture.headers
    ensures var r := WriteSpec(c, crypto);
            exists response :: r.written == c.written + response &&
              AcceptOf(response) == Some(GenKey(c.capture.headers[SecWebSocketKey], crypto))
  {
    var response := SwitchingProtocols(GenKey(c.capture.headers[SecWebSocketKey], crypto));
    SwitchingProtocolsCarriesAccept(GenKey(c.capture.headers[SecWebSocketKey], crypto));
  }

  lemma WriteKeepsConsistent(c: Conn, crypto: Crypto)
    requires SecWebSocketKey in c.capture.headers
    ensures Consistent(WriteSpec(c, crypto)) && WriteSpec(c, crypto).interest == {Readable}
  {
    var r := WriteSpec(c, crypto);
    forall e ensures e in r.interest <==> e == Readable {
      if e == Writable {
        assert e !in r.interest;
      }
    }
  }

  /**
   * A fresh connection whose read ends in an upgrade with the key captured,
   * followed by a write, is open, wants to read, and has sent exactly one
   * `101` response.
   */
  lemma HandshakeEndToEnd(socket: seq<ReadResult>, tk: Tokenizer, crypto: Crypto)
    requires ReadDefined(NewConn(), socket, tk)
    requires ReadSpec(NewConn(), socket, tk).state == HandshakeResponse
    requires SecWebSocketKey in ReadSpec(NewConn(), socket, tk).capture.headers
    ensures var afterRead := ReadSpec(NewConn(), socket, tk);
            var r := WriteSpec(afterRead, crypto);
            r.state == Connected && r.interest == {Readable} &&
            r.written == SwitchingProtocols(GenKey(afterRead.capture.headers[SecWebSocketKey], crypto))
  {
    ReadKeepsConsistent(NewConn(), socket, tk);
  }

  /**
   * At end of stream `try_read` answers with empty chunks forever. An empty
   * chunk leaves the bytes fed as they were, so unless those bytes already
   * upgrade, no such script brings `read` to a stop.
   */
  lemma {:induction false} ReadNeverStopsAtEndOfStream(c: Conn, socket: seq<ReadResult>, tk: Tokenizer)
    requires !tk.isUpgrade(c.fed)
    requires forall i :: 0 <= i < |socket| ==> socket[i] == Data([])
    ensures !ReadDefined(c, socket, tk)
    decreases |socket|
  {
    if |socket| > 0 && Guarded(c.capture.currentKey, tk.callbacks(c.fed, [])) {
      forall i | 0 <= i < |socket[1..]| ensures socket[1..][i] == Data([]) {
        assert socket[1..][i] == socket[i + 1];
      }
      assert c.fed + [] == c.fed;
      ReadNeverStopsAtEndOfStream(Feed(c, [], tk), socket[1..], tk);
    }
  }

  /**
   * `read` does not look at the state: an open connection whose parser still
   * reports an upgrade goes back to `HandshakeResponse`, and the next `write`
   * sends another `101` response.
   */
  lemma ReadRevertsConnected(c: Conn, socket: seq<ReadResult>, tk: Tokenizer, crypto: Crypto)
    requires Consistent(c) && c.state == Connected && SecWebSocketKey in c.capture.headers
    requires |socket| > 0 && socket[0].Data?
    requires Guarded(c.capture.currentKey, tk.callbacks(c.fed, socket[0].chunk))
    requires tk.isUpgrade(c.fed + socket[0].chunk)
    ensures ReadDefined(c, socket, tk)
    ensures var r := ReadSpec(c, socket, tk);
            r.state == HandshakeResponse && r.interest == {Writable} &&
            SecWebSocketKey in r.capture.headers &&
            WriteSpec(r, crypto).written ==
              c.written + SwitchingProtocols(GenKey(r.capture.headers[SecWebSocketKey], crypto))
  {
    var r := ReadSpec(c, socket, tk);
    assert r == Upgrade(Feed(c, socket[0].chunk, tk));
    forall e ensures e in r.interest <==> e == Writable {
      if e == Readable {
        assert e !in r.interest;
      }
    }
  }

  /** `WebSocketClient`: its socket's traffic is the read script and the text `written` to it. */
  class WebSocketClient {
    const parser: Parser
    var interest: EventSet
    var state: ClientState
    var written: string

    /** The objects the client owns. */
    ghost function Repr(): set<object> {
      {this, parser, parser.handler}
    }

    ghost function Snapshot(): Conn
      reads this, parser, parser.handler
    {
      Conn(state, interest, parser.fed, parser.handler.Captured(), written)
    }

    /** The headers map the client and the handler share. */
    function Headers(): map<string, string>
      reads parser.handler
    {
      parser.handler.headers
    }

    /** `WebSocketClient::new`. */
    constructor (tokenizer: Tokenizer)
      ensures Snapshot() == NewConn()
      ensures state == AwaitingHandshake && interest == {Readable} && Headers() == map[]
      ensures parser.tokenizer == tokenizer
      ensures fresh(Repr())
    {
      var handler := new HttpParser();
      parser := new Parser.Request(tokenizer, handler);
      interest := {Readable};
      state := AwaitingHandshake;
      written := [];
    }

    /** `read`: drain the socket into the parser until it would block, fails or upgrades. */
    method Read(socket: seq<ReadResult>)
      requires ReadDefined(Snapshot(), socket, parser.tokenizer)
      modifies Repr()
      ensures Snapshot() == ReadSpec(old(Snapshot()), socket, parser.tokenizer)
    {
      var i := 0;
      while true
        invariant 0 <= i <= |socket|
        invariant ReadDefined(Snapshot(), socket[i..], parser.tokenizer)
        invariant ReadSpec(old(Snapshot()), socket, parser.tokenizer) == ReadSpec(Snapshot(), socket[i..], parser.tokenizer)
        decreases |socket| - i
      {
        match socket[i] {
          case ReadError =>
            return;
          case WouldBlock =>
            break;
          case Data(chunk) =>
            parser.Parse(chunk);
            if parser.IsUpgrade() {
              state := HandshakeResponse;
              interest := interest - {Readable};
              interest := interest + {Writable};
              break;
            }
        }
        assert socket[i..][1..] == socket[i + 1..];
        i := i + 1;
      }
    }

    /** `write`: send the handshake response and switch to `Connected`. */
    method Write(crypto: Crypto)
      requires SecWebSocketKey in Headers()
      modifies this
      ensures Snapshot() == WriteSpec(old(Snapshot()), crypto)
    {
      var responseKey := GenKey(Headers()[SecWebSocketKey], crypto);
      var response := SwitchingProtocols(responseKey);
      written := written + response;
      state := Connected;
      interest := interest - {Writable};
      interest := interest + {Readable};
    }
  }
}
