/**
 * The server: it owns the token table and the token counter, accepts new
 * connections on the listener's token, dispatches readiness events to the
 * addressed client, and re-registers that client's interest with the reactor.
 */
module SocketServer {
  import opened Reactor
  import opened RequestParser
  import opened SocketClient

  /** `SERVER_TOKEN`, the listener's token. */
  const ServerToken: Token := Token(0)

  /** The server as a value: counter, connections by token, and what the reactor has registered. */
  datatype ServerView = ServerView(tokenCounter: nat, conns: map<Token, Conn>, registered: map<Token, EventSet>)

  /** One call of `ready`: the token, the readiness set, and what the socket calls return. */
  datatype Notification = Notification(token: Token, events: EventSet, accept: AcceptResult, socket: seq<ReadResult>)

  /** The server `main` builds: counter 1, no clients, the listener registered for reading. */
  function InitialView(): ServerView {
    ServerView(1, map[], map[ServerToken := {Readable}])
  }

  /**
   * The counter is not below the listener's token, every client token lies
   * above the listener's and at most at the counter;
   * the reactor holds a registration for the listener and for each client,
   * the client's equal to its current interest, which matches its state.
   */
  predicate Inv(v: ServerView)
    ensures Inv(v) ==> ServerToken !in v.conns && Token(v.tokenCounter + 1) !in v.conns
  {
    ServerToken.index <= v.tokenCounter &&
    (forall t :: t in v.conns ==> ServerToken.index < t.index <= v.tokenCounter) &&
    v.registered.Keys == v.conns.Keys + {ServerToken} &&
    v.registered[ServerToken] == {Readable} &&
    (forall t :: t in v.conns ==> v.registered[t] == v.conns[t].interest && Consistent(v.conns[t]))
  }

  /** The notification makes `ready` accept a connection. */
  predicate Accepts(n: Notification) {
    Readable in n.events && n.token == ServerToken && n.accept == Accepted
  }

  /** The notification makes `ready` return at once, on an accept error. */
  predicate ReturnsEarly(n: Notification) {
    Readable in n.events && n.token == ServerToken && n.accept == AcceptError
  }

  /**
   * The readable branch does not panic: the accept does not answer `Ok(None)`,
   * the counter does not overflow, and a client token is in the table.
   */
  predicate ReadableDefined(v: ServerView, n: Notification, tk: Tokenizer) {
    if n.token == ServerToken then
      n.accept != NoPending && (n.accept == Accepted ==> v.tokenCounter < UsizeMax)
    else
      n.token in v.conns && ReadDefined(v.conns[n.token], n.socket, tk)
  }

  /** The readable branch of `ready`. */
  function OnReadable(v: ServerView, n: Notification, tk: Tokenizer): (r: ServerView)
    requires ReadableDefined(v, n, tk)
    ensures r.tokenCounter == v.tokenCounter + (if n.token == ServerToken && n.accept == Accepted then 1 else 0)
    ensures v.conns.Keys <= r.conns.Keys
    ensures n.token == ServerToken && n.accept == AcceptError ==> r == v
    ensures n.token == ServerToken && n.accept == Accepted ==>
              var t := Token(v.tokenCounter + 1);
              t in r.conns && r.conns[t] == NewConn() && t in r.registered && r.registered[t] == {Readable}
    ensures n.token != ServerToken ==>
              n.token in r.conns && r.conns[n.token] == ReadSpec(v.conns[n.token], n.socket, tk) &&
              n.token in r.registered && r.registered[n.token] == r.conns[n.token].interest
  {
    if n.token == ServerToken then
      if n.accept == AcceptError then v
      else
        var t := Token(v.tokenCounter + 1);
        ServerView(v.tokenCounter + 1, v.conns[t := NewConn()], v.registered[t := {Readable}])
    else
      var c := ReadSpec(v.conns[n.token], n.socket, tk);
      v.(conns := v.conns[n.token := c], registered := v.registered[n.token := c.interest])
  }

  /** The writable branch of `ready`. */
  function OnWritable(v: ServerView, token: Token, crypto: Crypto): (r: ServerView)
    requires token in v.conns && SecWebSocketKey in v.conns[token].capture.headers
    ensures r.tokenCounter == v.tokenCounter && r.conns.Keys == v.conns.Keys
    ensures r.conns[token] == WriteSpec(v.conns[token], crypto)
    ensures token in r.registered && r.registered[token] == r.conns[token].interest
  {
    var c := WriteSpec(v.conns[token], crypto);
    v.(conns := v.conns[token := c], registered := v.registered[token := c.interest])
  }

  function AfterReadable(v: ServerView, n: Notification, tk: Tokenizer): ServerView
    requires Readable in n.events ==> ReadableDefined(v, n, tk)
  {
    if Readable in n.events then OnReadable(v, n, tk) else v
  }

  /** `ready` does not panic: each `unwrap` it reaches succeeds. */
  predicate ReadyDefined(v: ServerView, n: Notification, tk: Tokenizer) {
    (Readable in n.events ==> ReadableDefined(v, n, tk)) &&
    (Writable in n.events && !ReturnsEarly(n) ==>
       var w := AfterReadable(v, n, tk);
       n.token in w.conns && SecWebSocketKey in w.conns[n.token].capture.headers)
  }

  /** The server after `ready` handles the notification `n`. */
  function ReadySpec(v: ServerView, n: Notification, tk: Tokenizer, crypto: Crypto): (r: ServerView)
    requires ReadyDefined(v, n, tk)
    ensures r.tokenCounter == v.tokenCounter + (if Accepts(n) then 1 else 0)
    ensures v.conns.Keys <= r.conns.Keys
    ensures n.token != ServerToken && (Readable in n.events || Writable in n.events) ==>
              n.token in r.conns && n.token in r.registered && r.registered[n.token] == r.conns[n.token].interest
  {
    if ReturnsEarly(n) then v
    else
      var w := AfterReadable(v, n, tk);
      if Writable in n.events then OnWritable(w, n.token, crypto) else w
  }

  /** The first connection accepted by a freshly started server gets token 2. */
  lemma FirstClientGetsTokenTwo(tk: Tokenizer, crypto: Crypto)
    ensures var n := Notification(ServerToken, {Readable}, Accepted, []);
            ReadyDefined(InitialView(), n, tk) &&
            ReadySpec(InitialView(), n, tk, crypto).conns == map[Token(2) := NewConn()]
  {
  }

  lemma InitialInv()
    ensures Inv(InitialView())
  {
  }

  /**
   * A successful accept raises the counter by one and files a fresh connection,
   * registered for reading, under the new counter value, which no live client
   * holds, so no entry is overwritten.
   */
  lemma AcceptAllocatesFreshToken(v: ServerView, n: Notification, tk: Tokenizer, crypto: Crypto)
    requires Inv(v) && ReadyDefined(v, n, tk) && Accepts(n)
    ensures var r := ReadySpec(v, n, tk, crypto);
            var t := Token(r.tokenCounter);
            r.tokenCounter == v.tokenCounter + 1 &&
            t !in v.conns &&
            r.conns == v.conns[t := NewConn()] &&
            r.registered == v.registered[t := {Readable}] &&
            |r.conns| == |v.conns| + 1
  {
  }

  /** An accept error leaves the server exactly as it was. */
  lemma AcceptErrorChangesNothing(v: ServerView, n: Notification, tk: Tokenizer, crypto: Crypto)
    requires ReadyDefined(v, n, tk) && ReturnsEarly(n)
    ensures ReadySpec(v, n, tk, crypto) == v
  {
  }

  /**
   * On a client's token, a readable event runs `read`, a writable event runs
   * `write`, read before write when both are set, and the token is re-registered
   * with the client's interest afterwards.
   */
  lemma ClientEventDispatch(v: ServerView, n: Notification, tk: Tokenizer, crypto: Crypto)
    requires ReadyDefined(v, n, tk) && n.token != ServerToken && n.token in v.conns
    ensures var r := ReadySpec(v, n, tk, crypto);
            var c := v.conns[n.token];
            var afterRead := if Readable in n.events then ReadSpec(c, n.socket, tk) else c;
            n.token in r.conns &&
            r.conns[n.token] == (if Writable in n.events then WriteSpec(afterRead, crypto) else afterRead)
  {
  }

  /** The readable branch keeps the server invariant. */
  lemma OnReadableKeepsInv(v: ServerView, n: Notification, tk: Tokenizer)
    requires Inv(v) && ReadableDefined(v, n, tk)
    ensures Inv(OnReadable(v, n, tk))
  {
    var r := OnReadable(v, n, tk);
    if n.token == ServerToken {
      if n.accept != AcceptError {
        var t := Token(v.tokenCounter + 1);
        assert t !in v.conns;
        assert r.conns == v.conns[t := NewConn()];
        assert r.registered.Keys == r.conns.Keys + {ServerToken};
      }
    } else {
      ReadKeepsConsistent(v.conns[n.token], n.socket, tk);
      assert r.registered.Keys == r.conns.Keys + {ServerToken};
    }
  }

  /** The writable branch keeps the server invariant. */
  lemma OnWritableKeepsInv(v: ServerView, token: Token, crypto: Crypto)
    requires Inv(v) && token in v.conns && SecWebSocketKey in v.conns[token].capture.headers
    ensures Inv(OnWritable(v, token, crypto))
  {
    var r := OnWritable(v, token, crypto);
    WriteKeepsConsistent(v.conns[token], crypto);
    assert r.registered.Keys == r.conns.Keys + {ServerToken};
  }

  /** `ready` keeps the server invariant. */
  lemma ReadyKeepsInv(v: ServerView, n: Notification, tk: Tokenizer, crypto: Crypto)
    requires Inv(v) && ReadyDefined(v, n, tk)
    ensures Inv(ReadySpec(v, n, tk, crypto))
  {
    if !ReturnsEarly(n) {
      var w := AfterReadable(v, n, tk);
      if Readable in n.events {
        OnReadableKeepsInv(v, n, tk);
      }
      if Writable in n.events {
        OnWritableKeepsInv(w, n.token, crypto);
      }
    }
  }

  /** Handling one token touches no other client's entry or registration. */
  lemma ReadyIsolatesClients(v: ServerView, n: Notification, tk: Tokenizer, crypto: Crypto, t: Token)
    requires Inv(v) && ReadyDefined(v, n, tk)
    requires t in v.conns && t != n.token
    ensures var r := ReadySpec(v, n, tk, crypto);
            t in r.conns && r.conns[t] == v.conns[t] && t in r.registered && r.registered[t] == v.registered[t]
  {
  }

  /** A run of the server over the notifications `ns`, each of which it can handle. */
  predicate RunDefined(v: ServerView, ns: seq<Notification>, tk: Tokenizer, crypto: Crypto)
    decreases |ns|
  {
    ns == [] || (ReadyDefined(v, ns[0], tk) && RunDefined(ReadySpec(v, ns[0], tk, crypto), ns[1..], tk, crypto))
  }

  function Run(v: ServerView, ns: seq<Notification>, tk: Tokenizer, crypto: Crypto): ServerView
    requires RunDefined(v, ns, tk, crypto)
    decreases |ns|
  {
    if ns == [] then v else Run(ReadySpec(v, ns[0], tk, crypto), ns[1..], tk, crypto)
  }

  /** The tokens handed to accepted connections during the run, in order. */
  function Issued(v: ServerView, ns: seq<Notification>, tk: Tokenizer, crypto: Crypto): seq<Token>
    requires RunDefined(v, ns, tk, crypto)
    decreases |ns|
  {
    if ns == [] then []
    else
      (if Accepts(ns[0]) then [Token(v.tokenCounter + 1)] else []) +
      Issued(ReadySpec(v, ns[0], tk, crypto), ns[1..], tk, crypto)
  }

  /** A run keeps the server invariant. */
  lemma {:induction false} RunKeepsInv(v: ServerView, ns: seq<Notification>, tk: Tokenizer, crypto: Crypto)
    requires Inv(v) && RunDefined(v, ns, tk, crypto)
    ensures Inv(Run(v, ns, tk, crypto))
    decreases |ns|
  {
    if ns != [] {
      ReadyKeepsInv(v, ns[0], tk, crypto);
      RunKeepsInv(ReadySpec(v, ns[0], tk, crypto), ns[1..], tk, crypto);
    }
  }

  /**
   * The tokens issued during a run are consecutive: exactly the values above
   * the counter the run started from, up to the counter it ends with, in
   * increasing order.
   */
  lemma {:induction false} IssuedConsecutive(v: ServerView, ns: seq<Notification>, tk: Tokenizer, crypto: Crypto)
    requires RunDefined(v, ns, tk, crypto)
    ensures var issued := Issued(v, ns, tk, crypto);
            |issued| == Run(v, ns, tk, crypto).tokenCounter - v.tokenCounter &&
            forall i :: 0 <= i < |issued| ==> issued[i].index == v.tokenCounter + 1 + i
    decreases |ns|
  {
    if ns != [] {
      var v' := ReadySpec(v, ns[0], tk, crypto);
      IssuedConsecutive(v', ns[1..], tk, crypto);
      var rest := Issued(v', ns[1..], tk, crypto);
      var issued := Issued(v, ns, tk, crypto);
      if Accepts(ns[0]) {
        assert issued == [Token(v.tokenCounter + 1)] + rest;
        forall i | 0 < i < |issued|
          ensures issued[i].index == v.tokenCounter + 1 + i
        {
          assert issued[i] == rest[i - 1];
        }
      } else {
        assert issued == rest;
      }
    }
  }

  /** No token issued during a run names a connection that was live when it began. */
  lemma IssuedNeverLive(v: ServerView, ns: seq<Notification>, tk: Tokenizer, crypto: Crypto)
    requires Inv(v) && RunDefined(v, ns, tk, crypto)
    ensures forall i :: 0 <= i < |Issued(v, ns, tk, crypto)| ==> Issued(v, ns, tk, crypto)[i] !in v.conns
  {
    IssuedConsecutive(v, ns, tk, crypto);
  }

  /**
   * `WebSocketServer`. The reactor's registrations are kept as a ghost map, and
   * the ghost map `conns` mirrors each client's state, as `Valid` requires.
   */
  class WebSocketServer {
    const tokenizer: Tokenizer
    const crypto: Crypto
    var clients: map<Token, WebSocketClient>
    var tokenCounter: nat
    ghost var conns: map<Token, Conn>
    ghost var registered: map<Token, EventSet>
    ghost var Repr: set<object>

    /** Each client owns its own objects, shared with neither the server nor another client, and parses with the server's tokenizer. */
    ghost predicate Owns()
      reads this`clients, this`Repr
    {
      this in Repr &&
      (forall t :: t in clients ==>
         clients[t].Repr() <= Repr && this !in clients[t].Repr() && clients[t].parser.tokenizer == tokenizer) &&
      (forall t, u :: t in clients && u in clients && t != u ==> clients[t].Repr() !! clients[u].Repr())
    }

    /** `conns` holds each client's current state. */
    ghost predicate Mirrors()
      requires Owns()
      reads this, Repr
    {
      conns.Keys == clients.Keys && forall t :: t in clients ==> conns[t] == clients[t].Snapshot()
    }

    ghost predicate Valid()
      reads this, Repr
    {
      Owns() && Mirrors()
    }

    ghost function View(): ServerView
      reads this
    {
      ServerView(tokenCounter, conns, registered)
    }

    /** The server as `main` sets it up, with the listener registered for reading. */
    constructor (tokenizer: Tokenizer, crypto: Crypto)
      ensures Valid() && fresh(Repr)
      ensures View() == InitialView()
      ensures this.tokenizer == tokenizer && this.crypto == crypto
    {
      this.tokenizer := tokenizer;
      this.crypto := crypto;
      tokenCounter := 1;
      clients := map[];
      conns := map[];
      registered := map[ServerToken := {Readable}];
      Repr := {this};
    }

    /** The accept branch: allocate the next token and file a fresh client under it. */
    method AcceptClient()
      requires Valid() && tokenCounter < UsizeMax
      modifies this
      ensures Valid() && fresh(Repr - old(Repr))
      ensures var t := Token(old(tokenCounter) + 1);
              View() == ServerView(old(tokenCounter) + 1, old(conns)[t := NewConn()], old(registered)[t := {Readable}])
    {
      tokenCounter := tokenCounter + 1;
      var newToken := Token(tokenCounter);
      var client := new WebSocketClient(tokenizer);
      clients := clients[newToken := client];
      conns, registered, Repr := conns[newToken := client.Snapshot()], registered[newToken := {Readable}], Repr + client.Repr();
      forall t | t in clients
        ensures conns[t] == clients[t].Snapshot()
      {
        if t != newToken {
          assert unchanged(clients[t], clients[t].parser, clients[t].parser.handler);
        }
      }
    }

    /** The readable branch on a client's token: its `read` runs, then it is re-registered. */
    method DispatchRead(token: Token, socket: seq<ReadResult>)
      requires Valid() && token in clients
      requires ReadDefined(conns[token], socket, tokenizer)
      modifies this, clients[token].Repr()
      ensures Valid() && Repr == old(Repr)
      ensures tokenCounter == old(tokenCounter) && clients == old(clients)
      ensures conns == old(conns)[token := ReadSpec(old(conns[token]), socket, tokenizer)]
      ensures registered == old(registered)[token := conns[token].interest]
    {
      var client := clients[token];
      client.Read(socket);
      conns, registered := conns[token := client.Snapshot()], registered[token := client.interest];
      forall t | t in clients
        ensures conns[t] == clients[t].Snapshot()
      {
        if t != token {
          assert unchanged(clients[t], clients[t].parser, clients[t].parser.handler);
        }
      }
    }

    /** The writable branch: the addressed client's `write` runs, then it is re-registered. */
    method DispatchWrite(token: Token)
      requires Valid() && token in clients
      requires SecWebSocketKey in conns[token].capture.headers
      modifies this, clients[token].Repr()
      ensures Valid() && Repr == old(Repr)
      ensures tokenCounter == old(tokenCounter) && clients == old(clients)
      ensures conns == old(conns)[token := WriteSpec(old(conns[token]), crypto)]
      ensures registered == old(registered)[token := conns[token].interest]
    {
      var client := clients[token];
      client.Write(crypto);
      conns, registered := conns[token := client.Snapshot()], registered[token := client.interest];
      forall t | t in clients
        ensures conns[t] == clients[t].Snapshot()
      {
        if t != token {
          assert unchanged(clients[t], clients[t].parser, clients[t].parser.handler);
        }
      }
    }

    /** `Handler::ready`. */
    method Ready(token: Token, events: EventSet, accept: AcceptResult, socket: seq<ReadResult>)
      requires Valid() && ReadyDefined(View(), Notification(token, events, accept, socket), tokenizer)
      modifies Repr
      ensures Valid() && fresh(Repr - old(Repr))
      ensures View() == ReadySpec(old(View()), Notification(token, events, accept, socket), tokenizer, crypto)
    {
      ghost var n := Notification(token, events, accept, socket);
      if Readable in events {
        if token == ServerToken {
          if accept == AcceptError {
            return;
          }
          AcceptClient();
        } else {
          DispatchRead(token, socket);
        }
      }
      assert View() == AfterReadable(old(View()), n, tokenizer);
      if Writable in events {
        DispatchWrite(token);
      }
    }
  }
}
