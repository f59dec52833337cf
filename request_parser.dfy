/**
 * The incremental HTTP request tokenizer (`http_muncher::Parser`), seen only
 * through what the client relies on: it is fed byte chunks, fires header
 * callbacks into the handler it owns, and reports whether the request seen so
 * far is an Upgrade request.
 */
module RequestParser {
  import opened Utf8
  import opened HeaderCapture

  /**
   * The tokenizer's behaviour, left uninterpreted: `callbacks(before, chunk)`
   * is what it fires when `chunk` arrives after the bytes `before`, and
   * `isUpgrade(fed)` is its upgrade flag once the bytes `fed` were parsed.
   */
  datatype Tokenizer = Tokenizer(callbacks: (seq<byte>, seq<byte>) -> seq<Callback>,
                                 isUpgrade: seq<byte> -> bool)

  /** The handler after `chunk` is parsed on top of the bytes `before`. */
  function ParseEffect(tk: Tokenizer, before: seq<byte>, chunk: seq<byte>, s: Capture): Capture
    requires Guarded(s.currentKey, tk.callbacks(before, chunk))
  {
    ApplyAll(s, tk.callbacks(before, chunk))
  }

  /** `Parser<HttpParser>`: the bytes parsed so far and the handler it calls back. */
  class Parser {
    const tokenizer: Tokenizer
    const handler: HttpParser
    var fed: seq<byte>

    /** `Parser::request(handler)`. */
    constructor Request(tokenizer: Tokenizer, handler: HttpParser)
      ensures this.tokenizer == tokenizer && this.handler == handler && fed == []
    {
      this.tokenizer := tokenizer;
      this.handler := handler;
      fed := [];
    }

    predicate IsUpgrade()
      reads this
    {
      tokenizer.isUpgrade(fed)
    }

    /** Feeds one chunk: the handler receives the chunk's callbacks in order. */
    method Parse(chunk: seq<byte>)
      requires Guarded(handler.currentKey, tokenizer.callbacks(fed, chunk))
      modifies this, handler
      ensures fed == old(fed) + chunk
      ensures handler.Captured() == ParseEffect(tokenizer, old(fed), chunk, old(handler.Captured()))
    {
      var cbs := tokenizer.callbacks(fed, chunk);
      ghost var start := handler.Captured();
      var i := 0;
      while i < |cbs|
        invariant 0 <= i <= |cbs|
        invariant fed == old(fed)
        invariant Guarded(start.currentKey, cbs[..i])
        invariant handler.Captured() == ApplyAll(start, cbs[..i])
      {
        GuardedPrefix(start.currentKey, cbs, i + 1);
        assert cbs[..i + 1][..i] == cbs[..i];
        match cbs[i] {
          case HeaderField(name) =>
            var _ := handler.OnHeaderField(name);
          case HeaderValue(value) =>
            var _ := handler.OnHeaderValue(value);
          case HeadersComplete =>
            var _ := handler.OnHeadersComplete();
        }
        i := i + 1;
      }
      assert cbs[..i] == cbs;
      fed := fed + chunk;
    }
  }
}
