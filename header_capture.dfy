/**
 * The header-capture handler that the HTTP tokenizer calls back into while it
 * parses the handshake request: `on_header_field` remembers the header name,
 * `on_header_value` stores the value under the remembered name.
 */
module HeaderCapture {
  import opened Wrappers

  /** One callback the tokenizer fires, with its payload already decoded as text. */
  datatype Callback = HeaderField(name: string) | HeaderValue(value: string) | HeadersComplete

  /** The handler's two fields: the current header name and the captured headers. */
  datatype Capture = Capture(currentKey: Option<string>, headers: map<string, string>)

  /** The header name in effect after the callbacks `cbs`, starting from `key`. */
  function KeyAfter(key: Option<string>, cbs: seq<Callback>): (k: Option<string>)
    ensures k.None? ==> key.None?
    decreases |cbs|
  {
    if cbs == [] then key
    else
      var last := cbs[|cbs| - 1];
      if last.HeaderField? then Some(last.name) else KeyAfter(key, cbs[..|cbs| - 1])
  }

  /**
   * Every value callback has a header name to be stored under; otherwise
   * `current_key.clone().unwrap()` panics.
   */
  predicate Guarded(key: Option<string>, cbs: seq<Callback>) {
    forall i :: 0 <= i < |cbs| && cbs[i].HeaderValue? ==> KeyAfter(key, cbs[..i]).Some?
  }

  /** The effect of one callback on the handler. */
  function Step(s: Capture, cb: Callback): (r: Capture)
    requires cb.HeaderValue? ==> s.currentKey.Some?
    ensures r.currentKey == KeyAfter(s.currentKey, [cb])
    ensures cb.HeaderValue? ==> s.currentKey.value in r.headers && r.headers[s.currentKey.value] == cb.value
    ensures s.headers.Keys <= r.headers.Keys
    ensures forall k :: k in r.headers && !(cb.HeaderValue? && k == s.currentKey.value) ==>
              k in s.headers && r.headers[k] == s.headers[k]
  {
    match cb
    case HeaderField(name) => s.(currentKey := Some(name))
    case HeaderValue(value) => s.(headers := s.headers[s.currentKey.value := value])
    case HeadersComplete => s
  }

  /** The handler after it has received the callbacks `cbs`, in order. */
  function ApplyAll(s: Capture, cbs: seq<Callback>): (r: Capture)
    requires Guarded(s.currentKey, cbs)
    ensures r.currentKey == KeyAfter(s.currentKey, cbs)
    ensures s.headers.Keys <= r.headers.Keys
    decreases |cbs|
  {
    if cbs == [] then s
    else
      var n := |cbs| - 1;
      assert Guarded(s.currentKey, cbs[..n]) by {
        forall i | 0 <= i < n && cbs[..n][i].HeaderValue?
          ensures KeyAfter(s.currentKey, cbs[..n][..i]).Some?
        {
          assert cbs[..n][..i] == cbs[..i];
        }
      }
      Step(ApplyAll(s, cbs[..n]), cbs[n])
  }

  /** The prefix of a guarded callback sequence is guarded. */
  lemma GuardedPrefix(key: Option<string>, cbs: seq<Callback>, n: nat)
    requires n <= |cbs| && Guarded(key, cbs)
    ensures Guarded(key, cbs[..n])
  {
    forall i | 0 <= i < n && cbs[..n][i].HeaderValue?
      ensures KeyAfter(key, cbs[..n][..i]).Some?
    {
      assert cbs[..n][..i] == cbs[..i];
    }
  }

  /**
   * The last value received under a header name is the one captured: later
   * values for the same name overwrite earlier ones, and a value for another
   * name does not disturb it.
   */
  lemma {:induction false} LastValueWins(s: Capture, cbs: seq<Callback>, i: nat)
    requires Guarded(s.currentKey, cbs)
    requires i < |cbs| && cbs[i].HeaderValue?
    requires forall j :: i < j < |cbs| && cbs[j].HeaderValue? ==>
               KeyAfter(s.currentKey, cbs[..j]) != KeyAfter(s.currentKey, cbs[..i])
    ensures KeyAfter(s.currentKey, cbs[..i]).Some?
    ensures var name := KeyAfter(s.currentKey, cbs[..i]).value;
            name in ApplyAll(s, cbs).headers && ApplyAll(s, cbs).headers[name] == cbs[i].value
    decreases |cbs|
  {
    var n := |cbs| - 1;
    GuardedPrefix(s.currentKey, cbs, n);
    assert cbs[..n][..i] == cbs[..i];
    if i < n {
      forall j | i < j < n && cbs[..n][j].HeaderValue?
        ensures KeyAfter(s.currentKey, cbs[..n][..j]) != KeyAfter(s.currentKey, cbs[..n][..i])
      {
        assert cbs[..n][..j] == cbs[..j];
      }
      LastValueWins(s, cbs[..n], i);
    } else {
      assert cbs[..i] == cbs[..n];
    }
  }

  /** A header name under which no value arrives keeps its earlier entry, or its absence. */
  lemma {:induction false} UntouchedHeaderKept(s: Capture, cbs: seq<Callback>, name: string)
    requires Guarded(s.currentKey, cbs)
    requires forall j :: 0 <= j < |cbs| && cbs[j].HeaderValue? ==> KeyAfter(s.currentKey, cbs[..j]) != Some(name)
    ensures name in ApplyAll(s, cbs).headers <==> name in s.headers
    ensures name in s.headers ==> ApplyAll(s, cbs).headers[name] == s.headers[name]
    decreases |cbs|
  {
    if cbs != [] {
      var n := |cbs| - 1;
      GuardedPrefix(s.currentKey, cbs, n);
      forall j | 0 <= j < n && cbs[..n][j].HeaderValue?
        ensures KeyAfter(s.currentKey, cbs[..n][..j]) != Some(name)
      {
        assert cbs[..n][..j] == cbs[..j];
      }
      UntouchedHeaderKept(s, cbs[..n], name);
    }
  }

  /** A captured header name either was there before or received a value under that name. */
  lemma {:induction false} CapturedNameHasValue(s: Capture, cbs: seq<Callback>, name: string)
    requires Guarded(s.currentKey, cbs)
    requires name in ApplyAll(s, cbs).headers && name !in s.headers
    ensures exists j :: 0 <= j < |cbs| && cbs[j].HeaderValue? && KeyAfter(s.currentKey, cbs[..j]) == Some(name)
  {
    if forall j :: 0 <= j < |cbs| && cbs[j].HeaderValue? ==> KeyAfter(s.currentKey, cbs[..j]) != Some(name) {
      UntouchedHeaderKept(s, cbs, name);
    }
  }

  /** The handler object (`struct HttpParser`), updated in place by the tokenizer's callbacks. */
  class HttpParser {
    var currentKey: Option<string>
    var headers: map<string, string>

    constructor ()
      ensures currentKey == None && headers == map[]
    {
      currentKey := None;
      headers := map[];
    }

    /** The handler's fields as a value. */
    function Captured(): Capture
      reads this
    {
      Capture(currentKey, headers)
    }

    /** Remembers the header name exactly as received and asks the tokenizer to go on. */
    method OnHeaderField(s: string) returns (r: bool)
      modifies this
      ensures currentKey == Some(s) && headers == old(headers)
      ensures r
      ensures Captured() == Step(old(Captured()), HeaderField(s))
    {
      currentKey := Some(s);
      r := true;
    }

    /** Stores the value under the remembered name, replacing any earlier value for it. */
    method OnHeaderValue(s: string) returns (r: bool)
      requires currentKey.Some?
      modifies this
      ensures currentKey == old(currentKey)
      ensures headers == old(headers)[old(currentKey).value := s]
      ensures r
      ensures Captured() == Step(old(Captured()), HeaderValue(s))
    {
      headers := headers[currentKey.value := s];
      r := true;
    }

    /** Changes nothing and answers false. */
    method OnHeadersComplete() returns (r: bool)
      ensures !r
    {
      r := false;
    }
  }
}
