/** The JSON-RPC 2.0 dispatcher of the TP2 server: registration, validation
    and dispatch of one request, and the message-level handling of parse
    failures and batches. Parsing is abstract: a message arrives as the value
    `json.loads` produced, or None when it raised `JSONDecodeError`. */
module RpcServer {
  import opened Wrappers
  import opened JsonValues

  /** The exception classes the dispatcher's `except` clauses tell apart.
      `JSONDecodeError` is a subclass of `ValueError` and is caught first;
      `ArithmeticError` and `OtherError` (any other `Exception` subclass)
      both reach the last clause. */
  datatype Exception = JSONDecodeError | ValueError | KeyError | TypeError | ArithmeticError | OtherError

  /** A Python evaluation that either returns a value or raises. */
  datatype Raising<+T> = Returned(value: T) | Raised(exc: Exception)

  /** A registered function, reduced to what the dispatcher observes: how
      many parameters its signature declares, and what calling it with a
      given positional argument list returns or raises. */
  datatype Handler = Handler(arity: nat, call: seq<Json> -> Raising<Json>)

  type Registry = map<string, Handler>

  /** `register`: bind a name to a handler; a later registration of the same
      name replaces the earlier one. */
  function Register(funcs: Registry, name: string, h: Handler): (r: Registry)
    ensures r.Keys == funcs.Keys + {name}
    ensures r[name] == h
    ensures forall n :: n in funcs && n != name ==> r[n] == funcs[n]
  {
    funcs[name := h]
  }

  // ---------------------------------------------------------------------
  // The response the dispatcher means to build, as a typed value
  // ---------------------------------------------------------------------

  datatype Outcome = Success(result: Json) | Failure(code: int, message: string)

  /** A response: its `id` member (None when the key is absent) and either a
      result or an error. */
  datatype Reply = Reply(id: Option<Json>, outcome: Outcome)

  function ErrorObject(code: int, message: string): Json {
    JObj([("code", JNum(code)), ("message", JStr(message))])
  }

  /** The members a response starts with: `jsonrpc`, then `id` when present. */
  function Head(id: Option<Json>): Members {
    [("jsonrpc", JStr("2.0"))] + (if id.Some? then [("id", id.value)] else [])
  }

  lemma FindHead(id: Option<Json>, k: string)
    ensures Find(Head(id), k) == if k == "jsonrpc" then Some(JStr("2.0")) else if k == "id" then id else None
  {
    var j: Members := [("jsonrpc", JStr("2.0"))];
    var rest: Members := if id.Some? then [("id", id.value)] else [];
    FindAppend(j, rest, k);
    assert Find(j, k) == if k == "jsonrpc" then Some(JStr("2.0")) else Find(j[1..], k);
    assert j[1..] == [];
    if id.Some? {
      assert rest[1..] == [];
    }
  }

  /** The JSON object for a reply, members in the order the dispatcher
      inserts them: `jsonrpc`, then `id` when present, then `result` or `error`. */
  function Encode(rep: Reply): Json {
    match rep.outcome
    case Success(v) => JObj(Head(rep.id) + [("result", v)])
    case Failure(c, m) => JObj(Head(rep.id) + [("error", ErrorObject(c, m))])
  }

  /** A well-formed response object: `jsonrpc` is "2.0" and exactly one of
      `result` and `error` is present. */
  predicate IsResponse(r: Json) {
    && r.JObj?
    && Find(r.members, "jsonrpc") == Some(JStr("2.0"))
    && (HasKey(r.members, "result") <==> !HasKey(r.members, "error"))
  }

  /** Reads a response object back, by key and regardless of member order. */
  function Decode(r: Json): (rep: Option<Reply>)
    ensures rep.Some? ==> IsResponse(r)
  {
    if !r.JObj? || Find(r.members, "jsonrpc") != Some(JStr("2.0")) then None
    else
      var ms := r.members;
      match (Find(ms, "result"), Find(ms, "error"))
      case (Some(v), None) => Some(Reply(Find(ms, "id"), Success(v)))
      case (None, Some(JObj(em))) =>
        (match (Find(em, "code"), Find(em, "message"))
         case (Some(JNum(c)), Some(JStr(m))) => Some(Reply(Find(ms, "id"), Failure(c, m)))
         case _ => None)
      case _ => None
  }

  lemma DecodeEncode(rep: Reply)
    ensures Decode(Encode(rep)) == Some(rep)
    ensures IsResponse(Encode(rep))
  {
    var ms := Encode(rep).members;
    var last := if rep.outcome.Success? then ("result", rep.outcome.result)
                else ("error", ErrorObject(rep.outcome.code, rep.outcome.message));
    assert ms == Head(rep.id) + [last];
    forall k: string ensures Find(ms, k) == if k == "jsonrpc" then Some(JStr("2.0")) else if k == "id" then rep.id
                                            else if k == last.0 then Some(last.1) else None
    {
      FindAppend(Head(rep.id), [last], k);
      FindHead(rep.id, k);
      assert [last][1..] == [];
    }
    assert Find(ms, "jsonrpc") == Some(JStr("2.0"));
    assert Find(ms, "id") == rep.id;
    if rep.outcome.Success? {
      assert Find(ms, "result") == Some(rep.outcome.result);
      assert Find(ms, "error") == None;
    } else {
      var em := [("code", JNum(rep.outcome.code)), ("message", JStr(rep.outcome.message))];
      assert Find(ms, "result") == None;
      assert Find(ms, "error") == Some(JObj(em));
      assert Find(em, "code") == Some(JNum(rep.outcome.code));
      assert Find(em, "message") == Some(JStr(rep.outcome.message));
    }
  }

  // ---------------------------------------------------------------------
  // The steps of process_request
  // ---------------------------------------------------------------------

  /** Python's `p in s` for strings: `p` occurs as a contiguous piece of `s`. */
  predicate IsSubstring(p: string, s: string) {
    exists i | 0 <= i <= |s| - |p| :: OccursAt(p, s, i)
  }

  predicate OccursAt(p: string, s: string, i: int)
    requires 0 <= i <= |s| - |p|
  {
    s[i..i + |p|] == p
  }

  /** The exception lines 58-60 raise when the decoded message is not an
      object: `'method' in msg` is list membership or a substring test and
      `msg['method']` then fails with TypeError; on a number, boolean or null
      the membership test itself raises TypeError. */
  function NonObjectFault(msg: Json): Exception
    requires !msg.JObj?
  {
    match msg
    case JArr(items) => if JStr("method") in items then TypeError else ValueError
    case JStr(s) => if IsSubstring("method", s) then TypeError else ValueError
    case _ => TypeError
  }

  /** `method not in self.funcs` and `self.funcs[method]`: a list or an object
      is unhashable (TypeError); any other non-string is simply not a key. */
  function Lookup(funcs: Registry, name: Json): Raising<Handler> {
    match name
    case JStr(s) => if s in funcs then Returned(funcs[s]) else Raised(KeyError)
    case JArr(_) => Raised(TypeError)
    case JObj(_) => Raised(TypeError)
    case _ => Raised(KeyError)
  }

  /** `len(params)` and `*params`: a list spreads its items, an object its
      keys (so by-name parameters arrive positionally, as key strings), a
      string its characters; anything else has no length. */
  function Spread(params: Json): (r: Raising<seq<Json>>)
    ensures params.JArr? ==> r == Returned(params.items)
    ensures params.JObj? ==> r.Returned? && |r.value| == |params.members|
    ensures params.JStr? ==> r.Returned? && |r.value| == |params.s|
    ensures params.JNull? || params.JBool? || params.JNum? ==> r == Raised(TypeError)
  {
    match params
    case JArr(items) => Returned(items)
    case JObj(ms) => Returned(seq(|ms|, i requires 0 <= i < |ms| => JStr(ms[i].0)))
    case JStr(s) => Returned(seq(|s|, i requires 0 <= i < |s| => JStr([s[i]])))
    case _ => Raised(TypeError)
  }

  /** Lines 71-84: the arity check against the signature, then the call. A
      handler with parameters needs `params` of exactly that length; a
      handler without parameters is called with none, whatever `params` holds. */
  function Invoke(h: Handler, ms: Members): Raising<Json> {
    if h.arity > 0 then
      if HasKey(ms, "params") then
        match Spread(Get(ms, "params"))
        case Raised(e) => Raised(e)
        case Returned(args) => if |args| == h.arity then h.call(args) else Raised(TypeError)
      else Raised(TypeError)
    else h.call([])
  }

  /** The state the `try` block of lines 53-84 leaves: the response members
      written so far and the exception that ended it, if any. */
  datatype Attempt = Attempt(res: Members, raised: Option<Exception>)

  function TryBlock(funcs: Registry, parsed: Option<Json>): Attempt {
    var res := [("jsonrpc", JStr("2.0"))];
    match parsed
    case None => Attempt(res, Some(JSONDecodeError))
    case Some(msg) =>
      if !msg.JObj? then Attempt(res, Some(NonObjectFault(msg)))
      else
        var ms := msg.members;
        if !HasKey(ms, "method") then Attempt(res, Some(ValueError))
        else
          var res := if HasKey(ms, "id") then Put(res, "id", Get(ms, "id")) else res;
          match Lookup(funcs, Get(ms, "method"))
          case Raised(e) => Attempt(res, Some(e))
          case Returned(h) =>
            match Invoke(h, ms)
            case Raised(e) => Attempt(res, Some(e))
            case Returned(v) => Attempt(Put(res, "result", v), None)
  }

  /** The `except` clauses of lines 85-96. */
  function Catch(res: Members, e: Exception): Members {
    match e
    case JSONDecodeError => Put(Put(res, "id", JNull), "error", ErrorObject(-32700, "Parse error"))
    case ValueError => Put(Put(res, "id", JNull), "error", ErrorObject(-32600, "Invalid Request"))
    case KeyError => Put(res, "error", ErrorObject(-32601, "Method not found"))
    case TypeError => Put(res, "error", ErrorObject(-32602, "Invalid params"))
    case _ => Put(res, "error", ErrorObject(-32603, "Internal error"))
  }

  // ---------------------------------------------------------------------
  // The dispatcher's promise, stated on the typed reply
  // ---------------------------------------------------------------------

  /** The error each exception class is reported as (section 5.1 of the
      JSON-RPC 2.0 specification, keyed by Python exception class). */
  function ErrorFor(e: Exception): Outcome {
    match e
    case JSONDecodeError => Failure(-32700, "Parse error")
    case ValueError => Failure(-32600, "Invalid Request")
    case KeyError => Failure(-32601, "Method not found")
    case TypeError => Failure(-32602, "Invalid params")
    case ArithmeticError => Failure(-32603, "Internal error")
    case OtherError => Failure(-32603, "Internal error")
  }

  /** Parse errors and invalid requests report a null id, whatever the request carried. */
  predicate NullsId(e: Exception) {
    e == JSONDecodeError || e == ValueError
  }

  /** The request's own id, echoed when it is an object that names a method. */
  function EchoedId(parsed: Option<Json>): Option<Json> {
    match parsed
    case Some(JObj(ms)) => if HasKey(ms, "method") then Find(ms, "id") else None
    case _ => None
  }

  /** What a request leads to, checks in order: parse failure, shape,
      missing method, unknown method, then the handler (arity and call). */
  function Verdict(funcs: Registry, parsed: Option<Json>): Raising<Json> {
    match parsed
    case None => Raised(JSONDecodeError)
    case Some(msg) =>
      if !msg.JObj? then Raised(NonObjectFault(msg))
      else if !HasKey(msg.members, "method") then Raised(ValueError)
      else
        match Lookup(funcs, Get(msg.members, "method"))
        case Raised(e) => Raised(e)
        case Returned(h) => Invoke(h, msg.members)
  }

  function Expected(funcs: Registry, parsed: Option<Json>): Reply {
    match Verdict(funcs, parsed)
    case Returned(v) => Reply(EchoedId(parsed), Success(v))
    case Raised(e) => Reply(if NullsId(e) then Some(JNull) else EchoedId(parsed), ErrorFor(e))
  }

  /** Re-assigning `id` in a response head keeps its position. */
  lemma PutIdIntoHead(id: Option<Json>, x: Json)
    ensures Put(Head(id), "id", x) == Head(Some(x))
  {
    var j := ("jsonrpc", JStr("2.0"));
    if id.Some? {
      assert Head(id) == [j, ("id", id.value)];
      assert Head(id)[1..] == [("id", id.value)];
    } else {
      assert Head(id) == [j];
      assert Head(id)[1..] == [];
    }
  }

  lemma PutAfterHead(id: Option<Json>, k: string, v: Json)
    requires k != "jsonrpc" && k != "id"
    ensures Put(Head(id), k, v) == Head(id) + [(k, v)]
  {
    FindHead(id, k);
    PutFresh(Head(id), k, v);
  }

  /** What the `try` block leaves behind: the response head with the echoed
      id, plus the result when nothing was raised. */
  lemma TryBlockShape(funcs: Registry, parsed: Option<Json>)
    ensures Verdict(funcs, parsed).Returned? ==>
      TryBlock(funcs, parsed) == Attempt(Head(EchoedId(parsed)) + [("result", Verdict(funcs, parsed).value)], None)
    ensures Verdict(funcs, parsed).Raised? ==>
      TryBlock(funcs, parsed) == Attempt(Head(EchoedId(parsed)), Some(Verdict(funcs, parsed).exc))
  {
    var id := EchoedId(parsed);
    assert [("jsonrpc", JStr("2.0"))] == Head(None);
    if parsed.Some? && parsed.value.JObj? && HasKey(parsed.value.members, "method") {
      var ms := parsed.value.members;
      if HasKey(ms, "id") {
        PutIdIntoHead(None, Get(ms, "id"));
      }
      if Verdict(funcs, parsed).Returned? {
        PutAfterHead(id, "result", Verdict(funcs, parsed).value);
      }
    }
  }

  /** What the `except` clauses make of the head: the table's error, with
      the id nulled for parse errors and invalid requests. */
  lemma CatchShape(id: Option<Json>, e: Exception)
    ensures JObj(Catch(Head(id), e)) == Encode(Reply(if NullsId(e) then Some(JNull) else id, ErrorFor(e)))
  {
    var err := ErrorFor(e);
    if NullsId(e) {
      PutIdIntoHead(id, JNull);
      PutAfterHead(Some(JNull), "error", ErrorObject(err.code, err.message));
    } else {
      PutAfterHead(id, "error", ErrorObject(err.code, err.message));
    }
  }

  /** `process_request`: the response object for one decoded request. */
  function ProcessRequest(funcs: Registry, parsed: Option<Json>): (r: Json)
    ensures r == Encode(Expected(funcs, parsed))
    ensures IsResponse(r)
    ensures Decode(r) == Some(Expected(funcs, parsed))
  {
    var a := TryBlock(funcs, parsed);
    TryBlockShape(funcs, parsed);
    DecodeEncode(Expected(funcs, parsed));
    if a.raised.Some? then
      CatchShape(EchoedId(parsed), a.raised.value);
      JObj(Catch(a.res, a.raised.value))
    else
      JObj(a.res)
  }

  // ---------------------------------------------------------------------
  // process_msg
  // ---------------------------------------------------------------------

  /** The literal parse-error response of lines 105-109 (members in the
      order written there: `error` before `id`). */
  const ParseErrorResponse: Json :=
    JObj([("jsonrpc", JStr("2.0")), ("error", ErrorObject(-32700, "Parse error")), ("id", JNull)])

  /** Lines 113-117: one response per batch element, in order. Each element
      is re-encoded and decoded again, which gives back the same value. */
  function ProcessBatch(funcs: Registry, items: seq<Json>): (rs: seq<Json>)
    ensures |rs| == |items|
    ensures forall i :: 0 <= i < |items| ==> rs[i] == ProcessRequest(funcs, Some(items[i]))
  {
    if |items| == 0 then []
    else
      var rest := ProcessBatch(funcs, items[1..]);
      assert forall i :: 1 <= i < |items| ==> items[1..][i - 1] == items[i];
      [ProcessRequest(funcs, Some(items[0]))] + rest
  }

  /** `process_msg`: a parse failure gives one error object, a list gives a
      list of responses, anything else is handled as one request. */
  function ProcessMsg(funcs: Registry, parsed: Option<Json>): (r: Json)
    ensures parsed.None? ==> r.JObj? && Decode(r) == Some(Reply(Some(JNull), Failure(-32700, "Parse error")))
    ensures (parsed.Some? && parsed.value.JArr?) <==> r.JArr?
    ensures parsed.Some? && parsed.value.JArr? ==>
      |r.items| == |parsed.value.items| &&
      forall i :: 0 <= i < |r.items| ==> r.items[i] == ProcessRequest(funcs, Some(parsed.value.items[i]))
    ensures parsed.Some? && !parsed.value.JArr? ==> r == ProcessRequest(funcs, parsed)
    ensures !r.JArr? ==> IsResponse(r)
  {
    match parsed
    case None => ParseErrorResponse
    case Some(JArr(items)) => JArr(ProcessBatch(funcs, items))
    case Some(_) => ProcessRequest(funcs, parsed)
  }
}
