/** Properties of the dispatcher, each about every registry and request. */
module RpcProperties {
  import opened Wrappers
  import opened JsonValues
  import opened RpcServer

  /** The reply a request object gets, read back from the response. */
  function ReplyTo(funcs: Registry, ms: Members): Reply {
    Decode(ProcessRequest(funcs, Some(JObj(ms)))).value
  }

  /** A request without `method` is an invalid request, and its id is
      replaced by null even when it carried one. */
  lemma MissingMethodIsInvalidRequest(funcs: Registry, ms: Members)
    requires !HasKey(ms, "method")
    ensures ReplyTo(funcs, ms) == Reply(Some(JNull), Failure(-32600, "Invalid Request"))
  {
  }

  /** A method name that is not registered is reported as -32601, echoing
      the request's id exactly when it had one. */
  lemma UnknownMethodEchoesId(funcs: Registry, ms: Members, name: string)
    requires Find(ms, "method") == Some(JStr(name)) && name !in funcs
    ensures ReplyTo(funcs, ms) == Reply(Find(ms, "id"), Failure(-32601, "Method not found"))
  {
    var parsed := Some(JObj(ms));
    assert Lookup(funcs, Get(ms, "method")) == Raised(KeyError);
    assert Verdict(funcs, parsed) == Raised(KeyError);
    assert EchoedId(parsed) == Find(ms, "id");
  }

  /** A handler with k > 0 parameters is not called unless `params` is
      present and has length k; otherwise the request gets -32602 with its id. */
  lemma ArityMismatchIsInvalidParams(funcs: Registry, ms: Members, name: string)
    requires Find(ms, "method") == Some(JStr(name)) && name in funcs
    requires funcs[name].arity > 0
    requires !HasKey(ms, "params") || Spread(Get(ms, "params")).Raised?
          || |Spread(Get(ms, "params")).value| != funcs[name].arity
    ensures ReplyTo(funcs, ms) == Reply(Find(ms, "id"), Failure(-32602, "Invalid params"))
  {
  }

  /** The argument list a registered handler is called with, when the
      request passes the arity check: nothing for a handler without
      parameters, the spread `params` otherwise. */
  predicate CalledWith(h: Handler, ms: Members, args: seq<Json>) {
    if h.arity == 0 then args == []
    else HasKey(ms, "params") && Spread(Get(ms, "params")) == Returned(args) && |args| == h.arity
  }

  /** A request that passes the checks gets what its handler returns, under
      its own id; an exception from the handler is reported by class:
      JSONDecodeError (a ValueError caught first) as -32700 and ValueError
      as -32600, both with a null id, KeyError as -32601, TypeError as
      -32602, any other `Exception` subclass (arithmetic faults included)
      as -32603. */
  lemma HandlerOutcomeIsReported(funcs: Registry, ms: Members, name: string, args: seq<Json>)
    requires Find(ms, "method") == Some(JStr(name)) && name in funcs
    requires CalledWith(funcs[name], ms, args)
    ensures funcs[name].call(args).Returned? ==>
      ReplyTo(funcs, ms) == Reply(Find(ms, "id"), Success(funcs[name].call(args).value))
    ensures funcs[name].call(args) == Raised(JSONDecodeError) ==>
      ReplyTo(funcs, ms) == Reply(Some(JNull), Failure(-32700, "Parse error"))
    ensures funcs[name].call(args) == Raised(ValueError) ==>
      ReplyTo(funcs, ms) == Reply(Some(JNull), Failure(-32600, "Invalid Request"))
    ensures funcs[name].call(args) == Raised(KeyError) ==>
      ReplyTo(funcs, ms) == Reply(Find(ms, "id"), Failure(-32601, "Method not found"))
    ensures funcs[name].call(args) == Raised(TypeError) ==>
      ReplyTo(funcs, ms) == Reply(Find(ms, "id"), Failure(-32602, "Invalid params"))
    ensures funcs[name].call(args) == Raised(ArithmeticError) || funcs[name].call(args) == Raised(OtherError) ==>
      ReplyTo(funcs, ms) == Reply(Find(ms, "id"), Failure(-32603, "Internal error"))
  {
    HandlerIsCalled(funcs, ms, name, args);
  }

  /** A request that passes the checks leads to the handler's own outcome
      and keeps its id for the response. */
  lemma HandlerIsCalled(funcs: Registry, ms: Members, name: string, args: seq<Json>)
    requires Find(ms, "method") == Some(JStr(name)) && name in funcs
    requires CalledWith(funcs[name], ms, args)
    ensures Verdict(funcs, Some(JObj(ms))) == funcs[name].call(args)
    ensures EchoedId(Some(JObj(ms))) == Find(ms, "id")
  {
    assert Lookup(funcs, Get(ms, "method")) == Returned(funcs[name]);
    assert Invoke(funcs[name], ms) == funcs[name].call(args);
  }

  /** A handler without parameters is called with none: whatever `params`
      the request carries, or none at all, the response is the same. */
  lemma ZeroArityIgnoresParams(funcs: Registry, ms: Members, name: string, params: Json)
    requires Find(ms, "method") == Some(JStr(name)) && name in funcs
    requires funcs[name].arity == 0
    ensures ProcessRequest(funcs, Some(JObj(Put(ms, "params", params)))) == ProcessRequest(funcs, Some(JObj(ms)))
    ensures ReplyTo(funcs, ms).outcome == (match funcs[name].call([])
                                           case Returned(v) => Success(v)
                                           case Raised(e) => ErrorFor(e))
  {
    var ms' := Put(ms, "params", params);
    assert Find(ms', "method") == Find(ms, "method");
    assert Find(ms', "id") == Find(ms, "id");
    assert Verdict(funcs, Some(JObj(ms'))) == Verdict(funcs, Some(JObj(ms)));
    assert EchoedId(Some(JObj(ms'))) == EchoedId(Some(JObj(ms)));
  }

  /** Named parameters are spread positionally: the handler receives the
      keys of the `params` object, in order, as strings. */
  lemma NamedParamsArriveAsKeys(funcs: Registry, ms: Members, name: string, named: Members)
    requires Find(ms, "method") == Some(JStr(name)) && name in funcs
    requires Find(ms, "params") == Some(JObj(named))
    requires funcs[name].arity == |named| > 0
    ensures CalledWith(funcs[name], ms, seq(|named|, i requires 0 <= i < |named| => JStr(named[i].0)))
  {
  }

  /** A request that is a number, boolean or null makes `'method' in msg`
      raise TypeError: the reply is -32602 and has no `id` member at all. */
  lemma ScalarRequestHasNoId(funcs: Registry, msg: Json)
    requires msg.JNum? || msg.JBool? || msg.JNull?
    ensures Decode(ProcessRequest(funcs, Some(msg))) == Some(Reply(None, Failure(-32602, "Invalid params")))
  {
  }

  /** A string request is an invalid request unless "method" occurs in it,
      in which case indexing it by a string raises TypeError. */
  lemma StringRequest(funcs: Registry, s: string)
    ensures !IsSubstring("method", s) ==>
      Decode(ProcessRequest(funcs, Some(JStr(s)))) == Some(Reply(Some(JNull), Failure(-32600, "Invalid Request")))
    ensures IsSubstring("method", s) ==>
      Decode(ProcessRequest(funcs, Some(JStr(s)))) == Some(Reply(None, Failure(-32602, "Invalid params")))
  {
  }

  /** A later registration under the same name replaces the earlier one:
      every request is answered as if only the later one had been made. */
  lemma LastRegistrationWins(funcs: Registry, name: string, h1: Handler, h2: Handler, parsed: Option<Json>)
    ensures ProcessRequest(Register(Register(funcs, name, h1), name, h2), parsed)
         == ProcessRequest(Register(funcs, name, h2), parsed)
  {
    assert Register(Register(funcs, name, h1), name, h2) == Register(funcs, name, h2);
  }

  /** A parse failure is answered with a single -32700 error object whose id
      is null, never with a list; `process_request` would build the same
      reply with its members in another order. */
  lemma ParseErrorIsOneObject(funcs: Registry)
    ensures ProcessMsg(funcs, None).JObj?
    ensures Decode(ProcessMsg(funcs, None)) == Decode(ProcessRequest(funcs, None))
    ensures ProcessMsg(funcs, None) != ProcessRequest(funcs, None)
  {
    assert ProcessMsg(funcs, None).members[1].0 == "error";
    assert ProcessRequest(funcs, None).members[1].0 == "id";
  }
}
