/** The two decisions `handle_client` takes on each processed message: which
    responses go back on the wire, and whether the connection stays open.
    The socket itself is left out: a round starts from the decoded message
    (None when it did not parse) and ends with the frame to send, if any. */
module RpcSession {
  import opened Wrappers
  import opened JsonValues
  import opened RpcServer

  /** `'id' in r` for a response dictionary. */
  predicate HasId(r: Json) {
    r.JObj? && HasKey(r.members, "id")
  }

  /** Lines 136-139: the batch entries that carry an `id` key, in order. */
  function WithId(rs: seq<Json>): (out: seq<Json>)
    ensures |out| <= |rs|
    ensures forall r :: r in out <==> r in rs && HasId(r)
  {
    if |rs| == 0 then []
    else (if HasId(rs[0]) then [rs[0]] else []) + WithId(rs[1..])
  }

  /** Filtering a concatenation filters each part and keeps their order, so
      the kept entries appear in the order the batch gave them. */
  lemma {:induction false} WithIdAppend(a: seq<Json>, b: seq<Json>)
    ensures WithId(a + b) == WithId(a) + WithId(b)
  {
    if |a| == 0 {
      assert a + b == b;
    } else {
      assert (a + b)[0] == a[0];
      assert (a + b)[1..] == a[1..] + b;
      WithIdAppend(a[1..], b);
    }
  }

  /** Lines 135-142: the frame sent back. A batch is always answered with a
      list, even an empty one; a single response only when it has an id. */
  function Outgoing(res: Json): (frame: Option<Json>)
    ensures res.JArr? ==> frame == Some(JArr(WithId(res.items)))
    ensures !res.JArr? ==> (frame.Some? <==> HasId(res))
    ensures !res.JArr? && frame.Some? ==> frame.value == res
  {
    if res.JArr? then Some(JArr(WithId(res.items)))
    else if HasId(res) then Some(res)
    else None
  }

  /** `'result' in r and r['result'] == 'keepAlive'`. */
  predicate AsksKeepAlive(r: Json) {
    r.JObj? && Find(r.members, "result") == Some(JStr("keepAlive"))
  }

  /** Lines 144-154: the keep-alive flag after a round. For a batch the loop
      overwrites the flag once per response, so the last response decides
      and an empty batch leaves the flag as it was; a single response
      decides on its own. */
  method KeepAliveAfter(res: Json, keepAlive: bool) returns (keep: bool)
    ensures res.JArr? && |res.items| == 0 ==> keep == keepAlive
    ensures res.JArr? && |res.items| > 0 ==> keep == AsksKeepAlive(res.items[|res.items| - 1])
    ensures !res.JArr? ==> keep == AsksKeepAlive(res)
  {
    keep := keepAlive;
    if res.JArr? {
      var i := 0;
      while i < |res.items|
        invariant 0 <= i <= |res.items|
        invariant i == 0 ==> keep == keepAlive
        invariant i > 0 ==> keep == AsksKeepAlive(res.items[i - 1])
      {
        var r := res.items[i];
        if r.JObj? && HasKey(r.members, "result") && Get(r.members, "result") == JStr("keepAlive") {
          keep := true;
        } else {
          keep := false;
        }
        i := i + 1;
      }
    } else if res.JObj? && HasKey(res.members, "result") && Get(res.members, "result") == JStr("keepAlive") {
      keep := true;
    } else {
      keep := false;
    }
  }

  /** The decision of a round, given that a round only starts while the flag
      is set. */
  predicate StaysOpen(res: Json) {
    if res.JArr? then |res.items| == 0 || AsksKeepAlive(res.items[|res.items| - 1])
    else AsksKeepAlive(res)
  }

  /** What the peer sends in round `k`: the scripted message, or, once the
      script is exhausted, the empty read of a closed peer, which does not
      parse. */
  function Received(script: seq<Option<Json>>, k: nat): Option<Json> {
    if k < |script| then script[k] else None
  }

  /** The frames a session sends over its first `n` rounds when each
      received message is answered by `respond`. */
  function Sent(respond: Option<Json> -> Json, script: seq<Option<Json>>, n: nat): seq<Json> {
    if n == 0 then []
    else
      var f := Outgoing(respond(Received(script, n - 1)));
      Sent(respond, script, n - 1) + (if f.Some? then [f.value] else [])
  }

  /** The empty read of a closed peer is answered with a parse error that
      carries `id` (so it is sent) and no result (so the session closes). */
  lemma ParseErrorClosesSession(funcs: Registry)
    ensures !StaysOpen(ProcessMsg(funcs, None))
    ensures Outgoing(ProcessMsg(funcs, None)) == Some(ParseErrorResponse)
  {
    var ms := ParseErrorResponse.members;
    assert ms[0].0 == "jsonrpc" && ms[1].0 == "error" && ms[2].0 == "id";
    assert ms[1..][1..][1..] == [];
    assert Find(ms, "result") == None;
    assert Find(ms, "id") == Some(JNull);
  }

  /** The receive-process-respond loop of lines 124-154, for any way
      `respond` of answering a message that closes on an empty read. It runs
      until a round decides to close; every earlier round decided to stay
      open, and the frames sent are those of the rounds run. */
  method HandleClient(respond: Option<Json> -> Json, script: seq<Option<Json>>) returns (sent: seq<Json>, rounds: nat)
    requires !StaysOpen(respond(None))
    ensures 1 <= rounds <= |script| + 1
    ensures forall k :: 0 <= k < rounds - 1 ==> StaysOpen(respond(Received(script, k)))
    ensures !StaysOpen(respond(Received(script, rounds - 1)))
    ensures sent == Sent(respond, script, rounds)
  {
    var keepAlive := true;
    sent := [];
    rounds := 0;
    while keepAlive
      invariant rounds <= |script| + 1
      invariant keepAlive ==> rounds <= |script|
      invariant forall k :: 0 <= k < rounds - 1 ==> StaysOpen(respond(Received(script, k)))
      invariant rounds > 0 ==> (keepAlive <==> StaysOpen(respond(Received(script, rounds - 1))))
      invariant rounds == 0 ==> keepAlive
      invariant sent == Sent(respond, script, rounds)
      decreases |script| + 1 - rounds, keepAlive
    {
      var res := respond(Received(script, rounds));
      var frame := Outgoing(res);
      if frame.Some? {
        sent := sent + [frame.value];
      }
      keepAlive := KeepAliveAfter(res, keepAlive);
      rounds := rounds + 1;
    }
  }

  /** A response object's `id` and keep-alive request, read from its
      decoded reply. */
  lemma {:induction false} ResponseDecisions(r: Json, rep: Reply)
    requires Decode(r) == Some(rep)
    ensures HasId(r) <==> rep.id.Some?
    ensures AsksKeepAlive(r) <==> rep.outcome == Success(JStr("keepAlive"))
  {
  }

  /** A single (non-list) message is answered on the wire exactly when its
      reply carries an id, and keeps the session open exactly when its
      handler returned the string "keepAlive". So a notification whose
      handler returns is processed silently, and one that fails before its
      id is looked at is still answered, with a null id. */
  lemma SingleMessageDecisions(funcs: Registry, msg: Json)
    requires !msg.JArr?
    ensures Outgoing(ProcessMsg(funcs, Some(msg))).Some? <==> Expected(funcs, Some(msg)).id.Some?
    ensures StaysOpen(ProcessMsg(funcs, Some(msg))) <==> Expected(funcs, Some(msg)).outcome == Success(JStr("keepAlive"))
  {
    ResponseDecisions(ProcessMsg(funcs, Some(msg)), Expected(funcs, Some(msg)));
  }

  /** A batch is answered with the list of the replies that carry an id, in
      batch order (an empty list when every entry was a notification), and
      keeps the session open when it is empty or its last entry asked to. */
  lemma BatchDecisions(funcs: Registry, items: seq<Json>)
    ensures Outgoing(ProcessMsg(funcs, Some(JArr(items)))) == Some(JArr(WithId(ProcessBatch(funcs, items))))
    ensures forall r :: r in WithId(ProcessBatch(funcs, items)) <==>
      exists i :: 0 <= i < |items| && r == ProcessRequest(funcs, Some(items[i])) && Expected(funcs, Some(items[i])).id.Some?
    ensures StaysOpen(ProcessMsg(funcs, Some(JArr(items)))) <==>
      |items| == 0 || Expected(funcs, Some(items[|items| - 1])).outcome == Success(JStr("keepAlive"))
  {
    assert ProcessMsg(funcs, Some(JArr(items))) == JArr(ProcessBatch(funcs, items));
    BatchSentEntries(funcs, items);
    BatchKeepAlive(funcs, items);
  }

  /** The entries of a batch reply that go on the wire are the replies to
      the requests whose reply carries an id. */
  lemma BatchSentEntries(funcs: Registry, items: seq<Json>)
    ensures forall r :: r in WithId(ProcessBatch(funcs, items)) <==>
      exists i :: 0 <= i < |items| && r == ProcessRequest(funcs, Some(items[i])) && Expected(funcs, Some(items[i])).id.Some?
  {
    var rs := ProcessBatch(funcs, items);
    forall i | 0 <= i < |items|
      ensures HasId(rs[i]) <==> Expected(funcs, Some(items[i])).id.Some?
    {
      ResponseDecisions(rs[i], Expected(funcs, Some(items[i])));
    }
  }

  /** A batch keeps the session open when it is empty or its last request's
      handler returned "keepAlive". */
  lemma BatchKeepAlive(funcs: Registry, items: seq<Json>)
    ensures StaysOpen(ProcessMsg(funcs, Some(JArr(items)))) <==>
      |items| == 0 || Expected(funcs, Some(items[|items| - 1])).outcome == Success(JStr("keepAlive"))
  {
    var rs := ProcessBatch(funcs, items);
    assert ProcessMsg(funcs, Some(JArr(items))) == JArr(rs);
    if |items| > 0 {
      var n := |items| - 1;
      ResponseDecisions(rs[n], Expected(funcs, Some(items[n])));
    }
  }

  /** The server's way of answering a message. */
  function Processor(funcs: Registry): Option<Json> -> Json {
    m => ProcessMsg(funcs, m)
  }

  /** A session of the server proper: every message goes through
      `process_msg` against the registry. The closing round of a peer that
      hung up is answered with the parse-error object, which is sent. */
  method Serve(funcs: Registry, script: seq<Option<Json>>) returns (sent: seq<Json>, rounds: nat)
    ensures 1 <= rounds <= |script| + 1
    ensures forall k :: 0 <= k < rounds - 1 ==> StaysOpen(ProcessMsg(funcs, Received(script, k)))
    ensures !StaysOpen(ProcessMsg(funcs, Received(script, rounds - 1)))
    ensures sent == Sent(Processor(funcs), script, rounds)
    ensures rounds == |script| + 1 ==> |sent| > 0 && sent[|sent| - 1] == ParseErrorResponse
  {
    var respond := Processor(funcs);
    ParseErrorClosesSession(funcs);
    assert respond(None) == ProcessMsg(funcs, None);
    sent, rounds := HandleClient(respond, script);
    forall k | 0 <= k < rounds - 1
      ensures StaysOpen(ProcessMsg(funcs, Received(script, k)))
    {
      assert respond(Received(script, k)) == ProcessMsg(funcs, Received(script, k));
    }
    assert respond(Received(script, rounds - 1)) == ProcessMsg(funcs, Received(script, rounds - 1));
  }
}
