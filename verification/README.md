# cpd-tp core in Dafny

This project models the computational core of three coursework programs and
proves properties of the model.

- **TP2: a JSON-RPC 2.0 server over TCP.**
  - `register` binds names to functions.
  - `process_request` validates one request, dispatches it and builds the
    response dictionary. Its `except` clauses turn Python exceptions into
    JSON-RPC error codes: -32700, -32600, -32601, -32602 and -32603.
  - `process_msg` handles parse failures and batches.
  - `handle_client` decides, for each message, what goes back on the wire and
    whether the connection stays open.
- **TP1: the search for large primes.**
  - `is_prime` in `main.py` tests by 6k±1 trial division.
  - `jumps_algorithm.py` does trial division against a growing list of primes.
    Its candidates come from the mod-210 wheel, stepped by the table
    `primes_jumps`.
  - `findSequence.py` derives that table from the residues of 7…216 modulo 2,
    3, 5 and 7.
- **TP3:** `get_required_fields`, which collects the required fields of a
  submitted web form.

Modules, one per file:

- `Wrappers` (`wrappers.dfy`): `Option`.
- `JsonValues` (`json.dfy`): decoded JSON values. Objects are ordered member
  lists, as Python dicts are. Also `d.get`, `d[k]` and `d[k] = v`.
- `RpcServer` (`server.dfy`):
  - the registry and the exception classes;
  - `ProcessRequest`, `ProcessBatch` and `ProcessMsg`;
  - a typed `Reply` with `Encode`/`Decode`, which serves as the reference
    for what a response dictionary says.
- `RpcProperties` (`server_props.dfy`): what each kind of request is
  answered with.
- `RpcSession` (`session.dfy`): the send and keep-alive decisions and the
  connection loop.
- `Arith` (`arith.dfy`):
  - divisibility and primality;
  - the integer square root that stands for `int(math.sqrt(n))`;
  - least factors;
  - coprimality to 210.
- `SixK` (`sixk.dfy`): `is_prime` of `main.py`, both as written and corrected
  (see Findings).
- `Wheel` (`wheel.dfy`): the 48-entry jump table and the wheel positions it
  visits.
- `JumpsSearch` (`jumps.dfy`): list-based trial division, and one pass of the
  search loop as a state transition with its invariant.
- `FindSequence` (`find_sequence.dfy`): the residue table, the walk that
  records the jumps, and the proof that the walk prints exactly
  `primes_jumps`.
- `Forms` (`forms.dfy`): `get_required_fields`.

## Model

| member | source | states |
|---|---|---|
| JsonValues.Put | TP2_202100722_202100718/server.py:64 | `d[k] = v`: afterwards `k` finds `v` and every other key finds what it found before. The dict grows by one exactly when `k` was absent. |
| JsonValues.PutFresh | TP2_202100722_202100718/server.py:78 | Assigning a key the dict lacks appends it at the end, which fixes the order of keys in a response. |
| RpcServer.Register | TP2_202100722_202100718/server.py:20-22 | Registering adds the name, binds it to the new function and leaves every other name's function unchanged. |
| RpcServer.DecodeEncode | TP2_202100722_202100718/server.py:51-96 | A response dictionary built from a reply (`jsonrpc`, optional `id`, then `result` or `error`) reads back as that reply. |
| RpcServer.Spread | TP2_202100722_202100718/server.py:75-78 | `len(params)` and `*params`: a list spreads its items, an object and a string spread one argument per key or character, and a number, boolean or null raises TypeError. |
| RpcServer.TryBlockShape | TP2_202100722_202100718/server.py:51-84 | The `try` block leaves `jsonrpc`, the request's `id` when the request is an object carrying both `method` and `id`, and either the `result` or the exception that ended it. |
| RpcServer.CatchShape | TP2_202100722_202100718/server.py:85-96 | Catching an exception after the response head yields the error object of its class, with the id set to null for JSONDecodeError and ValueError and left as it was for every other class. |
| RpcServer.ProcessRequest | TP2_202100722_202100718/server.py:49-98 | The response is always a well-formed response object, and it decodes to the reply the checks (in source order) call for. |
| RpcServer.ProcessBatch | TP2_202100722_202100718/server.py:112-117 | A batch gets one response per element, in element order, each the response to that element alone. |
| RpcServer.ProcessMsg | TP2_202100722_202100718/server.py:100-120 | An unparsable message gets one parse-error object with a null id. A list (and only a list) gets a list of per-element responses. Anything else gets the single-request response. |
| RpcProperties.MissingMethodIsInvalidRequest | TP2_202100722_202100718/server.py:58-59 | An object without `method` is answered -32600 "Invalid Request" with a null id, even when it carried an id. |
| RpcProperties.UnknownMethodEchoesId | TP2_202100722_202100718/server.py:63-68 | An unregistered method name is answered -32601 "Method not found", with the request's id exactly when it had one. |
| RpcProperties.ArityMismatchIsInvalidParams | TP2_202100722_202100718/server.py:71-82 | A function with parameters is not called when `params` is missing, has no length, or has the wrong length. The request is answered -32602 "Invalid params" under its id. |
| RpcProperties.HandlerIsCalled | TP2_202100722_202100718/server.py:71-84 | A request that passes the checks gets exactly the function's outcome on the arguments the request supplies, and keeps its id. |
| RpcProperties.HandlerOutcomeIsReported | TP2_202100722_202100718/server.py:78-96 | A returned value becomes `result` under the request's id. A raised JSONDecodeError becomes -32700 and a ValueError -32600, both with a null id. A KeyError becomes -32601 and a TypeError -32602, both under the request's id. Any other `Exception` subclass (arithmetic faults included) becomes -32603 "Internal error". |
| RpcProperties.ZeroArityIgnoresParams | TP2_202100722_202100718/server.py:73-84 | A function without parameters is called with none: adding or replacing `params` does not change the response. |
| RpcProperties.NamedParamsArriveAsKeys | TP2_202100722_202100718/server.py:75-78 | By-name `params` reach the function positionally as the key strings, in insertion order. |
| RpcProperties.ScalarRequestHasNoId | TP2_202100722_202100718/server.py:58 | A number, boolean or null request fails `'method' in msg` with TypeError. The answer is -32602 with no `id` key, so it is never sent. |
| RpcProperties.StringRequest | TP2_202100722_202100718/server.py:58-60 | A string request is -32600 with a null id unless it contains "method" as a substring. If it does, indexing it raises TypeError and the answer is -32602 without `id`. |
| RpcProperties.LastRegistrationWins | TP2_202100722_202100718/server.py:20-22 | Registering a name twice behaves as if only the second registration had happened. |
| RpcProperties.ParseErrorIsOneObject | TP2_202100722_202100718/server.py:104-109 | The message-level parse error says the same as the per-request one: it is the same dictionary with its keys in a different order, so it serialises differently. |
| RpcSession.WithId | TP2_202100722_202100718/server.py:136-139 | The batch frame keeps exactly the responses that carry `id`, in order. |
| RpcSession.WithIdAppend | TP2_202100722_202100718/server.py:137-139 | Filtering a concatenation filters each part. |
| RpcSession.Outgoing | TP2_202100722_202100718/server.py:135-142 | A list response is always sent, filtered to the entries with `id`, even when nothing is left. A single response is sent unchanged exactly when it has `id`. |
| RpcSession.KeepAliveAfter | TP2_202100722_202100718/server.py:144-154 | For a list, the last entry alone decides whether to stay open, and an empty list leaves the flag as it was. For a single response, it stays open exactly when `result` is "keepAlive". |
| RpcSession.ResponseDecisions | TP2_202100722_202100718/server.py:138-151 | For a decoded response, `'id' in r` means the reply has an id, and the keep-alive test means the outcome is the result "keepAlive". |
| RpcSession.SingleMessageDecisions | TP2_202100722_202100718/server.py:119-154 | A single request is sent back exactly when its reply has an id. The session stays open exactly when the reply is the result "keepAlive". |
| RpcSession.BatchDecisions | TP2_202100722_202100718/server.py:112-154 | A batch sends one list of the responses to the elements whose replies have ids. It stays open exactly when the batch is empty or its last element's reply is "keepAlive". |
| RpcSession.BatchSentEntries | TP2_202100722_202100718/server.py:136-140 | A response is in the batch frame exactly when it answers some element whose reply has an id. |
| RpcSession.BatchKeepAlive | TP2_202100722_202100718/server.py:145-150 | After a batch the session stays open exactly when the batch is empty or its last reply is "keepAlive". |
| RpcSession.ParseErrorClosesSession | TP2_202100722_202100718/server.py:104-109 | An unparsable message (an empty read from a closed peer included) is answered with the parse error, which is sent and closes the session. |
| RpcSession.HandleClient | TP2_202100722_202100718/server.py:122-154 | The session runs as long as every processed message asks to stay open and ends at the first that does not. What it sends is exactly the frames of those rounds, in order. |
| RpcSession.Serve | TP2_202100722_202100718/server.py:122-154 | The connection loop with the real dispatcher. If the client's messages run out, the next, empty read ends the session after sending a parse error. |
| Arith.FloorSqrt | TP1_202100722_202100718/main.py:19 | `int(math.sqrt(n))` is the largest `r` with `r*r <= n`. |
| Arith.BelowRoot | TP1_202100722_202100718/jumps_algorithm.py:6-8 | `d <= floor(sqrt(n))` exactly when `d*d <= n`. |
| Arith.LeastFactorFacts | TP1_202100722_202100718/jumps_algorithm.py:6-12 | The least factor of `n >= 2` is prime, and for a composite it is at most its square root. |
| Arith.CompositeHasSmallPrimeFactor | TP1_202100722_202100718/jumps_algorithm.py:6-12 | A composite has a prime divisor no larger than `floor(sqrt(n))`, which is the reason trial division may stop there. |
| Arith.WheelPeriodic | TP1_202100722_202100718/jumps_algorithm.py:36-37 | Being coprime to 2, 3, 5 and 7 repeats every 210. |
| Arith.OffWheelComposite | TP1_202100722_202100718/jumps_algorithm.py:16 | A number above 7 divisible by 2, 3, 5 or 7 is not prime, so skipping it loses no prime. |
| Arith.PrimeOnWheel | TP1_202100722_202100718/jumps_algorithm.py:16 | Every prime above 7 is coprime to 210. |
| SixK.IsPrimeAsWritten | TP1_202100722_202100718/main.py:12-23 | The test as written: at most 1 is not prime, 2 and 3 are prime, and a larger multiple of 2 or 3 is not prime. |
| SixK.IsPrimeCorrected | TP1_202100722_202100718/main.py:12-23 | The same early answers with the loop bounded by `i*i <= n`. |
| SixK.ScanSound | TP1_202100722_202100718/main.py:18-22 | With any bound up to `n`, a False from the loop names a proper divisor. |
| SixK.NextCandidates | TP1_202100722_202100718/main.py:20-22 | A divisor of the form 6k±1 that the current pair misses lies at or beyond the next pair. |
| SixK.ScanFinds | TP1_202100722_202100718/main.py:18-22 | The loop finds every divisor of the form `i+6j` or `i+6j+2` whose square is within the bound. |
| SixK.CoprimeToSix | TP1_202100722_202100718/main.py:16-18 | A number coprime to 6 is 5 or 7 modulo 6, counted from 5, so the 6k±1 pairs cover it. |
| SixK.EarlyFalseIsSound | TP1_202100722_202100718/main.py:12-17 | A False before the loop is right. |
| SixK.BoundedScanSound | TP1_202100722_202100718/main.py:16-23 | Past the early checks, the test with any bound up to `n` says False only for a non-prime. |
| SixK.AsWrittenFalseIsSound | TP1_202100722_202100718/main.py:6-23 | A False from the test as written is always right. |
| SixK.ScanFindsComposite | TP1_202100722_202100718/main.py:18-22 | For every composite coprime to 6, the loop up to `n` finds a divisor. |
| SixK.CorrectedIsExact | TP1_202100722_202100718/main.py:7-10 | The corrected test says True exactly for the primes, which is the docstring's promise. |
| SixK.AsWrittenAcceptsTwentyFive | TP1_202100722_202100718/main.py:19 | The test as written says 25 is prime. |
| Wheel.JumpLands | TP1_202100722_202100718/jumps_algorithm.py:20-21 | Each jump leads from one wheel position to the next, and the last one leads to 11 + 210. |
| Wheel.SpokesAreRunningSums | TP1_202100722_202100718/jumps_algorithm.py:20-27 | Starting at 11, the position after `k` jumps is 11 plus the sum of the first `k` entries. |
| Wheel.JumpsTurnOnce | TP1_202100722_202100718/jumps_algorithm.py:20-21 | The table has 48 entries summing to 210, one turn of the wheel. |
| Wheel.JumpsPositive | TP1_202100722_202100718/jumps_algorithm.py:20-21 | Every jump moves forward by at least 2. |
| Wheel.SpokeOnWheel | TP1_202100722_202100718/jumps_algorithm.py:20-27 | Every position of the first turn lies between 11 and 211 and is coprime to 210. |
| Wheel.JumpSkipsOffWheel | TP1_202100722_202100718/jumps_algorithm.py:20-21 | Every number a jump passes over is divisible by 2, 3, 5 or 7. |
| Wheel.ShiftedGap | TP1_202100722_202100718/jumps_algorithm.py:36-37 | A gap between two numbers coprime to 210 repeats unchanged every 210. |
| Wheel.WheelTurns | TP1_202100722_202100718/jumps_algorithm.py:36-37 | On any turn, a jump from a position lands on the wheel and passes over only numbers off it. |
| JumpsSearch.TrialDivision | TP1_202100722_202100718/jumps_algorithm.py:7-12 | The loop over the list answers False only by naming a list element, at most `stop`, that divides `n`. |
| JumpsSearch.ListSaysPrime | TP1_202100722_202100718/jumps_algorithm.py:5-12 | `is_prime(n)` answers False only by naming a list element whose square is at most `n` and which divides `n`. On an increasing list it answers True exactly when no such element exists. |
| JumpsSearch.TrialFindsWitness | TP1_202100722_202100718/jumps_algorithm.py:7-11 | In an increasing list, any element at most `stop` that divides `n` makes the answer False. |
| JumpsSearch.TrialDivisionExact | TP1_202100722_202100718/jumps_algorithm.py:7-12 | For an increasing list, False holds exactly when some element at most `stop` divides `n`. |
| JumpsSearch.ListFalseIsSound | TP1_202100722_202100718/jumps_algorithm.py:5-12 | With list elements above 1, a False means `n` is not prime. |
| JumpsSearch.ListTrueIsSound | TP1_202100722_202100718/jumps_algorithm.py:5-12 | When the list holds every prime up to `floor(sqrt(n))`, a True means `n` is prime. |
| JumpsSearch.Step | TP1_202100722_202100718/jumps_algorithm.py:32-37 | One pass moves the candidate forward, keeps the jump index in range and only appends to the list. |
| JumpsSearch.StartValid | TP1_202100722_202100718/jumps_algorithm.py:16-27 | The starting state (list 2, 3, 5, 7; candidate and `max_prime` 11; jump 0) meets the loop invariant. |
| JumpsSearch.CandidateOnWheel | TP1_202100722_202100718/jumps_algorithm.py:27-37 | Every candidate is coprime to 210. |
| JumpsSearch.StepTestIsExact | TP1_202100722_202100718/jumps_algorithm.py:32 | Under the invariant, `is_prime(i)` is True exactly when `i` is prime. |
| JumpsSearch.StepAppendsPrimes | TP1_202100722_202100718/jumps_algorithm.py:32-34 | A pass appends the candidate, and updates `max_prime` to it, exactly when it is prime. |
| JumpsSearch.NoPrimeSkipped | TP1_202100722_202100718/jumps_algorithm.py:36 | No number that a jump passes over is prime. |
| JumpsSearch.WheelAdvance | TP1_202100722_202100718/jumps_algorithm.py:36-37 | The jump and the index update keep the candidate at the selected position, a whole number of turns on. |
| JumpsSearch.StepFollowsWheel | TP1_202100722_202100718/jumps_algorithm.py:36-37 | After a pass the candidate is again the selected wheel position, a whole number of turns on. |
| JumpsSearch.StepKeepsList | TP1_202100722_202100718/jumps_algorithm.py:32-37 | After a pass the list is still increasing and holds only primes below the candidate. `max_prime` is still its last entry (or 11) and at most the candidate. |
| JumpsSearch.StepKeepsAllPrimes | TP1_202100722_202100718/jumps_algorithm.py:32-37 | After a pass the list still holds every prime below the candidate. |
| JumpsSearch.StepPreservesValid | TP1_202100722_202100718/jumps_algorithm.py:31-37 | A pass preserves the whole loop invariant. |
| JumpsSearch.MaxPrimeMonotone | TP1_202100722_202100718/jumps_algorithm.py:33-36 | `max_prime` never decreases and never passes the candidate, which strictly increases. |
| JumpsSearch.Run | TP1_202100722_202100718/jumps_algorithm.py:27-37 | Every number of passes from the start leaves a state meeting the invariant. |
| JumpsSearch.RunFindsAllPrimes | TP1_202100722_202100718/jumps_algorithm.py:27-37 | After any number of passes, the list is exactly the primes below the candidate, in increasing order. The candidate is coprime to 210 and `max_prime` is prime. |
| FindSequence.FoldIsProduct | TP1_202100722_202100718/findSequence.py:5 | The left fold of `*` from a seed is the seed times the product of the list. |
| FindSequence.IterationsIsProduct | TP1_202100722_202100718/findSequence.py:4-13 | `numeroIteracoes` is the product of its list, and it is 210 for 2, 3, 5, 7. |
| FindSequence.PyMod | TP1_202100722_202100718/findSequence.py:8 | Python's `%` result takes the divisor's sign, is smaller in size than the divisor, and differs from the dividend by a multiple of it. |
| FindSequence.Residues | TP1_202100722_202100718/findSequence.py:7-8 | One residue per list entry, and for a positive entry it is its remainder in `[0, p)`. |
| FindSequence.ZeroResidueIffDivides | TP1_202100722_202100718/findSequence.py:20-26 | `0 in arrayResto(ps, i)` exactly when some entry divides `i`. |
| FindSequence.DistFrom | TP1_202100722_202100718/findSequence.py:24-27 | Counting up from `d`, the search stops at the first free row ahead, which the search always reaches. |
| FindSequence.DistIsLeast | TP1_202100722_202100718/findSequence.py:24-27 | The distance to the next free row is the least positive step that lands on one. |
| FindSequence.FirstFreeRow | TP1_202100722_202100718/findSequence.py:18-21 | The first loop stops at the first row without a zero residue. |
| FindSequence.NextJump | TP1_202100722_202100718/findSequence.py:24-27 | The inner loop returns the least positive step, cyclically, to a free row. |
| FindSequence.FillWithinTurn | TP1_202100722_202100718/findSequence.py:29-30 | Recording a jump that stays within the table fills that row and leaves the rows passed over at zero. |
| FindSequence.WrapLandsOnStart | TP1_202100722_202100718/findSequence.py:23-30 | The jump that wraps round lands on the first free row, which is already filled, so the outer loop ends. |
| FindSequence.FillWrapsRound | TP1_202100722_202100718/findSequence.py:29-30 | After the wrapping jump every row is recorded. |
| FindSequence.FillJumps | TP1_202100722_202100718/findSequence.py:23-30 | The outer loop ends with `saltos[r]` equal to the distance to the next free row for each free row `r`, and 0 for every other row. |
| FindSequence.NonZeroKeepsNonZeros | TP1_202100722_202100718/findSequence.py:35 | The filter keeps exactly the values that are not zero. |
| FindSequence.NonZeroAppend | TP1_202100722_202100718/findSequence.py:35 | The filter distributes over concatenation. |
| FindSequence.NonZeroOfZeros | TP1_202100722_202100718/findSequence.py:35 | Filtering all zeros leaves nothing. |
| FindSequence.WheelTable | TP1_202100722_202100718/findSequence.py:11-15 | For 2, 3, 5, 7 the table has 210 rows, row `j` holding the residues of `7 + j`. A row is free exactly when `7 + j` is coprime to 210. |
| FindSequence.TableIsWheel | TP1_202100722_202100718/findSequence.py:11-15 | The table for 2, 3, 5, 7 is a wheel table. |
| FindSequence.FirstWheelRow | TP1_202100722_202100718/findSequence.py:18-21 | Rows 0 to 3 (numbers 7 to 10) are not free and row 4 (11) is, so the walk starts at 11. |
| FindSequence.WheelIsOneTurn | TP1_202100722_202100718/jumps_algorithm.py:20-21 | The positions and jumps form one turn: from 11 back to 11 + 210, every position on the wheel, every skipped number off it. |
| FindSequence.PositionRow | TP1_202100722_202100718/findSequence.py:24-29 | The row of each wheel position is free, and the distance recorded there is that position's jump. |
| FindSequence.BelowElevenOffWheel | TP1_202100722_202100718/findSequence.py:15-21 | 7, 8, 9 and 10 are all divisible by 2, 3, 5 or 7. |
| FindSequence.RecordIsSparse | TP1_202100722_202100718/findSequence.py:23-30 | The recorded `saltos` holds each jump at its position's row and zero everywhere else. |
| FindSequence.PassedRowsVanish | TP1_202100722_202100718/findSequence.py:26-29 | The rows a jump passes over are zero in `saltos`. |
| FindSequence.RecordPrefix | TP1_202100722_202100718/findSequence.py:35 | Up to the row of position `k`, the filtered `saltos` is the first `k + 1` jumps. |
| FindSequence.RecordFilters | TP1_202100722_202100718/findSequence.py:35 | A sparse record filters to the jump list. |
| FindSequence.RecordFiltersToJumps | TP1_202100722_202100718/findSequence.py:35 | Filtering the recorded `saltos` gives exactly `primes_jumps`. |
| FindSequence.FindJumpTable | TP1_202100722_202100718/findSequence.py:11-35 | The script starts at row 4 (the number 11) and prints exactly the table of jumps_algorithm.py: 48 jumps summing to 210. |
| Forms.MissingFields | TP3_202100722_202100718/utils.py:38 | A field is listed as missing exactly when it is required and its value is absent or empty. |
| Forms.GetRequiredFields | TP3_202100722_202100718/utils.py:31-43 | The result is None exactly when some required field is absent or empty. Otherwise it gives one non-empty value per required field, in order, each the form's value for that field. |
| Forms.NoRequiredFields | TP3_202100722_202100718/utils.py:38-43 | With no required fields the result is an empty list, not None. |
| Forms.MissingIgnoresOtherFields | TP3_202100722_202100718/utils.py:38 | The missing fields depend only on the values of the required fields. |
| Forms.OtherFieldsIgnored | TP3_202100722_202100718/utils.py:38-43 | Fields that are not required never change the result. |
| Forms.FilledFormRoundTrip | TP3_202100722_202100718/utils.py:38-43 | Submitting distinct required fields with non-empty values returns those values, in order. |
| Forms.EmptiedFieldRejected | TP3_202100722_202100718/utils.py:38-40 | Emptying any one required field makes the result None. |

## Left out

- Sockets: `start`, `stop`, `recv`, `send` and the accept loop. A session is
  the sequence of messages the client sends. Once they run out, reads are
  empty.
- JSON text: `json.loads` and `json.dumps` are not modelled.
  - A message arrives already decoded, or as None when decoding raised.
  - Each batch element reaches `process_request` as the value itself. This
    relies on `json.loads(json.dumps(m))` being `m`.
  - Floating-point numbers, duplicate object keys and the byte encoding are
    out.
  - Sent frames are the response values, not their text.
- `inspect.signature` and the registered functions of `functions.py` are not
  part of this model. A registered function is its parameter count plus an
  arbitrary map from argument lists to a returned value or a raised exception
  class. Default and variadic parameters are not distinguished.
- The printing in `start` and `handle_client`, and `client.py`, are not
  modelled.
- RpcProperties.HandlerOutcomeIsReported: only `Exception` subclasses are
  modelled. The clause on line 95 of server.py catches `(ArithmeticError,
  Exception)`, so a handler raising SystemExit or KeyboardInterrupt escapes
  `process_request` and `handle_client`, and `start` (which catches only
  ConnectionAbortedError and OSError) stops the server. A result that
  `json.dumps` cannot serialise raises at line 140 or 142 of server.py, and
  that escapes too. Neither case is modelled.
- RpcSession.HandleClient: generic over the message processor. It requires
  the processor to close the session on an empty read, because otherwise the
  loop need not end. RpcSession.Serve discharges this for the real processor.
- RpcServer.Spread: for an object or a string, the contract gives only the
  number of arguments. RpcProperties.NamedParamsArriveAsKeys gives the content
  for objects. For strings (one-character strings) the content is stated
  nowhere.
- The wall-clock loop of `find_max_prime` in jumps_algorithm.py (lines 29-31)
  is out. `Run(n)` is the state after `n` passes, for every `n`. The final
  `print` is out.
- main.py's `find_max_prime`, its multiprocessing workers and its shared
  counter are out. Only `is_prime` is modelled.
- `math.sqrt` is floating point. `math.floor(math.sqrt(n))` and
  `int(math.sqrt(n))` are modelled as the exact integer square root. Rounding
  of very large floats is not modelled.
- JumpsSearch.ListSaysPrime: requires `n >= 0`, because `math.sqrt` raises
  ValueError on a negative number. The search only asks about candidates from
  11 upward.
- FindSequence.Residues: its contract bounds the residue only for positive
  entries. PyMod states the negative-divisor case. The script's list is
  2, 3, 5, 7.
- FindSequence.Table: requires a non-empty list with no zero entry, where
  Python would raise IndexError: on line 15 for an empty list, and on line 20
  when an entry is zero, because `numeroIteracoes` is then 0, the range on
  line 15 is empty and no `%` ever runs.
- FindSequence.FirstFreeRow: requires a free row to exist, where Python would
  run off the end with IndexError. For 2, 3, 5, 7 one always exists.
- The modulus on line 30 of findSequence.py is `% it` and on line 26 it is
  `% len(restos)`. The model uses the table length for both, which equals
  `it` for any list whose product is non-negative.
- The `print` calls and commented-out code of findSequence.py are out.
- TP3: only `get_required_fields` is modelled.
  - The Flask routes, the database models and the other helpers of
    `utils.py` are not part of this model.
  - A form is a map from field name to text. For a field submitted several
    times this is the first value `request.form.get` returns.

## Findings

| source | as written | input that shows it | evidently intended | confidence | as-written member | corrected member |
|---|---|---|---|---|---|---|
| TP1_202100722_202100718/main.py:19 | `while i * i <= int(math.sqrt(n))` bounds `i` by roughly the square root of `int(math.sqrt(n))`, so the loop misses composites whose least prime factor exceeds that bound | `n = 25`: `int(math.sqrt(25))` is 5 and `5 * 5 > 5`, so the loop never runs and `is_prime(25)` returns True (likewise 35, 49, 55, …) | `while i * i <= n`, which makes the docstring's "True if the number is prime" hold | not executed | SixK.AsWrittenAcceptsTwentyFive | SixK.CorrectedIsExact |
