/**
  The enrichment step of processor/processor.go: ProcessJobDescription's
  bounded retry loop around one API call, and ProcessJob, which feeds its
  reply to reThink. The network is an oracle: one abstract outcome per
  attempt the loop may make.
 */
module Processor {
  import opened Wrappers
  import opened Api
  import Decimal
  import Think

  const MaxRetries: nat := 3
  const StatusOK: int := 200
  const StatusTooManyRequests: int := 429

  /**
    What one call of makeGroqApiCall yields. A response carries its status,
    the `retry-after` header as Header.Get returns it (empty when missing),
    what the JSON decoder makes of the body (None: a decoding error), what
    io.ReadAll makes of it (None: a read error), and whether the 30-second
    deadline fires during a rate-limit wait that follows it.
   */
  datatype Outcome =
    | TransportFailure(cause: string)
    | Response(status: int, retryAfter: string, decoded: Option<ApiResponse>, read: Option<string>, deadlineFires: bool)

  /** The errors ProcessJobDescription and ProcessJob return, by the wrapping that produces them. */
  datatype Error =
    | PayloadFailed(payload: PayloadError)           // failed to create request payload
    | ApiCallFailed(cause: string)                   // failed to make API call
    | DecodeFailed(decode: DecodeError)              // Failed to decode API response
    | RetryHeaderInvalid(header: string)             // failed to convert retry time header
    | ReadFailed                                     // failed to read response
    | UnexpectedStatus(code: int, body: string)      // unexpected status code
    | DeadlineExceeded                               // ctx.Err() once the deadline fires
    | RetriesExceeded(retries: nat, last: Option<Error>)  // max retries exceeded, wrapping lastErr
    | ExtractFailed(message: string)                 // reThink's error

  /**
    The loop's reaction to one outcome: return at once, record an error in
    lastErr and go on, or wait the given seconds (unless the deadline
    expires during the wait) and go on without touching lastErr.
   */
  datatype Reaction =
    | Return(content: string)
    | Record(err: Error)
    | Wait(seconds: int, expired: bool)

  /** A 200 response whose body decodes to an envelope with at least one choice. */
  predicate GoodResponse(o: Outcome)
  {
    o.Response? && o.status == StatusOK && DecodeApiResponse(o.decoded).Success?
  }

  /** A 429 response whose `retry-after` header parses as an integer. */
  predicate RateLimited(o: Outcome)
  {
    o.Response? && o.status == StatusTooManyRequests && Decimal.Atoi(o.retryAfter).Some?
  }

  /** The classification of one attempt's outcome, branch by branch as the loop body tests it. */
  function React(o: Outcome): (r: Reaction)
    ensures r.Return? ==> o.Response? && o.status == StatusOK
    ensures r.Wait? ==> o.Response? && o.status == StatusTooManyRequests && r.expired == o.deadlineFires
  {
    match o
    case TransportFailure(cause) => Record(ApiCallFailed(cause))
    case Response(status, retryAfter, decoded, read, deadlineFires) =>
      if status == StatusOK then
        match DecodeApiResponse(decoded)
        case Success(content) => Return(content)
        case Failure(e) => Record(DecodeFailed(e))
      else if status == StatusTooManyRequests then
        match Decimal.Atoi(retryAfter)
        case None => Record(RetryHeaderInvalid(retryAfter))
        case Some(n) => Wait(n, deadlineFires)
      else if read.None? then Record(ReadFailed)
      else Record(UnexpectedStatus(status, read.value))
  }

  /**
    The error taxonomy. Only a good 200 response returns, with its first
    choice's content; only a 429 with a parseable `retry-after` waits, for
    exactly that many seconds, and the deadline cuts the wait short exactly
    when it fires; everything else records its error: a transport failure,
    a 200 whose body does not decode or has no choices, a 429 whose header
    does not parse, and any other status (with the body, or a read error).
   */
  lemma ReactClassifies(o: Outcome)
    ensures React(o).Return? <==> GoodResponse(o)
    ensures React(o).Return? ==> React(o).content == o.decoded.value.choices[0].message.content
    ensures React(o).Wait? <==> RateLimited(o)
    ensures React(o).Wait? ==> React(o).seconds == Decimal.Atoi(o.retryAfter).value && React(o).expired == o.deadlineFires
    ensures React(o).Record? <==> !GoodResponse(o) && !RateLimited(o)
    ensures o.TransportFailure? ==> React(o) == Record(ApiCallFailed(o.cause))
    ensures o.Response? && o.status == StatusOK && !GoodResponse(o) ==> React(o) == Record(DecodeFailed(DecodeApiResponse(o.decoded).error))
    ensures o.Response? && o.status == StatusTooManyRequests && !RateLimited(o) ==> React(o) == Record(RetryHeaderInvalid(o.retryAfter))
    ensures o.Response? && o.status != StatusOK && o.status != StatusTooManyRequests ==>
      React(o) == Record(if o.read.None? then ReadFailed else UnexpectedStatus(o.status, o.read.value))
  {
  }

  /** The classification of each outcome, attempt by attempt. */
  function Reactions(os: seq<Outcome>): (rs: seq<Reaction>)
    ensures |rs| == |os|
  {
    if os == [] then [] else [React(os[0])] + Reactions(os[1..])
  }

  /** Reaction i is outcome i's classification. */
  lemma {:induction false} ReactionAt(os: seq<Outcome>, i: nat)
    requires i < |os|
    ensures Reactions(os)[i] == React(os[i])
  {
    if i > 0 {
      ReactionAt(os[1..], i - 1);
    }
  }

  /** How one logical call ends: its result, the API calls made, and the waits started, in seconds. */
  datatype Run = Run(result: Result<string, Error>, calls: nat, waits: seq<int>)

  /** The reaction stops the loop: a good 200 response, or a rate-limit wait the deadline cuts short. */
  predicate Ends(r: Reaction)
  {
    r.Return? || (r.Wait? && r.expired)
  }

  /** What the call returns when it stops at reaction `r`. */
  function EndResult(r: Reaction): Result<string, Error>
    requires Ends(r)
  {
    if r.Return? then Success(r.content) else Failure(DeadlineExceeded)
  }

  /** The index of the first reaction that stops the loop, or |rs| when none does. */
  function FirstEnd(rs: seq<Reaction>): (k: nat)
    ensures k <= |rs|
    ensures forall i :: 0 <= i < k ==> !Ends(rs[i])
    ensures k < |rs| ==> Ends(rs[k])
  {
    if rs == [] then 0
    else if Ends(rs[0]) then 0
    else 1 + FirstEnd(rs[1..])
  }

  /** The last error any of `rs` records, or None (Go's nil) when none records one. */
  function LastRecorded(rs: seq<Reaction>): Option<Error>
  {
    if rs == [] then None
    else if rs[|rs| - 1].Record? then Some(rs[|rs| - 1].err)
    else LastRecorded(rs[..|rs| - 1])
  }

  /** The seconds the reaction makes the loop wait, as a list of at most one. */
  function WaitOf(r: Reaction): seq<int>
  {
    if r.Wait? then [r.seconds] else []
  }

  /** The seconds of every wait the reactions `rs` start, in order. */
  function WaitsOf(rs: seq<Reaction>): (w: seq<int>)
    ensures |w| <= |rs|
  {
    if rs == [] then [] else WaitsOf(rs[..|rs| - 1]) + WaitOf(rs[|rs| - 1])
  }

  /** Extending the attempts made by one: its error, if any, becomes the last, and its wait comes last. */
  lemma PrefixStep(rs: seq<Reaction>, k: nat)
    requires k < |rs|
    ensures LastRecorded(rs[..k + 1]) == if rs[k].Record? then Some(rs[k].err) else LastRecorded(rs[..k])
    ensures WaitsOf(rs[..k + 1]) == WaitsOf(rs[..k]) + WaitOf(rs[k])
  {
    assert rs[..k + 1][..k] == rs[..k];
  }

  /** FirstEnd is the one index before which nothing stops the loop and at which something does. */
  lemma FirstEndIs(rs: seq<Reaction>, k: nat)
    requires k <= |rs| && forall i :: 0 <= i < k ==> !Ends(rs[i])
    requires k < |rs| ==> Ends(rs[k])
    ensures FirstEnd(rs) == k
  {
  }

  /**
    The loop's state after its first n attempts, none of which stopped it:
    lastErr is the last error they recorded and waits lists their waits.
   */
  predicate Prefix(rs: seq<Reaction>, n: nat, lastErr: Option<Error>, waits: seq<int>)
  {
    n <= |rs| && (forall i :: 0 <= i < n ==> !Ends(rs[i])) &&
    lastErr == LastRecorded(rs[..n]) && waits == WaitsOf(rs[..n])
  }

  /** Before any attempt: nil lastErr and no waits. */
  lemma PrefixStart(rs: seq<Reaction>)
    ensures Prefix(rs, 0, None, [])
  {
    assert rs[..0] == [];
  }

  /** An attempt that records an error makes it the last one. */
  lemma PrefixRecord(rs: seq<Reaction>, k: nat, lastErr: Option<Error>, waits: seq<int>)
    requires Prefix(rs, k, lastErr, waits) && k < |rs| && rs[k].Record?
    ensures Prefix(rs, k + 1, Some(rs[k].err), waits)
  {
    PrefixStep(rs, k);
  }

  /** An attempt that waits its full delay adds that wait and leaves lastErr alone. */
  lemma PrefixWait(rs: seq<Reaction>, k: nat, lastErr: Option<Error>, waits: seq<int>)
    requires Prefix(rs, k, lastErr, waits) && k < |rs| && rs[k].Wait? && !rs[k].expired
    ensures Prefix(rs, k + 1, lastErr, waits + [rs[k].seconds])
  {
    PrefixStep(rs, k);
  }

  /** A run that stops at attempt k: k + 1 calls, attempt k's result, and the waits up to it. */
  lemma RunStopsAt(os: seq<Outcome>, k: nat, lastErr: Option<Error>, waits: seq<int>)
    requires |os| == MaxRetries && k < MaxRetries
    requires Prefix(Reactions(os), k, lastErr, waits) && Ends(Reactions(os)[k])
    ensures var r := Reactions(os)[k];
      DescriptionRun(true, os) == Run(EndResult(r), k + 1, if r.Wait? then waits + [r.seconds] else waits)
  {
    var rs := Reactions(os);
    FirstEndIs(rs, k);
    PrefixStep(rs, k);
  }

  /** A run none of whose attempts stops: MaxRetries calls, and the last recorded error wrapped. */
  lemma RunExhausts(os: seq<Outcome>, lastErr: Option<Error>, waits: seq<int>)
    requires |os| == MaxRetries && Prefix(Reactions(os), MaxRetries, lastErr, waits)
    ensures DescriptionRun(true, os) == Run(Failure(RetriesExceeded(MaxRetries, lastErr)), MaxRetries, waits)
  {
    var rs := Reactions(os);
    FirstEndIs(rs, MaxRetries);
    assert rs[..MaxRetries] == rs;
    assert lastErr == LastRecorded(rs) && waits == WaitsOf(rs);
    assert DescriptionRun(true, os) == Run(Failure(RetriesExceeded(MaxRetries, LastRecorded(rs))), |rs|, WaitsOf(rs));
  }

  /**
    ProcessJobDescription's outcome, in closed form. A payload that fails
    to serialize ends the call before any API call. Otherwise the call stops
    at the first attempt that gets a good 200 response or whose rate-limit
    wait the deadline cuts short, after that many calls, with that attempt's
    result; when no attempt stops it, it makes MaxRetries calls and fails with
    a retries-exceeded error wrapping the last error any attempt recorded
    (None, Go's nil, when none recorded one). Either way the waits started are
    those of the attempts made.
   */
  function DescriptionRun(marshalOk: bool, os: seq<Outcome>): (r: Run)
    requires |os| == MaxRetries
    ensures r.calls <= MaxRetries && |r.waits| <= r.calls
    ensures r.calls == 0 <==> !marshalOk
    ensures r.result.Failure? ==>
      (r.result.error.PayloadFailed? <==> !marshalOk) &&
      (marshalOk ==> r.result.error.DeadlineExceeded? || r.result.error.RetriesExceeded?)
  {
    if !marshalOk then Run(Failure(PayloadFailed(MarshalFailed)), 0, [])
    else
      var rs := Reactions(os);
      var k := FirstEnd(rs);
      if k < |rs| then Run(EndResult(rs[k]), k + 1, WaitsOf(rs[..k + 1]))
      else
        assert rs[..|rs|] == rs;
        Run(Failure(RetriesExceeded(MaxRetries, LastRecorded(rs))), |rs|, WaitsOf(rs))
  }

  /**
    ProcessJobDescription. `outcomes[i]` is what the API call of attempt i
    yields; `sent` lists the request each call carries. The method is the
    loop as written, and its result, call count and waits are those of
    DescriptionRun.
   */
  method ProcessJobDescription(text: string, model: string, prompt: string, marshalOk: bool, outcomes: seq<Outcome>)
    returns (result: Result<string, Error>, calls: nat, waits: seq<int>, sent: seq<Request>)
    requires |outcomes| == MaxRetries
    ensures Run(result, calls, waits) == DescriptionRun(marshalOk, outcomes)
    ensures |sent| == calls
    ensures forall i :: 0 <= i < |sent| ==> sent[i] == Request([Message("system", prompt), Message("user", text)], model)
  {
    var payload := CreateRequestPayload(model, prompt, text, marshalOk);
    if payload.Failure? {
      return Failure(PayloadFailed(payload.error)), 0, [], [];
    }
    var request := payload.value;
    ghost var rs := Reactions(outcomes);
    var lastErr: Option<Error> := None;
    calls, waits, sent := 0, [], [];
    PrefixStart(rs);
    for attempt := 0 to MaxRetries
      invariant calls == attempt && |sent| == attempt
      invariant forall i :: 0 <= i < |sent| ==> sent[i] == request
      invariant Prefix(rs, attempt, lastErr, waits)
    {
      var outcome := outcomes[attempt];
      ReactionAt(outcomes, attempt);
      calls, sent := calls + 1, sent + [request];
      match outcome
      case TransportFailure(cause) =>
        assert rs[attempt] == Record(ApiCallFailed(cause));
        PrefixRecord(rs, attempt, lastErr, waits);
        lastErr := Some(ApiCallFailed(cause));
        continue;
      case Response(status, retryAfter, decoded, read, deadlineFires) =>
        if status == StatusOK {
          var apiResp := DecodeApiResponse(decoded);
          if apiResp.Failure? {
            assert rs[attempt] == Record(DecodeFailed(apiResp.error));
            PrefixRecord(rs, attempt, lastErr, waits);
            lastErr := Some(DecodeFailed(apiResp.error));
            continue;
          }
          assert rs[attempt] == Return(apiResp.value);
          RunStopsAt(outcomes, attempt, lastErr, waits);
          return Success(apiResp.value), calls, waits, sent;
        }
        if status == StatusTooManyRequests {
          var retryTime := Decimal.Atoi(retryAfter);
          if retryTime.None? {
            assert rs[attempt] == Record(RetryHeaderInvalid(retryAfter));
            PrefixRecord(rs, attempt, lastErr, waits);
            lastErr := Some(RetryHeaderInvalid(retryAfter));
            continue;
          }
          assert rs[attempt] == Wait(retryTime.value, deadlineFires);
          if deadlineFires {
            RunStopsAt(outcomes, attempt, lastErr, waits);
            waits := waits + [retryTime.value];
            return Failure(DeadlineExceeded), calls, waits, sent;
          }
          PrefixWait(rs, attempt, lastErr, waits);
          waits := waits + [retryTime.value];
          continue;
        }
        if read.None? {
          assert rs[attempt] == Record(ReadFailed);
          PrefixRecord(rs, attempt, lastErr, waits);
          lastErr := Some(ReadFailed);
          continue;
        }
        assert rs[attempt] == Record(UnexpectedStatus(status, read.value));
        PrefixRecord(rs, attempt, lastErr, waits);
        lastErr := Some(UnexpectedStatus(status, read.value));
    }
    RunExhausts(outcomes, lastErr, waits);
    result := Failure(RetriesExceeded(MaxRetries, lastErr));
  }

  /**
    The first good 200 response is returned at once, with its first
    choice's content, after exactly as many calls as attempts it took, when
    no earlier attempt stopped the loop.
   */
  lemma FirstGoodResponseReturned(os: seq<Outcome>, k: nat)
    requires |os| == MaxRetries && k < MaxRetries
    requires GoodResponse(os[k])
    requires forall i :: 0 <= i < k ==> !GoodResponse(os[i]) && !(RateLimited(os[i]) && os[i].deadlineFires)
    ensures DescriptionRun(true, os).result == Success(os[k].decoded.value.choices[0].message.content)
    ensures DescriptionRun(true, os).calls == k + 1
  {
    var rs := Reactions(os);
    forall i | 0 <= i < k
      ensures !Ends(rs[i])
    {
      ReactionAt(os, i);
      ReactClassifies(os[i]);
    }
    ReactionAt(os, k);
    ReactClassifies(os[k]);
    FirstEndIs(rs, k);
  }

  /**
    The call succeeds exactly when its last call got a good 200 response,
    and then it returns that response's first choice.
   */
  lemma SucceedsIff(os: seq<Outcome>)
    requires |os| == MaxRetries
    ensures var r := DescriptionRun(true, os);
      r.result.Success? <==> r.calls <= MaxRetries && GoodResponse(os[r.calls - 1])
    ensures var r := DescriptionRun(true, os);
      r.result.Success? ==> r.result.value == os[r.calls - 1].decoded.value.choices[0].message.content
  {
    var rs := Reactions(os);
    var k := FirstEnd(rs);
    if k < MaxRetries {
      ReactionAt(os, k);
      ReactClassifies(os[k]);
    } else {
      ReactionAt(os, MaxRetries - 1);
      ReactClassifies(os[MaxRetries - 1]);
    }
  }

  /**
    The only failures a call with a valid payload ends in are the deadline
    error, returned exactly when its last call was rate limited with a
    parseable header and the deadline fired during that wait, and the
    retries-exceeded error, returned exactly when all MaxRetries calls were
    made without any of them stopping the loop.
   */
  lemma FailuresIff(os: seq<Outcome>)
    requires |os| == MaxRetries
    ensures var r := DescriptionRun(true, os);
      r.result == Failure(DeadlineExceeded) <==> RateLimited(os[r.calls - 1]) && os[r.calls - 1].deadlineFires
    ensures var r := DescriptionRun(true, os);
      (r.result.Failure? && r.result.error.RetriesExceeded?) <==> FirstEnd(Reactions(os)) == MaxRetries
    ensures var r := DescriptionRun(true, os);
      r.result.Failure? ==> r.result.error.DeadlineExceeded? || r.result.error.RetriesExceeded?
  {
    var rs := Reactions(os);
    var k := FirstEnd(rs);
    if k < MaxRetries {
      ReactionAt(os, k);
      ReactClassifies(os[k]);
    } else {
      ReactionAt(os, MaxRetries - 1);
      ReactClassifies(os[MaxRetries - 1]);
    }
  }

  /**
    lastErr is still nil after every attempt exactly when every attempt was
    rate limited with a parseable header and waited its full delay: every
    other outcome either stops the loop or records an error.
   */
  lemma {:induction false} NothingRecordedOnlyForWaits(rs: seq<Reaction>)
    requires forall i :: 0 <= i < |rs| ==> !Ends(rs[i])
    ensures LastRecorded(rs) == None <==> forall i :: 0 <= i < |rs| ==> rs[i].Wait?
  {
    if rs != [] {
      var init := rs[..|rs| - 1];
      NothingRecordedOnlyForWaits(init);
      assert forall i :: 0 <= i < |init| ==> init[i] == rs[i];
    }
  }

  /**
    The same for the outcomes themselves: lastErr is still nil after all
    MaxRetries attempts exactly when every response was a 429 with a
    parseable `retry-after` whose wait completed.
   */
  lemma NilLastErrIff(os: seq<Outcome>)
    requires |os| == MaxRetries && FirstEnd(Reactions(os)) == MaxRetries
    ensures DescriptionRun(true, os).result == Failure(RetriesExceeded(MaxRetries, None)) <==>
      forall i :: 0 <= i < |os| ==> RateLimited(os[i]) && !os[i].deadlineFires
  {
    var rs := Reactions(os);
    NothingRecordedOnlyForWaits(rs);
    forall i | 0 <= i < |os|
      ensures rs[i].Wait? <==> RateLimited(os[i]) && !os[i].deadlineFires
    {
      ReactionAt(os, i);
      ReactClassifies(os[i]);
    }
    assert DescriptionRun(true, os).result == Failure(RetriesExceeded(MaxRetries, LastRecorded(rs)));
  }

  /**
    The case the package's test exercises: every attempt answered 429 with
    `retry-after: 3` and the deadline never reached. The loop waits three
    times and still fails, with a retries-exceeded error wrapping nil.
   */
  lemma PersistentRateLimitFails(body: string)
    ensures
      var o := Response(StatusTooManyRequests, "3", None, Some(body), false);
      DescriptionRun(true, [o, o, o]) == Run(Failure(RetriesExceeded(MaxRetries, None)), MaxRetries, [3, 3, 3])
  {
    var o := Response(StatusTooManyRequests, "3", None, Some(body), false);
    assert Decimal.Atoi("3") == Some(3) by {
      assert Decimal.DigitsValue("3") == 3 by { assert "3"[..0] == []; }
    }
    assert React(o) == Wait(3, false);
    var os := [o, o, o];
    var rs := Reactions(os);
    ReactionAt(os, 0);
    ReactionAt(os, 1);
    ReactionAt(os, 2);
    PrefixStart(rs);
    PrefixWait(rs, 0, None, []);
    PrefixWait(rs, 1, None, [3]);
    PrefixWait(rs, 2, None, [3, 3]);
    RunExhausts(os, None, [3, 3, 3]);
  }

  /**
    A 429 with `retry-after: 2`, then a 200 with one choice: the call waits
    2 seconds once and returns that choice's content after two calls.
   */
  lemma RateLimitThenSuccess(content: string, third: Outcome)
    ensures
      var choice := Choice(0, Message("assistant", content), "stop");
      var ok := Response(StatusOK, "", Some(ApiResponse("", "", 0, "", [choice])), None, false);
      var limited := Response(StatusTooManyRequests, "2", None, None, false);
      DescriptionRun(true, [limited, ok, third]) == Run(Success(content), 2, [2])
  {
    var choice := Choice(0, Message("assistant", content), "stop");
    var ok := Response(StatusOK, "", Some(ApiResponse("", "", 0, "", [choice])), None, false);
    var limited := Response(StatusTooManyRequests, "2", None, None, false);
    assert Decimal.Atoi("2") == Some(2) by {
      assert Decimal.DigitsValue("2") == 2 by { assert "2"[..0] == []; }
    }
    assert React(limited) == Wait(2, false);
    assert React(ok) == Return(content);
    var os := [limited, ok, third];
    var rs := Reactions(os);
    ReactionAt(os, 0);
    ReactionAt(os, 1);
    PrefixStart(rs);
    PrefixWait(rs, 0, None, []);
    RunStopsAt(os, 1, None, [2]);
  }

  /** Two transport failures, then a good response: success after three calls and no waits. */
  lemma TransportFailuresThenSuccess(cause1: string, cause2: string, content: string)
    ensures
      var choice := Choice(0, Message("assistant", content), "stop");
      var ok := Response(StatusOK, "", Some(ApiResponse("", "", 0, "", [choice])), None, false);
      DescriptionRun(true, [TransportFailure(cause1), TransportFailure(cause2), ok]) == Run(Success(content), 3, [])
  {
    var choice := Choice(0, Message("assistant", content), "stop");
    var ok := Response(StatusOK, "", Some(ApiResponse("", "", 0, "", [choice])), None, false);
    assert React(ok) == Return(content);
    var os := [TransportFailure(cause1), TransportFailure(cause2), ok];
    var rs := Reactions(os);
    ReactionAt(os, 0);
    ReactionAt(os, 1);
    ReactionAt(os, 2);
    PrefixStart(rs);
    PrefixRecord(rs, 0, None, []);
    PrefixRecord(rs, 1, Some(ApiCallFailed(cause1)), []);
    RunStopsAt(os, 2, Some(ApiCallFailed(cause2)), []);
  }

  /**
    ProcessJob: ProcessJobDescription on the job's description, then reThink
    on the model's reply. Any error of the first step is returned unchanged;
    a reply without a `<think>…</think>` block is the extraction error; otherwise
    the result is the pair of thinking and cover letter reThink produces.
   */
  method ProcessJob(description: string, model: string, prompt: string, marshalOk: bool, outcomes: seq<Outcome>)
    returns (result: Result<seq<string>, Error>, calls: nat, waits: seq<int>)
    requires |outcomes| == MaxRetries
    ensures var d := DescriptionRun(marshalOk, outcomes);
      calls == d.calls && waits == d.waits
    ensures var d := DescriptionRun(marshalOk, outcomes);
      d.result.Failure? ==> result == Failure(d.result.error)
    ensures var d := DescriptionRun(marshalOk, outcomes);
      d.result.Success? && (!exists p, q :: Think.ThinkMatch(d.result.value, p, q)) ==>
        result == Failure(ExtractFailed(Think.ExtractError))
    ensures var d := DescriptionRun(marshalOk, outcomes);
      result.Success? <==> d.result.Success? && exists p, q :: Think.ThinkMatch(d.result.value, p, q)
    ensures result.Success? ==>
      |result.value| == 2 && result.value == Think.ReThink(DescriptionRun(marshalOk, outcomes).result.value).value
  {
    var processed, sent;
    processed, calls, waits, sent := ProcessJobDescription(description, model, prompt, marshalOk, outcomes);
    if processed.Failure? {
      return Failure(processed.error), calls, waits;
    }
    var text := Think.ReThink(processed.value);
    Think.ReThinkFailsIff(processed.value);
    if text.Failure? {
      return Failure(ExtractFailed(text.error)), calls, waits;
    }
    Think.ReThinkThinking(processed.value);
    result := Success(text.value);
  }
}
