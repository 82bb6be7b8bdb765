/**
  The language-model API's request and response envelopes
  (models/models.go) and the two collaborators of the retry loop
  (processor/processor.go): createRequestPayload and decodeApiResponse.
  JSON bytes are not modelled: a request is its structure, and a response
  body is either what the decoder produced or a decoding failure.
 */
module Api {
  import opened Wrappers

  datatype Message = Message(role: string, content: string)

  /** GroqAPIRequest: the ordered messages and the model identifier. */
  datatype Request = Request(messages: seq<Message>, model: string)

  /** Choice, keeping index, message and finish_reason (logprobs, usage, system_fingerprint and xgroq are dropped). */
  datatype Choice = Choice(index: int, message: Message, finishReason: string)

  /** GroqAPIResponse: id, object, created, model and choices. */
  datatype ApiResponse = ApiResponse(id: string, object: string, created: int, model: string, choices: seq<Choice>)

  datatype PayloadError = MarshalFailed

  datatype DecodeError =
    | JsonInvalid     // "failed to decode response: ..."
    | NoChoices       // "no choices found in response"

  /**
    createRequestPayload: the system prompt first, then the user text.
    `marshalOk` stands for json.Marshal succeeding; for a structure made only
    of strings it always does, so the failure path is defensive.
   */
  function CreateRequestPayload(model: string, system: string, text: string, marshalOk: bool): (r: Result<Request, PayloadError>)
    ensures r.Failure? <==> !marshalOk
    ensures r.Success? ==> r.value.model == model && |r.value.messages| == 2
    ensures r.Success? ==> r.value.messages[0] == Message("system", system)
    ensures r.Success? ==> r.value.messages[1] == Message("user", text)
  {
    if !marshalOk then Failure(MarshalFailed)
    else Success(Request([Message("system", system), Message("user", text)], model))
  }

  /**
    decodeApiResponse on the decoder's result (None when the body is not a
    valid JSON envelope): the content of the first choice, or an error when
    the body does not decode or has no choices.
   */
  function DecodeApiResponse(decoded: Option<ApiResponse>): (r: Result<string, DecodeError>)
    ensures r.Success? <==> decoded.Some? && |decoded.value.choices| > 0
    ensures r.Success? ==> r.value == decoded.value.choices[0].message.content
    ensures r.Failure? ==> (r.error == JsonInvalid <==> decoded.None?)
  {
    match decoded
    case None => Failure(JsonInvalid)
    case Some(resp) =>
      if |resp.choices| == 0 then Failure(NoChoices)
      else Success(resp.choices[0].message.content)
  }
}
