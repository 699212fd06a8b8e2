/**
 * One request/response exchange of `send_to_claude`: the request record built
 * from the user's line, and the choice of the returned text or error from
 * what the HTTP call produced. The POST itself is not modelled; its outcome
 * is an input.
 */
module Exchange {
  import opened Wrappers

  /** Rust's `u32`, the type of `max_tokens`. */
  newtype U32 = x: int | 0 <= x < 0x1_0000_0000

  /** The model identifier every request names. */
  const ModelId: string := "claude-3-haiku-20240307"
  /** The output-token budget every request asks for. */
  const MaxTokens: U32 := 500
  /** The role of the single message a request carries. */
  const UserRole: string := "user"
  /** The text returned when a successful reply carries no content block. */
  const NoContent: string := "No response content"
  /** What the error text of a non-success status is prefixed with. */
  const ApiErrorPrefix: string := "API Error: "

  datatype Message = Message(role: string, content: string)

  datatype ClaudeRequest = ClaudeRequest(model: string, maxTokens: U32, messages: seq<Message>)

  /** A content block; `contentType` is the JSON field `type`. */
  datatype ContentBlock = ContentBlock(contentType: string, text: string)

  datatype ClaudeResponse = ClaudeResponse(content: seq<ContentBlock>, model: string, role: string)

  /** An HTTP status code, as `reqwest::StatusCode` admits it. */
  newtype StatusCode = x: int | 100 <= x < 1000 witness 200

  /** `StatusCode::is_success`: the 2xx range. */
  predicate IsSuccess(status: StatusCode) {
    200 <= status <= 299
  }

  /**
   * What the HTTP layer produced for one request: either `send` failed
   * (connection, TLS, ...), carrying the error's text, or a response arrived
   * with a status, a body text and what deserialising that body as a
   * `ClaudeResponse` yields (the response, or the decoder's error text).
   */
  datatype HttpOutcome =
    | SendFailed(reason: string)
    | Answered(status: StatusCode, body: string, decoded: Result<ClaudeResponse, string>)

  /** The shape of every request this client sends: one user message, fixed model and budget. */
  predicate IsChatRequest(r: ClaudeRequest) {
    r.model == ModelId && r.maxTokens == MaxTokens
    && |r.messages| == 1 && r.messages[0].role == UserRole
  }

  /** The user text a chat request carries. */
  function PromptOf(r: ClaudeRequest): string
    requires IsChatRequest(r)
  {
    r.messages[0].content
  }

  /** The request `send_to_claude` builds for a user message. */
  function BuildRequest(userMessage: string): (r: ClaudeRequest)
    ensures IsChatRequest(r)
    ensures PromptOf(r) == userMessage
  {
    ClaudeRequest(ModelId, MaxTokens, [Message(UserRole, userMessage)])
  }

  /** Every chat request is the one built from its own prompt, so building loses nothing. */
  lemma BuildRequestOnto(r: ClaudeRequest)
    requires IsChatRequest(r)
    ensures BuildRequest(PromptOf(r)) == r
  {
    assert r.messages == [Message(UserRole, PromptOf(r))];
  }

  /** Distinct messages give distinct requests. */
  lemma BuildRequestInjective(m1: string, m2: string)
    requires BuildRequest(m1) == BuildRequest(m2)
    ensures m1 == m2
  {
    assert PromptOf(BuildRequest(m1)) == m1;
  }

  /** The result `send_to_claude` returns for what the HTTP layer produced. */
  function ReplyOf(outcome: HttpOutcome): Result<string, string> {
    match outcome
    case SendFailed(reason) => Err(reason)
    case Answered(status, body, decoded) =>
      if IsSuccess(status) then
        match decoded
        case Err(e) => Err(e)
        case Ok(response) =>
          if |response.content| > 0 then Ok(response.content[0].text) else Ok(NoContent)
      else
        Err(ApiErrorPrefix + body)
  }

  /**
   * The result is a text exactly when a 2xx response decoded: the first
   * block's text, or the placeholder when there is no block. A decoding or
   * transport failure passes its error text on; any other status gives
   * `API Error: ` followed by the body.
   */
  lemma ReplyOfCases(outcome: HttpOutcome)
    ensures ReplyOf(outcome).Ok? <==> outcome.Answered? && IsSuccess(outcome.status) && outcome.decoded.Ok?
    ensures ReplyOf(outcome).Ok? && outcome.decoded.value.content != [] ==>
      ReplyOf(outcome).value == outcome.decoded.value.content[0].text
    ensures ReplyOf(outcome).Ok? && outcome.decoded.value.content == [] ==> ReplyOf(outcome).value == NoContent
    ensures outcome.Answered? && !IsSuccess(outcome.status) ==> ReplyOf(outcome) == Err(ApiErrorPrefix + outcome.body)
    ensures outcome.Answered? && IsSuccess(outcome.status) && outcome.decoded.Err? ==>
      ReplyOf(outcome) == Err(outcome.decoded.error)
    ensures outcome.SendFailed? ==> ReplyOf(outcome) == Err(outcome.reason)
  {
  }

  /** `send_to_claude`: build the request, let the HTTP layer answer it, pick the result. */
  function SendToClaude(http: ClaudeRequest -> HttpOutcome, userMessage: string): Result<string, string> {
    ReplyOf(http(BuildRequest(userMessage)))
  }

  /**
   * A successful reply depends only on the first block's text: its type tag,
   * the later blocks, the reply's model and role, and the body text are never consulted.
   */
  lemma ReplyReadsOnlyFirstText(s1: StatusCode, b1: string, r1: ClaudeResponse,
                                s2: StatusCode, b2: string, r2: ClaudeResponse)
    requires IsSuccess(s1) && IsSuccess(s2)
    requires |r1.content| > 0 && |r2.content| > 0 && r1.content[0].text == r2.content[0].text
    ensures ReplyOf(Answered(s1, b1, Ok(r1))) == ReplyOf(Answered(s2, b2, Ok(r2)))
  {
  }

  /** An error status yields its body as the error whatever the body decodes to. */
  lemma ErrorStatusIgnoresDecoding(s: StatusCode, body: string, d1: Result<ClaudeResponse, string>,
                                   d2: Result<ClaudeResponse, string>)
    requires !IsSuccess(s)
    ensures ReplyOf(Answered(s, body, d1)) == ReplyOf(Answered(s, body, d2))
  {
  }
}
