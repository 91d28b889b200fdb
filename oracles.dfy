/**
 * The outside world as the book scripts see it. The language-model client,
 * `json.loads` and `requests.get` are not modelled; each is a function
 * parameter that answers with one of the outcomes below.
 */
module Oracles {

  newtype byte = x: int | 0 <= x < 256

  /** One `messages.create` / `ChatCompletion.create` request. */
  datatype ApiRequest = ApiRequest(model: string, prompt: string, maxTokens: nat)

  /** The text of a model response, or the text of the exception the client raised. */
  datatype Reply = Text(text: string) | Failed(message: string)

  /** A client call with its token limit fixed, as each call site passes `max_tokens`. */
  function WithTokens(call: (string, nat) -> Reply, maxTokens: nat): string -> Reply
  {
    (prompt: string) => call(prompt, maxTokens)
  }

  function TextOf(r: Reply): string
  {
    if r.Text? then r.text else ""
  }

  /**
   * `json.loads` followed by `isinstance(chapters, list)`: a list (each item
   * as the text the f-strings render it to), any other JSON value, or a
   * decoding error with its message.
   */
  datatype ParseResult = JsonList(items: seq<string>) | NotAList | ParseError(message: string)

  /** `requests.get(url)` plus `raise_for_status()`: the body, or the error raised. */
  datatype FetchReply = Fetched(content: seq<byte>) | FetchFailed(message: string)
}
