/**
 * The Anthropic script's model fallback: the selected model first, and only
 * after an error whose text mentions 404, a fixed list of other models in
 * order, returning the first answer.
 */
module ModelFallback {
  import opened Text
  import opened Oracles

  const Opus := "claude-3-opus-20240229"
  const Haiku := "claude-3-haiku-20240307"
  const Instant := "claude-instant-1.2"

  /** The models tried, in this order, after the selected one reports 404. */
  const FallbackModels: seq<string> := [Opus, Haiku, Instant]

  /** A logical call: its final reply and the models asked, in order. */
  datatype Call = Call(reply: Reply, attempts: seq<string>)

  function Ask(model: string, prompt: string, maxTokens: nat, api: ApiRequest -> Reply): Reply
  {
    api(ApiRequest(model, prompt, maxTokens))
  }

  /**
   * Asks each candidate in turn until one answers; when all fail, the error
   * of the last one asked stands (`lastError` when there are none).
   */
  function TryInOrder(candidates: seq<string>, prompt: string, maxTokens: nat,
                      api: ApiRequest -> Reply, lastError: string): (c: Call)
    ensures |c.attempts| <= |candidates| && c.attempts == candidates[..|c.attempts|]
    ensures forall k :: 0 <= k < |c.attempts| - 1 ==> Ask(c.attempts[k], prompt, maxTokens, api).Failed?
    ensures c.reply.Text? ==> c.attempts != [] && c.reply == Ask(c.attempts[|c.attempts| - 1], prompt, maxTokens, api)
    ensures c.reply.Failed? ==> c.attempts == candidates
    ensures c.reply.Failed? ==> forall k :: 0 <= k < |candidates| ==> Ask(candidates[k], prompt, maxTokens, api).Failed?
    ensures c.reply.Failed? ==>
      c.reply == (if candidates == [] then Failed(lastError) else Ask(candidates[|candidates| - 1], prompt, maxTokens, api))
    decreases |candidates|
  {
    if candidates == [] then Call(Failed(lastError), [])
    else
      match Ask(candidates[0], prompt, maxTokens, api)
      case Text(t) => Call(Text(t), [candidates[0]])
      case Failed(e) =>
        var rest := TryInOrder(candidates[1..], prompt, maxTokens, api, e);
        Call(rest.reply, [candidates[0]] + rest.attempts)
  }

  /** The first candidate that answers is the one whose reply is returned. */
  lemma TryInOrderFirstSuccess(candidates: seq<string>, prompt: string, maxTokens: nat,
                               api: ApiRequest -> Reply, lastError: string, k: nat)
    requires k < |candidates| && Ask(candidates[k], prompt, maxTokens, api).Text?
    requires forall j :: 0 <= j < k ==> Ask(candidates[j], prompt, maxTokens, api).Failed?
    ensures TryInOrder(candidates, prompt, maxTokens, api, lastError)
         == Call(Ask(candidates[k], prompt, maxTokens, api), candidates[..k + 1])
  {
    var c := TryInOrder(candidates, prompt, maxTokens, api, lastError);
    assert |c.attempts| == k + 1;
  }

  /** `model_specific_call`: the selected model, then the fallback list after a 404 error. */
  function ModelSpecificCall(model: string, prompt: string, maxTokens: nat, api: ApiRequest -> Reply): (c: Call)
    ensures c.attempts != [] && c.attempts[0] == model
    ensures Ask(model, prompt, maxTokens, api).Text? ==> c == Call(Ask(model, prompt, maxTokens, api), [model])
    ensures var first := Ask(model, prompt, maxTokens, api);
      first.Failed? && !Contains(first.message, "404") ==> c == Call(first, [model])
    ensures var first := Ask(model, prompt, maxTokens, api);
      first.Failed? && Contains(first.message, "404") ==>
        && |c.attempts| <= 1 + |FallbackModels|
        && c.attempts[1..] == FallbackModels[..|c.attempts| - 1]
        && (forall k :: 0 <= k < |c.attempts| - 1 ==> Ask(c.attempts[k], prompt, maxTokens, api).Failed?)
        && (c.reply.Text? ==> c.reply == Ask(c.attempts[|c.attempts| - 1], prompt, maxTokens, api))
        && (c.reply.Failed? ==> c.attempts == [model] + FallbackModels && c.reply == Ask(Instant, prompt, maxTokens, api))
  {
    match Ask(model, prompt, maxTokens, api)
    case Text(t) => Call(Text(t), [model])
    case Failed(e) =>
      if Contains(e, "404") then
        var rest := TryInOrder(FallbackModels, prompt, maxTokens, api, e);
        Call(rest.reply, [model] + rest.attempts)
      else Call(Failed(e), [model])
  }

  /** The reply a caller of `model_specific_call` receives. */
  function CallModel(model: string, api: ApiRequest -> Reply): (call: (string, nat) -> Reply)
    ensures forall prompt, maxTokens :: api(ApiRequest(model, prompt, maxTokens)).Text? ==>
      call(prompt, maxTokens) == api(ApiRequest(model, prompt, maxTokens))
    ensures forall prompt, maxTokens :: call(prompt, maxTokens).Failed? ==>
      api(ApiRequest(model, prompt, maxTokens)).Failed?
  {
    (prompt: string, maxTokens: nat) => ModelSpecificCall(model, prompt, maxTokens, api).reply
  }
}
