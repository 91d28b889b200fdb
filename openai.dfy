/**
 * The OpenAI script's book pipeline: the whole outline reply goes to the
 * parser, a reply that is not a list ends the run, and the chapter loop and
 * the cover and compile steps are the ones the Anthropic script uses.
 */
module OpenAi {
  import opened Wrappers
  import opened Text
  import opened Oracles
  import opened Outline
  import opened Chapters
  import opened Inputs
  import opened Process
  import Anthropic

  const Gpt4 := "gpt-4"

  /** `call_openai_api`: one request to the fixed model, the reply text stripped. */
  function CallOpenAi(api: ApiRequest -> Reply): (call: (string, nat) -> Reply)
    ensures forall prompt, maxTokens ::
      call(prompt, maxTokens).Failed? ==> call(prompt, maxTokens) == api(ApiRequest(Gpt4, prompt, maxTokens))
    ensures forall prompt, maxTokens :: call(prompt, maxTokens).Text? ==>
      && api(ApiRequest(Gpt4, prompt, maxTokens)).Text?
      && call(prompt, maxTokens).text == Strip(api(ApiRequest(Gpt4, prompt, maxTokens)).text)
  {
    (prompt: string, maxTokens: nat) => StrippedReply(api(ApiRequest(Gpt4, prompt, maxTokens)))
  }

  /** The reply text stripped of surrounding whitespace; an error is passed on unchanged. */
  function StrippedReply(reply: Reply): (r: Reply)
    ensures r.Failed? <==> reply.Failed?
    ensures r.Failed? ==> r == reply
    ensures r.Text? ==> r.text == Strip(reply.text) && Trimmed(r.text)
  {
    match reply
    case Text(t) => Text(Strip(t))
    case Failed(e) => Failed(e)
  }

  /** What this script's chapter request asks for after naming the topic and the title. */
  const ChapterInstructions := "'. Please provide a thorough discussion with full paragraphs, rich explanations, and smooth transitions between ideas. Avoid using bullet points, lists, or fragmented points; focus on creating a flowing narrative that fully explores the topic."

  /** The chapter request of this script. */
  function ChapterPrompt(topic: string, title: string): (r: string)
    ensures |r| == |ChapterOpening| + |topic| + |ChapterTitleIntro| + |title| + |ChapterInstructions|
    ensures var start := |ChapterOpening| + |topic| + |ChapterTitleIntro|;
      && r[..|ChapterOpening|] == ChapterOpening && r[|ChapterOpening|..|ChapterOpening| + |topic|] == topic
      && r[start..start + |title|] == title && r[start + |title|..] == ChapterInstructions
  {
    FiveParts(ChapterOpening, topic, ChapterTitleIntro, title, ChapterInstructions);
    ChapterOpening + topic + ChapterTitleIntro + title + ChapterInstructions
  }

  function ChapterPrompts(topic: string): string -> string
  {
    (title: string) => ChapterPrompt(topic, title)
  }

  const NotAListMessage := "The output is not a JSON array."

  /**
   * The outline step: the reply itself is parsed; a list is repaired to `n`
   * titles, anything else is an error that ends the run.
   */
  function OutlineTitles(response: string, n: int, parse: string -> ParseResult): (r: Result<seq<string>, string>)
    ensures r.Success? <==> parse(response).JsonList?
    ensures r.Success? ==> r.value == Repaired(parse(response).items, n)
    ensures r.Success? && n >= 0 ==> |r.value| == n
    ensures parse(response).NotAList? ==> r == Failure(NotAListMessage)
    ensures parse(response).ParseError? ==> r == Failure(parse(response).message)
  {
    match parse(response)
    case JsonList(items) => Success(Repaired(items, n))
    case NotAList => Failure(NotAListMessage)
    case ParseError(message) => Failure(message)
  }

  /**
   * On a reply with no fence that parses to a list, both scripts settle on
   * the same titles; on one that does not, the Anthropic script goes on with
   * its synthetic titles where this one stops.
   */
  lemma OutlineVariantsCompared(response: string, topic: string, n: int, parse: string -> ParseResult)
    requires !Contains(response, Fence)
    ensures OutlineTitles(response, n, parse).Success? ==>
      OutlineTitles(response, n, parse).value == Anthropic.OutlineTitles(response, topic, n, parse)
    ensures OutlineTitles(response, n, parse).Failure? ==>
      Anthropic.OutlineTitles(response, topic, n, parse) == Anthropic.FallbackTitles(topic, n)
  {
    assert ExtractJson(response) == response;
  }

  /**
   * What `generate_book_content` does with a client `call` and the two
   * requests it sends: the outline request and the outline step, either of
   * whose errors ends the run before any chapter request, then the chapter
   * loop over the titles.
   */
  predicate ContentRunWith(outlinePrompt: string, chapterPrompt: string -> string,
                           n: int, call: (string, nat) -> Reply, parse: string -> ParseResult,
                           result: Result<string, string>, titles: seq<string>, issued: seq<string>)
  {
    var outline := call(outlinePrompt, OutlineTokens);
    if outline.Failed? then
      result == Failure(outline.message) && titles == [] && issued == []
    else
      match OutlineTitles(outline.text, n, parse)
      case Failure(e) => result == Failure(e) && titles == [] && issued == []
      case Success(repaired) =>
        && titles == repaired
        && ChapterRun(titles, chapterPrompt, WithTokens(call, ChapterTokens), result, issued)
  }

  /** The run with this script's own outline and chapter requests. */
  predicate ContentRun(topic: string, n: int, call: (string, nat) -> Reply, parse: string -> ParseResult,
                       result: Result<string, string>, titles: seq<string>, issued: seq<string>)
  {
    ContentRunWith(OutlinePrompt(topic, n), ChapterPrompts(topic), n, call, parse, result, titles, issued)
  }

  /** The body of `generate_book_content`, for given request texts. */
  method GenerateContentWith(outlinePrompt: string, chapterPrompt: string -> string,
                             n: int, call: (string, nat) -> Reply, parse: string -> ParseResult)
    returns (result: Result<string, string>, titles: seq<string>, issued: seq<string>)
    ensures ContentRunWith(outlinePrompt, chapterPrompt, n, call, parse, result, titles, issued)
    ensures result.Success? && n >= 0 ==> |titles| == |issued| == n
  {
    var outlineResponse := call(outlinePrompt, OutlineTokens);
    if outlineResponse.Failed? {
      return Failure(outlineResponse.message), [], [];
    }
    match parse(outlineResponse.text) {
      case JsonList(items) =>
        titles := RepairOutline(items, n);
      case NotAList =>
        return Failure(NotAListMessage), [], [];
      case ParseError(message) =>
        return Failure(message), [], [];
    }
    result, issued := GenerateChapters(titles, chapterPrompt, WithTokens(call, ChapterTokens));
  }

  method GenerateBookContent(topic: string, n: int, call: (string, nat) -> Reply, parse: string -> ParseResult)
    returns (result: Result<string, string>, titles: seq<string>, issued: seq<string>)
    ensures ContentRun(topic, n, call, parse, result, titles, issued)
    ensures result.Success? && n >= 0 ==> |titles| == |issued| == n
  {
    result, titles, issued := GenerateContentWith(OutlinePrompt(topic, n), ChapterPrompts(topic), n, call, parse);
  }

  /** `threaded_create_book`: `create_book_process` with the fixed model. */
  method CreateBookProcess(request: BookRequest, api: ApiRequest -> Reply,
                           parse: string -> ParseResult, get: string -> FetchReply)
    returns (outcome: Outcome, content: Result<string, string>, titles: seq<string>, issued: seq<string>)
    ensures ContentRun(request.topic, request.chapterCount, CallOpenAi(api), parse, content, titles, issued)
    ensures outcome == FinishBook(request, content, get)
  {
    content, titles, issued := GenerateBookContent(request.topic, request.chapterCount, CallOpenAi(api), parse);
    outcome := FinishBook(request, content, get);
  }
}
