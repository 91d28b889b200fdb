/**
 * The Anthropic script's book pipeline: the outline request, the fenced-JSON
 * extraction with synthetic titles when parsing fails, the chapter loop, and
 * the run started from the form with the selected model.
 */
module Anthropic {
  import opened Wrappers
  import opened Text
  import opened Oracles
  import opened Outline
  import opened Chapters
  import opened ModelFallback
  import opened Inputs
  import opened Process

  /** What this script's chapter request asks for after naming the topic and the title. */
  const ChapterInstructions := "'. Please provide a thorough discussion with full paragraphs, rich explanations, and smooth transitions between ideas. Avoid using bullet points or lists; focus on a flowing narrative."

  /** The chapter request of this script. */
  function ChapterPrompt(topic: string, title: string): (r: string)
    ensures |r| == |ChapterOpening| + |topic| + |ChapterTitleIntro| + |title| + |ChapterInstructions|
    ensures var start := |ChapterOpening| + |topic| + |ChapterTitleIntro|;
      && r[..|ChapterOpening|] == ChapterOpening && r[|ChapterOpening|..|ChapterOpening| + |topic|] == topic
      && r[start..start + |title|] == title && r[start + |title|..] == ChapterInstructions
  {
    FiveParts(ChapterOpening, topic, ChapterTitleIntro, title, ChapterInstructions);
    ChapterOpening + topic + ChapterTitleIntro + title + ChapterInstructions
  }

  function ChapterPrompts(topic: string): string -> string
  {
    (title: string) => ChapterPrompt(topic, title)
  }

  // ---------------------------------------------------------------------------
  // Titles when the outline cannot be parsed
  // ---------------------------------------------------------------------------

  /** The synthetic title of chapter `k` (1-based) when the outline is unusable. */
  function FallbackTitle(topic: string, k: nat): string
  {
    "Chapter " + NatToString(k) + ": " + topic + " - Part " + NatToString(k)
  }

  /** One synthetic title per requested chapter; none for a count below one. */
  function FallbackTitles(topic: string, n: int): (titles: seq<string>)
    ensures |titles| == if n > 0 then n else 0
    ensures forall k :: 0 <= k < |titles| ==> titles[k] == FallbackTitle(topic, k + 1)
  {
    seq(if n > 0 then n else 0, k requires 0 <= k => FallbackTitle(topic, k + 1))
  }

  /** The part of a synthetic title after its chapter number. */
  function TitleTail(topic: string, k: nat): string
  {
    ": " + topic + " - Part " + NatToString(k)
  }

  /** A synthetic title is the chapter number followed by the tail. */
  lemma FallbackTitleAfterPrefix(topic: string, k: nat)
    ensures FallbackTitle(topic, k)[|"Chapter "|..] == NatToString(k) + TitleTail(topic, k)
  {
    var t := FallbackTitle(topic, k);
    assert t == "Chapter " + (NatToString(k) + TitleTail(topic, k));
  }

  /** Different chapter numbers give different synthetic titles, whatever the topic. */
  lemma FallbackTitleInjective(topic: string, i: nat, j: nat)
    requires FallbackTitle(topic, i) == FallbackTitle(topic, j)
    ensures i == j
  {
    var a, b := NatToString(i), NatToString(j);
    var x, y := TitleTail(topic, i), TitleTail(topic, j);
    FallbackTitleAfterPrefix(topic, i);
    FallbackTitleAfterPrefix(topic, j);
    assert x[0] == ':' && y[0] == ':';
    DigitRunUnique(a, x, b, y);
    NatToStringInjective(i, j);
  }

  /** The synthetic outline has exactly `n` titles, numbered 1..n, no two alike. */
  lemma FallbackTitlesDistinct(topic: string, n: int)
    ensures n >= 0 ==> |FallbackTitles(topic, n)| == n
    ensures forall k :: 0 <= k < |FallbackTitles(topic, n)| ==> FallbackTitles(topic, n)[k] == FallbackTitle(topic, k + 1)
    ensures forall i, j :: 0 <= i < j < |FallbackTitles(topic, n)| ==> FallbackTitles(topic, n)[i] != FallbackTitles(topic, n)[j]
  {
    var titles := FallbackTitles(topic, n);
    forall i, j | 0 <= i < j < |titles| ensures titles[i] != titles[j] {
      if titles[i] == titles[j] {
        FallbackTitleInjective(topic, i + 1, j + 1);
      }
    }
  }

  // ---------------------------------------------------------------------------
  // The outline
  // ---------------------------------------------------------------------------

  /**
   * The titles the script settles on for an outline reply: the repaired list
   * when the extracted text parses to a list, the synthetic titles otherwise.
   * Either way no error escapes and there are exactly `n` titles.
   */
  function OutlineTitles(response: string, topic: string, n: int, parse: string -> ParseResult): (titles: seq<string>)
    ensures n >= 0 ==> |titles| == n
    ensures parse(ExtractJson(response)).JsonList? ==> titles == Repaired(parse(ExtractJson(response)).items, n)
    ensures !parse(ExtractJson(response)).JsonList? ==> titles == FallbackTitles(topic, n)
  {
    match parse(ExtractJson(response))
    case JsonList(items) => Repaired(items, n)
    case _ => FallbackTitles(topic, n)
  }

  /**
   * A reply that wraps a backtick-free list in a json fence gives the same
   * titles as the bare list, for a parser that ignores surrounding whitespace.
   */
  lemma OutlineFenceInsensitive(bare: string, topic: string, n: int, parse: string -> ParseResult)
    requires NoBackticks(bare) && parse(Strip(bare)) == parse(bare)
    ensures OutlineTitles(JsonFence + bare + Fence, topic, n, parse) == OutlineTitles(bare, topic, n, parse)
  {
    FencedAndBareAgree(bare);
  }

  /**
   * The same holds for a plain fence around a list that does not start with
   * the `json` tag.
   */
  lemma OutlinePlainFenceInsensitive(bare: string, topic: string, n: int, parse: string -> ParseResult)
    requires NoBackticks(bare) && !StartsWithJsonTag(bare) && parse(Strip(bare)) == parse(bare)
    ensures OutlineTitles(Fence + bare + Fence, topic, n, parse) == OutlineTitles(bare, topic, n, parse)
  {
    PlainFencedAndBareAgree(bare);
    FencedAndBareAgree(bare);
  }

  // ---------------------------------------------------------------------------
  // generate_book_content
  // ---------------------------------------------------------------------------

  /**
   * What `generate_book_content` does with a client `call` and the two
   * requests it sends: the outline request, whose failure ends the run before
   * any chapter request; the titles from its reply; then the chapter loop
   * over those titles.
   */
  predicate ContentRunWith(outlinePrompt: string, chapterPrompt: string -> string,
                           topic: string, n: int, call: (string, nat) -> Reply, parse: string -> ParseResult,
                           result: Result<string, string>, titles: seq<string>, issued: seq<string>)
  {
    var outline := call(outlinePrompt, OutlineTokens);
    if outline.Failed? then
      result == Failure(outline.message) && titles == [] && issued == []
    else
      && titles == OutlineTitles(outline.text, topic, n, parse)
      && ChapterRun(titles, chapterPrompt, WithTokens(call, ChapterTokens), result, issued)
  }

  /** The run with this script's own outline and chapter requests. */
  predicate ContentRun(topic: string, n: int, call: (string, nat) -> Reply, parse: string -> ParseResult,
                       result: Result<string, string>, titles: seq<string>, issued: seq<string>)
  {
    ContentRunWith(OutlinePrompt(topic, n), ChapterPrompts(topic), topic, n, call, parse, result, titles, issued)
  }

  /** The body of `generate_book_content`, for given request texts. */
  method GenerateContentWith(outlinePrompt: string, chapterPrompt: string -> string,
                             topic: string, n: int, call: (string, nat) -> Reply, parse: string -> ParseResult)
    returns (result: Result<string, string>, titles: seq<string>, issued: seq<string>)
    ensures ContentRunWith(outlinePrompt, chapterPrompt, topic, n, call, parse, result, titles, issued)
    ensures result.Success? && n >= 0 ==> |titles| == |issued| == n
  {
    var outlineResponse := call(outlinePrompt, OutlineTokens);
    if outlineResponse.Failed? {
      return Failure(outlineResponse.message), [], [];
    }
    match parse(ExtractJson(outlineResponse.text)) {
      case JsonList(items) =>
        titles := RepairOutline(items, n);
      case _ =>
        titles := FallbackTitles(topic, n);
    }
    result, issued := GenerateChapters(titles, chapterPrompt, WithTokens(call, ChapterTokens));
  }

  method GenerateBookContent(topic: string, n: int, call: (string, nat) -> Reply, parse: string -> ParseResult)
    returns (result: Result<string, string>, titles: seq<string>, issued: seq<string>)
    ensures ContentRun(topic, n, call, parse, result, titles, issued)
    ensures result.Success? && n >= 0 ==> |titles| == |issued| == n
  {
    result, titles, issued := GenerateContentWith(OutlinePrompt(topic, n), ChapterPrompts(topic), topic, n, call, parse);
  }

  /**
   * When the outline reply is usable, every requested chapter is written and
   * the content holds chapter k's fragment, built from the k-th title and
   * the k-th reply, before chapter k + 1's.
   */
  lemma ContentRunChapters(outlinePrompt: string, chapterPrompt: string -> string,
                           topic: string, n: nat, call: (string, nat) -> Reply, parse: string -> ParseResult,
                           result: Result<string, string>, titles: seq<string>, issued: seq<string>, k: nat)
    requires ContentRunWith(outlinePrompt, chapterPrompt, topic, n, call, parse, result, titles, issued)
    requires result.Success? && k < n
    ensures |titles| == |issued| == n
    ensures issued[k] == chapterPrompt(titles[k])
    ensures var texts := Texts(issued, WithTokens(call, ChapterTokens));
      result.value == Content(titles[..k], texts[..k]) + Fragment(k + 1, titles[k], texts[k]) + "\n"
                      + ContentFrom(k + 2, titles[k + 1..], texts[k + 1..])
  {
    var texts := Texts(issued, WithTokens(call, ChapterTokens));
    ContentOrder(titles, texts, k);
  }

  // ---------------------------------------------------------------------------
  // The run started from the form
  // ---------------------------------------------------------------------------

  /**
   * `threaded_create_book`: `create_book_process` with every client call
   * going through the selected model and its fallback chain.
   */
  method CreateBookProcess(request: BookRequest, model: string, api: ApiRequest -> Reply,
                           parse: string -> ParseResult, get: string -> FetchReply)
    returns (outcome: Outcome, content: Result<string, string>, titles: seq<string>, issued: seq<string>)
    ensures ContentRun(request.topic, request.chapterCount, CallModel(model, api), parse, content, titles, issued)
    ensures outcome == FinishBook(request, content, get)
  {
    content, titles, issued := GenerateBookContent(request.topic, request.chapterCount, CallModel(model, api), parse);
    outcome := FinishBook(request, content, get);
  }
}
