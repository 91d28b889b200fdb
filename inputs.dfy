/**
 * What `run_book_creation` does with the form entries before starting the
 * worker, in each script.
 */
module Inputs {
  import opened Wrappers
  import opened Text

  /** The entry texts as `Entry.get()` returns them. */
  datatype Form = Form(topic: string, title: string, author: string, chapters: string, output: string, cover: string)

  /** The arguments handed to the worker thread. */
  datatype BookRequest = BookRequest(topic: string, title: string, author: string, output: string,
                                     chapterCount: int, cover: string)

  /** The input errors the form reports in a message box instead of starting the worker. */
  datatype InputError = EmptyTopic | ChaptersNotPositive | ChaptersNotInteger
  {
    /** The message box text. */
    function Message(): string
    {
      match this
      case EmptyTopic => "Topic cannot be empty."
      case ChaptersNotPositive => "Chapters must be a positive integer."
      case ChaptersNotInteger => "Chapters must be an integer."
    }
  }
  const TitlePrefix := "Book about "
  const DefaultAuthor := "Claude AI"
  const DefaultCover := "cover.png"
  const EpubSuffix := ".epub"

  /** `output += '.epub'` unless `output.endswith('.epub')`. */
  function WithEpubSuffix(output: string): (r: string)
    ensures EndsWith(r, EpubSuffix)
    ensures |output| <= |r| && r[..|output|] == output
    ensures EndsWith(output, EpubSuffix) ==> r == output
  {
    if EndsWith(output, EpubSuffix) then output else output + EpubSuffix
  }

  /** Adding the suffix twice is adding it once. */
  lemma WithEpubSuffixIdempotent(output: string)
    ensures WithEpubSuffix(WithEpubSuffix(output)) == WithEpubSuffix(output)
  {
  }

  /** The defaults are themselves stripped, non-empty entries. */
  lemma DefaultsTrimmed()
    ensures Trimmed(DefaultAuthor) && DefaultAuthor != []
    ensures Trimmed(DefaultCover) && DefaultCover != []
    ensures Trimmed(EpubSuffix) && EpubSuffix[0] == '.'
  {
    assert DefaultAuthor[0] == 'C' && DefaultAuthor[|DefaultAuthor| - 1] == 'I';
    assert DefaultCover[0] == 'c' && DefaultCover[|DefaultCover| - 1] == 'g';
    assert EpubSuffix[|EpubSuffix| - 1] == 'b';
  }

  /** A stripped entry, or `default` when the entry is blank. */
  function OrDefault(entry: string, default: string): (v: string)
    ensures Strip(entry) != [] ==> v == Strip(entry)
    ensures Strip(entry) == [] ==> v == default
  {
    var s := Strip(entry);
    if s == [] then default else s
  }

  /** A stripped, non-empty default gives a stripped, non-empty value. */
  lemma OrDefaultTrimmed(entry: string, default: string)
    requires Trimmed(default) && default != []
    ensures Trimmed(OrDefault(entry, default)) && OrDefault(entry, default) != []
  {
  }

  /** An entry that is already stripped and non-empty is kept as it is. */
  lemma OrDefaultKeeps(entry: string, default: string)
    requires Trimmed(entry) && entry != []
    ensures OrDefault(entry, default) == entry
  {
    StripUnchanged(entry);
  }

  /** `int(entry.strip())` when it is a positive integer, otherwise `None`. */
  function PositiveCount(entry: string): (n: Option<int>)
    ensures n.Some? <==> ParseInt(Strip(entry)).Some? && ParseInt(Strip(entry)).value > 0
    ensures n.Some? ==> n.value >= 1 && n == ParseInt(Strip(entry))
  {
    var n := ParseInt(Strip(entry));
    if n.Some? && n.value > 0 then n else None
  }

  /**
   * The Anthropic form: strip every entry, reject an empty topic, default
   * the title and the author, reject a chapter count that is not a positive
   * integer, add the `.epub` suffix and default the cover file.
   */
  function NormaliseAnthropic(form: Form): (r: Result<BookRequest, InputError>)
    ensures r == Failure(EmptyTopic) <==> Strip(form.topic) == []
    ensures r == Failure(ChaptersNotPositive) <==> Strip(form.topic) != [] && PositiveCount(form.chapters).None?
    ensures r.Failure? ==> r.error != ChaptersNotInteger
    ensures r.Success? ==>
      && r.value.topic == Strip(form.topic) && r.value.topic != []
      && Some(r.value.chapterCount) == PositiveCount(form.chapters)
      && r.value.title == OrDefault(form.title, TitlePrefix + r.value.topic)
      && r.value.author == OrDefault(form.author, DefaultAuthor)
      && r.value.output == WithEpubSuffix(Strip(form.output))
      && r.value.cover == OrDefault(form.cover, DefaultCover)
  {
    var topic := Strip(form.topic);
    if topic == [] then Failure(EmptyTopic)
    else
      var title := OrDefault(form.title, TitlePrefix + topic);
      var author := OrDefault(form.author, DefaultAuthor);
      match PositiveCount(form.chapters)
      case None => Failure(ChaptersNotPositive)
      case Some(count) =>
        var output := WithEpubSuffix(Strip(form.output));
        var cover := OrDefault(form.cover, DefaultCover);
        Success(BookRequest(topic, title, author, output, count, cover))
  }

  /** The form that shows a request's values, as the script writes the defaults back into it. */
  function FormOf(request: BookRequest): Form
  {
    Form(request.topic, request.title, request.author, IntToString(request.chapterCount),
         request.output, request.cover)
  }

  /**
   * Submitting again the values a successful submission produced yields the
   * same request: normalisation is idempotent.
   */
  lemma NormaliseAnthropicStable(form: Form)
    requires NormaliseAnthropic(form).Success?
    ensures NormaliseAnthropic(FormOf(NormaliseAnthropic(form).value)) == NormaliseAnthropic(form)
  {
    var request := NormaliseAnthropic(form).value;
    DefaultsTrimmed();
    TitleDefaultTrimmed(request.topic);
    OrDefaultTrimmed(form.title, TitlePrefix + request.topic);
    OrDefaultTrimmed(form.author, DefaultAuthor);
    OrDefaultTrimmed(form.cover, DefaultCover);
    assert Trimmed(request.topic) && Trimmed(request.title) && Trimmed(request.author);
    assert Trimmed(request.output) && Trimmed(request.cover);
    assert EndsWith(request.output, EpubSuffix);
    AcceptedRequestStable(request);
  }

  /** The default title of a stripped, non-empty topic is stripped and non-empty. */
  lemma TitleDefaultTrimmed(topic: string)
    requires Trimmed(topic) && topic != []
    ensures Trimmed(TitlePrefix + topic) && TitlePrefix + topic != []
  {
    var t := TitlePrefix + topic;
    assert t[0] == 'B';
    assert t[|t| - 1] == topic[|topic| - 1];
  }

  /**
   * A positive count written back into the form reads back as itself, unless
   * it has more digits than `int()` reads.
   */
  lemma StableCount(count: int)
    requires count >= 1
    ensures PositiveCount(IntToString(count)) == if WithinStrDigits(count) then Some(count) else None
  {
    StripUnchanged(IntToString(count));
    ParseIntRoundTrip(count);
  }

  /** An output name that is stripped and ends with `.epub` is kept as it is. */
  lemma StableOutput(output: string)
    requires Trimmed(output) && EndsWith(output, EpubSuffix)
    ensures WithEpubSuffix(Strip(output)) == output
  {
    StripUnchanged(output);
  }

  /** A form whose normalised fields are a request's fields yields that request. */
  lemma NormalisedFields(form: Form, request: BookRequest)
    requires Strip(form.topic) == request.topic && request.topic != []
    requires PositiveCount(form.chapters) == Some(request.chapterCount)
    requires OrDefault(form.title, TitlePrefix + request.topic) == request.title
    requires OrDefault(form.author, DefaultAuthor) == request.author
    requires WithEpubSuffix(Strip(form.output)) == request.output
    requires OrDefault(form.cover, DefaultCover) == request.cover
    ensures NormaliseAnthropic(form) == Success(request)
  {
  }

  /**
   * A request whose values are already normal comes back unchanged from its
   * own form; only a count too long for `int()` is rejected.
   */
  lemma AcceptedRequestStable(request: BookRequest)
    requires Trimmed(request.topic) && request.topic != []
    requires Trimmed(request.title) && request.title != []
    requires Trimmed(request.author) && request.author != []
    requires Trimmed(request.cover) && request.cover != []
    requires Trimmed(request.output) && EndsWith(request.output, EpubSuffix)
    requires request.chapterCount >= 1
    ensures NormaliseAnthropic(FormOf(request))
         == if WithinStrDigits(request.chapterCount) then Success(request) else Failure(ChaptersNotPositive)
  {
    var again := FormOf(request);
    StripUnchanged(request.topic);
    StableCount(request.chapterCount);
    if WithinStrDigits(request.chapterCount) {
      NormalRequestAccepted(request);
    } else {
      CountRejected(again);
    }
  }

  /** The accepted case of `AcceptedRequestStable`. */
  lemma NormalRequestAccepted(request: BookRequest)
    requires Trimmed(request.topic) && request.topic != []
    requires Trimmed(request.title) && request.title != []
    requires Trimmed(request.author) && request.author != []
    requires Trimmed(request.cover) && request.cover != []
    requires Trimmed(request.output) && EndsWith(request.output, EpubSuffix)
    requires PositiveCount(IntToString(request.chapterCount)) == Some(request.chapterCount)
    ensures NormaliseAnthropic(FormOf(request)) == Success(request)
  {
    StripUnchanged(request.topic);
    OrDefaultKeeps(request.title, TitlePrefix + request.topic);
    OrDefaultKeeps(request.author, DefaultAuthor);
    OrDefaultKeeps(request.cover, DefaultCover);
    StableOutput(request.output);
    NormalisedFields(FormOf(request), request);
  }

  /** A form with a topic whose count is not a positive integer `int()` reads is rejected for its count. */
  lemma CountRejected(form: Form)
    requires Strip(form.topic) != [] && PositiveCount(form.chapters).None?
    ensures NormaliseAnthropic(form) == Failure(ChaptersNotPositive)
  {
  }

  /**
   * The OpenAI form: every entry is stripped and only a chapter count that
   * `int()` rejects stops the request.
   */
  function NormaliseOpenAi(form: Form): (r: Result<BookRequest, InputError>)
    ensures r.Failure? <==> ParseInt(Strip(form.chapters)).None?
    ensures r.Failure? ==> r.error == ChaptersNotInteger
    ensures r.Success? ==>
      r.value == BookRequest(Strip(form.topic), Strip(form.title), Strip(form.author), Strip(form.output),
                             ParseInt(Strip(form.chapters)).value, Strip(form.cover))
  {
    var topic := Strip(form.topic);
    var title := Strip(form.title);
    var author := Strip(form.author);
    var count := ParseInt(Strip(form.chapters));
    if count.None? then Failure(ChaptersNotInteger)
    else
      var output := Strip(form.output);
      var cover := Strip(form.cover);
      Success(BookRequest(topic, title, author, output, count.value, cover))
  }

  /**
   * The OpenAI form passes any integer count `int()` reads (zero and
   * negative ones included), an empty topic and an output name without
   * `.epub` through unchanged.
   */
  lemma OpenAiPassesThrough(request: BookRequest)
    requires Trimmed(request.topic) && Trimmed(request.title) && Trimmed(request.author)
    requires Trimmed(request.output) && Trimmed(request.cover)
    ensures NormaliseOpenAi(FormOf(request))
         == if WithinStrDigits(request.chapterCount) then Success(request) else Failure(ChaptersNotInteger)
  {
    var form := FormOf(request);
    assert ParseInt(Strip(form.chapters))
        == if WithinStrDigits(request.chapterCount) then Some(request.chapterCount) else None by {
      StripUnchanged(form.chapters);
      ParseIntRoundTrip(request.chapterCount);
    }
    if WithinStrDigits(request.chapterCount) {
      StripUnchanged(request.topic);
      StripUnchanged(request.title);
      StripUnchanged(request.author);
      StripUnchanged(request.output);
      StripUnchanged(request.cover);
    }
  }
}
