/**
 * `create_book_process` after the content is known: fetch the cover, then
 * assemble the book. Any step that raises ends the process with that error.
 */
module Process {
  import opened Wrappers
  import opened Oracles
  import opened Cover
  import opened Epub
  import opened Inputs

  /** What a run leaves behind: the book written or the error logged, and the cover URLs requested. */
  datatype Outcome = Outcome(book: Result<EpubBook, string>, coverUrls: seq<string>)

  /**
   * The cover and compile steps. The cover bytes are written to the cover
   * file and read back by the compile step, so the image in the book is the
   * body of the fetch that succeeded.
   */
  function FinishBook(request: BookRequest, content: Result<string, string>, get: string -> FetchReply): (o: Outcome)
    ensures content.Failure? ==> o == Outcome(Failure(content.error), [])
    ensures content.Success? ==> o.coverUrls == FetchCover(request.topic, get).urls
    ensures o.book.Success? <==>
      content.Success? && (get(PrimaryUrl(request.topic)).Fetched? || get(SecondaryUrl(request.topic)).Fetched?)
    ensures o.book.Success? ==>
      o.coverUrls != [] &&
      o.book.value == CompileBook(request.title, request.author, content.value, request.cover,
                                  get(o.coverUrls[|o.coverUrls| - 1]).content, request.output)
    ensures content.Success? && o.book.Failure? ==> o.book.error == get(SecondaryUrl(request.topic)).message
  {
    match content
    case Failure(e) => Outcome(Failure(e), [])
    case Success(text) =>
      var cover := FetchCover(request.topic, get);
      match cover.result
      case Failure(e) => Outcome(Failure(e), cover.urls)
      case Success(image) =>
        Outcome(Success(CompileBook(request.title, request.author, text, request.cover, image, request.output)),
                cover.urls)
  }
}
