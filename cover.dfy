/** The cover image request: a primary placeholder service and one fallback service. */
module Cover {
  import opened Wrappers
  import opened Oracles

  const PrimaryBase := "https://via.placeholder.com/600x800.png?text="
  const SecondaryBase := "https://dummyimage.com/600x800/cccccc/000000&text="

  /** `topic.replace(" ", "+")`. */
  function EncodeTopic(topic: string): (text: string)
    ensures |text| == |topic|
    ensures forall k :: 0 <= k < |text| ==> text[k] == (if topic[k] == ' ' then '+' else topic[k])
  {
    if topic == [] then []
    else [if topic[0] == ' ' then '+' else topic[0]] + EncodeTopic(topic[1..])
  }

  /** `text.replace("+", " ")`, undoing the encoding for topics without `+`. */
  function DecodeText(text: string): string
  {
    if text == [] then []
    else [if text[0] == '+' then ' ' else text[0]] + DecodeText(text[1..])
  }

  lemma {:induction false} EncodeTopicRoundTrip(topic: string)
    requires forall k :: 0 <= k < |topic| ==> topic[k] != '+'
    ensures DecodeText(EncodeTopic(topic)) == topic
    decreases |topic|
  {
    if topic != [] {
      EncodeTopicRoundTrip(topic[1..]);
      assert EncodeTopic(topic)[1..] == EncodeTopic(topic[1..]);
    }
  }

  /** The primary service's address: its base, then the encoded topic, with no space after the base. */
  function PrimaryUrl(topic: string): (url: string)
    ensures |url| == |PrimaryBase| + |topic|
    ensures url[..|PrimaryBase|] == PrimaryBase && url[|PrimaryBase|..] == EncodeTopic(topic)
    ensures forall k :: |PrimaryBase| <= k < |url| ==> url[k] != ' '
  {
    PrimaryBase + EncodeTopic(topic)
  }

  /** The fallback service's address, built the same way. */
  function SecondaryUrl(topic: string): (url: string)
    ensures |url| == |SecondaryBase| + |topic|
    ensures url[..|SecondaryBase|] == SecondaryBase && url[|SecondaryBase|..] == EncodeTopic(topic)
    ensures forall k :: |SecondaryBase| <= k < |url| ==> url[k] != ' '
  {
    SecondaryBase + EncodeTopic(topic)
  }

  /** Both services receive the same encoded topic, which has no spaces. */
  lemma UrlsShareText(topic: string)
    ensures PrimaryUrl(topic)[|PrimaryBase|..] == SecondaryUrl(topic)[|SecondaryBase|..] == EncodeTopic(topic)
    ensures forall k :: 0 <= k < |EncodeTopic(topic)| ==> EncodeTopic(topic)[k] != ' '
  {
  }

  /** The image bytes from one request, or the error it raised. */
  function AsResult(r: FetchReply): Result<seq<byte>, string>
  {
    match r
    case Fetched(content) => Success(content)
    case FetchFailed(message) => Failure(message)
  }

  datatype CoverFetch = CoverFetch(result: Result<seq<byte>, string>, urls: seq<string>)

  /**
   * `generate_book_cover` up to the file write: the primary service, and the
   * secondary service exactly once and only if the primary one failed.
   */
  function FetchCover(topic: string, get: string -> FetchReply): (f: CoverFetch)
    ensures 1 <= |f.urls| <= 2 && f.urls[0] == PrimaryUrl(topic)
    ensures get(PrimaryUrl(topic)).Fetched? ==> f == CoverFetch(Success(get(PrimaryUrl(topic)).content), [PrimaryUrl(topic)])
    ensures get(PrimaryUrl(topic)).FetchFailed? ==> f.urls == [PrimaryUrl(topic), SecondaryUrl(topic)]
    ensures f.result.Success? <==> get(PrimaryUrl(topic)).Fetched? || get(SecondaryUrl(topic)).Fetched?
    ensures f.result.Success? ==> f.result.value == get(f.urls[|f.urls| - 1]).content
    ensures f.result.Failure? ==> f.result.error == get(SecondaryUrl(topic)).message
  {
    var primary := PrimaryUrl(topic);
    match get(primary)
    case Fetched(content) => CoverFetch(Success(content), [primary])
    case FetchFailed(_) =>
      var secondary := SecondaryUrl(topic);
      CoverFetch(AsResult(get(secondary)), [primary, secondary])
  }
}
