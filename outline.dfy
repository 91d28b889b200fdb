/**
 * Turning the outline response into the list of chapter titles: locating the
 * JSON text inside a fenced reply and forcing the parsed list to exactly the
 * requested number of entries.
 */
module Outline {
  import opened Wrappers
  import opened Text

  /** The token limit of the outline request. */
  const OutlineTokens: nat := 500

  const OutlineOpening := "Generate a JSON array with exactly "
  const OutlineTopicIntro := " strings. Each string should be a concise chapter title for a book on the topic: '"
  const OutlineInstructions := "'. Do not include any extra text, numbering, or sub-chapter points. Return only the JSON array."

  /** The outline request, the same text in both scripts. */
  function OutlinePrompt(topic: string, n: int): (r: string)
    ensures |r| == |OutlineOpening| + |IntToString(n)| + |OutlineTopicIntro| + |topic| + |OutlineInstructions|
    ensures var start := |OutlineOpening|;
      && r[..start] == OutlineOpening
      && ParseInt(r[start..start + |IntToString(n)|]) == if WithinStrDigits(n) then Some(n) else None
    ensures var start := |OutlineOpening| + |IntToString(n)| + |OutlineTopicIntro|;
      r[start..start + |topic|] == topic && r[start + |topic|..] == OutlineInstructions
  {
    ParseIntRoundTrip(n);
    FiveParts(OutlineOpening, IntToString(n), OutlineTopicIntro, topic, OutlineInstructions);
    OutlineOpening + IntToString(n) + OutlineTopicIntro + topic + OutlineInstructions
  }

  const JsonFence := "```json"
  const Fence := "```"

  /** Every occurrence of the json fence is an occurrence of the plain fence. */
  lemma JsonFenceHasFence(s: string)
    requires Contains(s, JsonFence)
    ensures Contains(s, Fence)
  {
    var i := FindFirst(s, JsonFence).value;
    assert s[i..i + 3] == s[i..i + 7][..3];
    assert OccursAt(s, Fence, i);
  }

  /**
   * The text handed to the JSON parser: after the first json fence up to the
   * next fence, else between the first two fences, else the whole reply.
   */
  function ExtractJson(response: string): (json: string)
    ensures !Contains(response, Fence) ==> json == response
  {
    if Contains(response, JsonFence) then
      JsonFenceHasFence(response);
      Strip(Split(Split(response, JsonFence)[1], Fence)[0])
    else if Contains(response, Fence) then
      Strip(Split(Split(response, Fence)[1], Fence)[0])
    else
      response
  }

  /** The text of `s` before the first occurrence of `pat`, or all of `s`. */
  function UpTo(s: string, pat: string): (r: string)
    requires pat != []
    ensures r == Split(s, pat)[0]
    ensures !Contains(r, pat)
  {
    SplitHead(s, pat);
    SplitPiecesFree(s, pat, 0);
    match FindFirst(s, pat)
    case None => s
    case Some(i) => s[..i]
  }

  /** A text without the separator splits into itself alone. */
  lemma SplitWithout(s: string, sep: string)
    requires sep != [] && !Contains(s, sep)
    ensures Split(s, sep) == [s]
  {
  }

  /**
   * With a json fence at `i` and no second json fence after it, the parser
   * gets the stripped text from the fence up to the next plain fence.
   */
  lemma ExtractJsonFenced(response: string, i: nat)
    requires FindFirst(response, JsonFence) == Some(i)
    requires !Contains(response[i + |JsonFence|..], JsonFence)
    ensures ExtractJson(response) == Strip(UpTo(response[i + |JsonFence|..], Fence))
  {
    var after := response[i + |JsonFence|..];
    assert Split(response, JsonFence)[1] == after by {
      SplitSecond(response, JsonFence, i);
      SplitWithout(after, JsonFence);
    }
    assert ExtractJson(response) == Strip(Split(after, Fence)[0]);
  }

  /**
   * In general the text after the first json fence is cut at the next json
   * fence and then at the next plain fence, as the two `split` calls do.
   */
  lemma ExtractJsonFencedGeneral(response: string, i: nat)
    requires FindFirst(response, JsonFence) == Some(i)
    ensures ExtractJson(response) == Strip(UpTo(UpTo(response[i + |JsonFence|..], JsonFence), Fence))
  {
    SplitSecond(response, JsonFence, i);
  }

  /** With only plain fences, the parser gets the stripped text between the first two. */
  lemma ExtractJsonPlainFence(response: string, i: nat)
    requires !Contains(response, JsonFence)
    requires FindFirst(response, Fence) == Some(i)
    ensures ExtractJson(response) == Strip(UpTo(response[i + |Fence|..], Fence))
  {
    var after := response[i + |Fence|..];
    assert Split(response, Fence)[1] == UpTo(after, Fence) by {
      SplitSecond(response, Fence, i);
    }
    assert Split(UpTo(after, Fence), Fence)[0] == UpTo(after, Fence) by {
      SplitWithout(UpTo(after, Fence), Fence);
    }
    assert ExtractJson(response) == Strip(Split(Split(response, Fence)[1], Fence)[0]);
  }

  predicate NoBackticks(s: string)
  {
    forall k :: 0 <= k < |s| ==> s[k] != '`'
  }

  /** A fence cannot start inside a text that has no backticks. */
  lemma NoFenceInside(s: string, pat: string, j: int)
    requires NoBackticks(s) && pat != [] && pat[0] == '`'
    requires 0 <= j < |s|
    ensures !OccursAt(s, pat, j) && !OccursAt(s + Fence, pat, j)
  {
  }

  /** A text without backticks holds no fence, also when a closing fence follows it. */
  lemma NoFenceBefore(bare: string, pat: string)
    requires NoBackticks(bare) && pat != [] && pat[0] == '`'
    ensures !Contains(bare, pat)
    ensures forall j :: 0 <= j < |bare| ==> !OccursAt(bare + Fence, pat, j)
  {
    forall j | 0 <= j < |bare| ensures !OccursAt(bare, pat, j) && !OccursAt(bare + Fence, pat, j) {
      NoFenceInside(bare, pat, j);
    }
    assert forall j :: !OccursAt(bare, pat, j);
  }

  /** After a backtick-free text, the closing fence is the first fence. */
  lemma UpToClosingFence(bare: string)
    requires NoBackticks(bare)
    ensures UpTo(bare + Fence, Fence) == bare
    ensures !Contains(bare + Fence, JsonFence)
  {
    var after := bare + Fence;
    NoFenceBefore(bare, Fence);
    NoFenceBefore(bare, JsonFence);
    assert OccursAt(after, Fence, |bare|);
    assert forall j :: |bare| <= j ==> !OccursAt(after, JsonFence, j);
  }

  /**
   * A list wrapped in a json fence and the same list sent bare reach the
   * parser as the same text, up to surrounding whitespace.
   */
  lemma FencedAndBareAgree(bare: string)
    requires NoBackticks(bare)
    ensures ExtractJson(JsonFence + bare + Fence) == Strip(bare)
    ensures ExtractJson(bare) == bare
  {
    var response := JsonFence + bare + Fence;
    assert OccursAt(response, JsonFence, 0);
    assert response[|JsonFence|..] == bare + Fence;
    UpToClosingFence(bare);
    ExtractJsonFenced(response, 0);
    NoFenceBefore(bare, Fence);
  }

  /** The language tag that turns a plain fence into a json fence. */
  predicate StartsWithJsonTag(s: string)
  {
    |s| >= 4 && s[..4] == "json"
  }

  /** A backtick-free text between two plain fences holds no json fence, unless it starts with the tag. */
  lemma NoJsonFenceInPlainBlock(bare: string)
    requires NoBackticks(bare) && !StartsWithJsonTag(bare)
    ensures !Contains(Fence + bare + Fence, JsonFence)
  {
    var response := Fence + bare + Fence;
    assert response[3..3 + |bare|] == bare && response[3 + |bare|] == '`';
    forall j | 0 <= j ensures !OccursAt(response, JsonFence, j) {
      if j + |JsonFence| <= |response| {
        var window := response[j..j + |JsonFence|];
        if j == 0 {
          if |bare| >= 4 {
            assert window[3..] == response[3..3 + |bare|][..4];
          } else {
            assert window[3 + |bare|] == response[3 + |bare|];
          }
        } else if j < 3 {
          assert window[3 - j] == bare[0];
        } else {
          assert window[0] == bare[j - 3];
        }
      }
    }
  }

  /**
   * A list wrapped in a plain fence reaches the parser as the stripped bare
   * list, as long as it does not itself start with the `json` tag.
   */
  lemma PlainFencedAndBareAgree(bare: string)
    requires NoBackticks(bare) && !StartsWithJsonTag(bare)
    ensures ExtractJson(Fence + bare + Fence) == Strip(bare)
  {
    var response := Fence + bare + Fence;
    NoJsonFenceInPlainBlock(bare);
    assert OccursAt(response, Fence, 0);
    assert response[|Fence|..] == bare + Fence;
    UpToClosingFence(bare);
    ExtractJsonPlainFence(response, 0);
  }

  // ---------------------------------------------------------------------------
  // Forcing the title list to the requested length
  // ---------------------------------------------------------------------------

  /** Python's `s[:n]`: a negative `n` drops the last `-n` items. */
  function SlicePrefix<T>(s: seq<T>, n: int): (r: seq<T>)
    ensures 0 <= n <= |s| ==> r == s[..n]
    ensures n > |s| ==> r == s
    ensures n < 0 ==> |r| == (if |s| + n > 0 then |s| + n else 0) && r == s[..|r|]
  {
    if n >= 0 then s[..if n < |s| then n else |s|]
    else s[..if |s| + n > 0 then |s| + n else 0]
  }

  /** The synthetic title that fills position `k` (1-based) of a short outline. */
  function Placeholder(k: nat): string
  {
    "Chapter " + NatToString(k)
  }

  /** A padding title is `Chapter ` followed by its position, written so that it reads back. */
  lemma PlaceholderNumber(k: nat)
    ensures |Placeholder(k)| > 8 && Placeholder(k)[..8] == "Chapter "
    ensures ParseInt(Placeholder(k)[8..]) == if WithinStrDigits(k) then Some(k) else None
  {
    assert Placeholder(k)[8..] == IntToString(k);
    ParseIntRoundTrip(k);
  }

  /**
   * The outline repair both scripts apply to a parsed list: keep it when it
   * has exactly `n` entries, cut it to `chapters[:n]` when longer, and append
   * numbered placeholders when shorter.
   */
  function Repaired(items: seq<string>, n: int): (titles: seq<string>)
    ensures n >= 0 ==> |titles| == n
    ensures n >= 0 ==> forall k :: 0 <= k < |items| && k < n ==> titles[k] == items[k]
    ensures forall k :: |items| <= k < n ==> titles[k] == Placeholder(k + 1)
    ensures n < 0 ==> titles == items[..if |items| + n > 0 then |items| + n else 0]
  {
    if |items| == n then items
    else if |items| > n then SlicePrefix(items, n)
    else items + seq(n - |items|, j requires 0 <= j => Placeholder(|items| + j + 1))
  }

  /** Repairing an already repaired list changes nothing. */
  lemma RepairedIdempotent(items: seq<string>, n: nat)
    ensures Repaired(Repaired(items, n), n) == Repaired(items, n)
  {
  }

  /**
   * The repair as the scripts run it: a slice when the list is too long, and
   * a loop appending `"Chapter k"` for the next position while it is too short.
   */
  method RepairOutline(items: seq<string>, n: int) returns (chapters: seq<string>)
    ensures chapters == Repaired(items, n)
  {
    chapters := items;
    if |chapters| != n {
      if |chapters| > n {
        chapters := SlicePrefix(chapters, n);
      } else {
        while |chapters| < n
          invariant |items| <= |chapters| <= n
          invariant chapters[..|items|] == items
          invariant forall k :: |items| <= k < |chapters| ==> chapters[k] == Placeholder(k + 1)
          decreases n - |chapters|
        {
          chapters := chapters + [Placeholder(|chapters| + 1)];
        }
      }
    }
  }
}
