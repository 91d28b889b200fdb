/**
 * Rendering each chapter reply as a markup fragment and accumulating the
 * fragments, in outline order, into the book's content.
 */
module Chapters {
  import opened Wrappers
  import opened Text
  import opened Oracles

  /** The token limit of each chapter request. */
  const ChapterTokens: nat := 2000

  /** The chapter requests of both scripts open the same way. */
  const ChapterOpening := "Write a detailed and narrative chapter on '"
  const ChapterTitleIntro := "'. The chapter title is '"

  const ParagraphBreak := "</p>\n<p>"

  /** `text.replace(chr(10), '</p>\n<p>')`. */
  function ReplaceNewlines(text: string): (r: string)
    ensures |r| >= |text|
    ensures (forall k :: 0 <= k < |text| ==> text[k] != '\n') ==> r == text
  {
    if text == [] then []
    else (if text[0] == '\n' then ParagraphBreak else [text[0]]) + ReplaceNewlines(text[1..])
  }

  /** How a split by a one-character separator sees a leading character that is not the separator. */
  lemma SplitCons(c: char, rest: string, sep: char)
    requires c != sep
    ensures var tail := Split(rest, [sep]);
      Split([c] + rest, [sep]) == [[c] + tail[0]] + tail[1..]
  {
    var s := [c] + rest;
    assert s[1..] == rest;
    match FindFirst(rest, [sep])
    case None =>
    case Some(i) =>
      assert FindFirst(s, [sep]) == Some(i + 1);
      assert s[..i + 1] == [c] + rest[..i];
      assert s[i + 2..] == rest[i + 1..];
  }

  /** Python defines `replace` as splitting at the pattern and joining with the replacement. */
  lemma {:induction false} ReplaceNewlinesIsSplitJoin(text: string)
    ensures ReplaceNewlines(text) == Join(Split(text, "\n"), ParagraphBreak)
    decreases |text|
  {
    if text != [] {
      var rest := text[1..];
      ReplaceNewlinesIsSplitJoin(rest);
      var tail := Split(rest, "\n");
      assert text == [text[0]] + rest;
      if text[0] == '\n' {
        assert OccursAt(text, "\n", 0);
        assert Split(text, "\n") == [""] + tail;
        JoinCons("", tail, ParagraphBreak);
        assert ReplaceNewlines(text) == ParagraphBreak + ReplaceNewlines(rest);
      } else {
        SplitCons(text[0], rest, '\n');
        assert Split(text, "\n") == [[text[0]] + tail[0]] + tail[1..];
        JoinExtendFirst([text[0]], tail, ParagraphBreak);
        assert ReplaceNewlines(text) == [text[0]] + ReplaceNewlines(rest);
      }
    }
  }

  /** Each line wrapped in its own paragraph. */
  function Paragraphs(lines: seq<string>): seq<string>
  {
    seq(|lines|, i requires 0 <= i < |lines| => "<p>" + lines[i] + "</p>")
  }

  lemma {:induction false} WrapJoin(lines: seq<string>)
    requires lines != []
    ensures "<p>" + Join(lines, ParagraphBreak) + "</p>" == Join(Paragraphs(lines), "\n")
    decreases |lines|
  {
    if |lines| > 1 {
      WrapJoin(lines[1..]);
      assert Paragraphs(lines)[1..] == Paragraphs(lines[1..]);
    }
  }

  /**
   * A chapter body becomes one `<p>` element per line of the reply, the
   * elements separated by newlines; a reply without newlines is one paragraph.
   */
  lemma OneParagraphPerLine(text: string)
    ensures "<p>" + ReplaceNewlines(text) + "</p>" == Join(Paragraphs(Split(text, "\n")), "\n")
    ensures !Contains(text, "\n") ==> ReplaceNewlines(text) == text
  {
    ReplaceNewlinesIsSplitJoin(text);
    WrapJoin(Split(text, "\n"));
  }

  /** The heading line of chapter `index` (1-based). */
  function Heading(index: nat, title: string): string
  {
    "<h2>Chapter " + NatToString(index) + ": " + title + "</h2>\n"
  }

  /** The markup for chapter `index` (1-based) with the given title and reply text. */
  function Fragment(index: nat, title: string, text: string): string
  {
    "<h2>Chapter " + NatToString(index) + ": " + title + "</h2>\n<p>" + ReplaceNewlines(text) + "</p>"
  }

  /** A chapter's markup is its heading line, then one paragraph per line of the reply. */
  lemma FragmentLayout(index: nat, title: string, text: string)
    ensures Fragment(index, title, text) == Heading(index, title) + Join(Paragraphs(Split(text, "\n")), "\n")
  {
    OneParagraphPerLine(text);
  }

  /** Each part followed by a newline, in order. */
  function Lines(parts: seq<string>): string
  {
    if parts == [] then "" else parts[0] + "\n" + Lines(parts[1..])
  }

  /** Only no parts at all give no text: each part brings at least its newline. */
  lemma LinesEmpty(parts: seq<string>)
    ensures Lines(parts) == [] <==> parts == []
  {
  }

  /** The lines of two runs of parts are the lines of the first run, then those of the second. */
  lemma {:induction false} LinesAppend(p: seq<string>, q: seq<string>)
    ensures Lines(p + q) == Lines(p) + Lines(q)
    decreases |p|
  {
    if p == [] {
      assert p + q == q;
    } else {
      assert (p + q)[1..] == p[1..] + q;
      LinesAppend(p[1..], q);
    }
  }

  /** The fragments of the given chapters, numbered from `first`. */
  function Fragments(first: nat, titles: seq<string>, texts: seq<string>): (parts: seq<string>)
    requires |titles| == |texts|
    ensures |parts| == |titles|
  {
    seq(|titles|, k requires 0 <= k < |titles| => Fragment(first + k, titles[k], texts[k]))
  }

  /** The fragments, each followed by a newline, numbered from `first`. */
  function ContentFrom(first: nat, titles: seq<string>, texts: seq<string>): string
    requires |titles| == |texts|
  {
    Lines(Fragments(first, titles, texts))
  }

  /** The book content for an outline and the reply text of each of its chapters. */
  function Content(titles: seq<string>, texts: seq<string>): (r: string)
    requires |titles| == |texts|
    ensures r == [] <==> titles == []
  {
    LinesEmpty(Fragments(1, titles, texts));
    ContentFrom(1, titles, texts)
  }

  /** Content for two consecutive parts of an outline is the content of each, in order. */
  lemma ContentAppend(first: nat, t1: seq<string>, x1: seq<string>, t2: seq<string>, x2: seq<string>)
    requires |t1| == |x1| && |t2| == |x2|
    ensures ContentFrom(first, t1 + t2, x1 + x2) == ContentFrom(first, t1, x1) + ContentFrom(first + |t1|, t2, x2)
  {
    assert Fragments(first, t1 + t2, x1 + x2) == Fragments(first, t1, x1) + Fragments(first + |t1|, t2, x2);
    LinesAppend(Fragments(first, t1, x1), Fragments(first + |t1|, t2, x2));
  }

  /** Appending one chapter appends its fragment and a newline. */
  lemma ContentSnoc(titles: seq<string>, texts: seq<string>, title: string, text: string)
    requires |titles| == |texts|
    ensures Content(titles + [title], texts + [text]) == Content(titles, texts) + Fragment(|titles| + 1, title, text) + "\n"
  {
    ContentAppend(1, titles, texts, [title], [text]);
    var last := Fragment(|titles| + 1, title, text);
    assert Fragments(|titles| + 1, [title], [text]) == [last];
    assert [last][1..] == [];
    assert Lines([last]) == last + "\n" + Lines([]);
  }

  /**
   * Chapter `i` of the outline sits, numbered `i + 1`, right after the
   * chapters before it and right before the chapters after it.
   */
  lemma ContentOrder(titles: seq<string>, texts: seq<string>, i: nat)
    requires |titles| == |texts| && i < |titles|
    ensures Content(titles, texts)
         == Content(titles[..i], texts[..i]) + Fragment(i + 1, titles[i], texts[i]) + "\n"
            + ContentFrom(i + 2, titles[i + 1..], texts[i + 1..])
  {
    ContentSplitAt(titles, texts, i);
    ContentFromHead(i + 1, titles[i..], texts[i..]);
    assert titles[i..][1..] == titles[i + 1..] && texts[i..][1..] == texts[i + 1..];
  }

  /** The content is that of the chapters before `i` followed by that of the rest, numbered on. */
  lemma ContentSplitAt(titles: seq<string>, texts: seq<string>, i: nat)
    requires |titles| == |texts| && i <= |titles|
    ensures Content(titles, texts) == Content(titles[..i], texts[..i]) + ContentFrom(i + 1, titles[i..], texts[i..])
  {
    assert titles == titles[..i] + titles[i..];
    assert texts == texts[..i] + texts[i..];
    ContentAppend(1, titles[..i], texts[..i], titles[i..], texts[i..]);
  }

  /** Content from a first chapter on is that chapter's fragment and a newline, then the rest. */
  lemma ContentFromHead(first: nat, titles: seq<string>, texts: seq<string>)
    requires |titles| == |texts| && titles != []
    ensures ContentFrom(first, titles, texts)
         == Fragment(first, titles[0], texts[0]) + "\n" + ContentFrom(first + 1, titles[1..], texts[1..])
  {
    var parts := Fragments(first, titles, texts);
    assert parts[1..] == Fragments(first + 1, titles[1..], texts[1..]);
  }

  /** The reply text of each issued chapter call. */
  function Texts(issued: seq<string>, call: string -> Reply): (texts: seq<string>)
  {
    seq(|issued|, i requires 0 <= i < |issued| => TextOf(call(issued[i])))
  }

  /**
   * What the chapter loop does: it issues the chapter prompts in outline
   * order, stops at the first call that raises and re-raises its error, and
   * otherwise returns the content built from every reply.
   */
  predicate ChapterRun(titles: seq<string>, prompt: string -> string, call: string -> Reply,
                       result: Result<string, string>, issued: seq<string>)
  {
    && |issued| <= |titles|
    && (forall i :: 0 <= i < |issued| ==> issued[i] == prompt(titles[i]))
    && (forall i :: 0 <= i < |issued| - 1 ==> call(issued[i]).Text?)
    && (result.Success? ==>
          && |issued| == |titles|
          && (forall i :: 0 <= i < |issued| ==> call(issued[i]).Text?)
          && result.value == Content(titles, Texts(issued, call)))
    && (result.Failure? ==> issued != [] && call(issued[|issued| - 1]) == Failed(result.error))
  }

  /** `ChapterRun` leaves no freedom: for given titles, prompts and replies there is one outcome. */
  lemma ChapterRunUnique(titles: seq<string>, prompt: string -> string, call: string -> Reply,
                         r1: Result<string, string>, issued1: seq<string>,
                         r2: Result<string, string>, issued2: seq<string>)
    requires ChapterRun(titles, prompt, call, r1, issued1)
    requires ChapterRun(titles, prompt, call, r2, issued2)
    ensures r1 == r2 && issued1 == issued2
  {
    assert |issued1| == |issued2|;
    assert issued1 == issued2;
  }

  lemma TextsSnoc(issued: seq<string>, p: string, call: string -> Reply)
    ensures Texts(issued + [p], call) == Texts(issued, call) + [TextOf(call(p))]
  {
  }

  /**
   * The chapter loop: one call per title, in order, each reply rendered as a
   * fragment and appended, with a newline, to the content built so far.
   */
  method GenerateChapters(titles: seq<string>, prompt: string -> string, call: string -> Reply)
    returns (result: Result<string, string>, issued: seq<string>)
    ensures ChapterRun(titles, prompt, call, result, issued)
  {
    var fullContent := "";
    issued := [];
    for i := 0 to |titles|
      invariant |issued| == i
      invariant forall k :: 0 <= k < i ==> issued[k] == prompt(titles[k]) && call(issued[k]).Text?
      invariant fullContent == Content(titles[..i], Texts(issued, call))
    {
      var chapterPrompt := prompt(titles[i]);
      ghost var before := issued;
      issued := issued + [chapterPrompt];
      var reply := call(chapterPrompt);
      if reply.Failed? {
        return Failure(reply.message), issued;
      }
      var chapterHtml := Fragment(i + 1, titles[i], reply.text);
      assert titles[..i + 1] == titles[..i] + [titles[i]];
      TextsSnoc(before, chapterPrompt, call);
      ContentSnoc(titles[..i], Texts(before, call), titles[i], reply.text);
      fullContent := fullContent + chapterHtml + "\n";
    }
    assert titles[..|titles|] == titles;
    result := Success(fullContent);
  }
}
