# Book Creator, modelled in Dafny

Book Creator is a pair of desktop scripts that write a book with a language
model. `book_gen_anth.py` uses Anthropic's client; `book_creation_og.py` uses
OpenAI's. Each script reads a topic and a few settings from a form. It asks the
model for a JSON outline of chapter titles, then for one chapter per title. It
renders every chapter as an HTML fragment, fetches a cover image from a
placeholder service (with a second service as fallback), and packs everything
into an EPUB file.

This project models the deterministic logic between those outside calls:

- locating the JSON text in a fenced outline reply;
- forcing the parsed title list to the requested length;
- the synthetic titles, or the error, when the outline cannot be parsed;
- the chapter fragments and their in-order assembly;
- the EPUB content document;
- the cover URLs and the order in which the two services are tried;
- the chain of fallback models the Anthropic script tries after a "404" error;
- the normalisation of the form entries.

The language-model client, `json.loads` and `requests.get` are function
parameters (`Oracles`). The proofs hold for every such function, so for any
answer each request might get; but a function gives the same answer to the
same request every time (see "## Left out").

Modules, one per file:

- `Wrappers`: `Option` and `Result`.
- `Text`: the Python string operations the scripts rely on.
  - `str.split` is cut at the first occurrence, then recursively.
  - `str.strip` uses the full `str.isspace` set.
  - `int()` accepts a sign and single underscores between ASCII digits, and
    at most 4300 digits.
  - `str(n)` and `os.path.basename` are modelled too.
- `Oracles`: the outcomes of the outside calls.
- `Outline`: fence extraction, the outline request, and the repair to `n`
  titles. The repair is a function (`Repaired`) and the loop the scripts run
  (`RepairOutline`).
- `Chapters`: fragment rendering and the chapter loop (`GenerateChapters`),
  proved against the `ChapterRun` specification.
- `ModelFallback`: `model_specific_call`'s ordered list of candidate models.
- `Cover`: cover URLs and the two-service fallback.
- `Epub`: the content document and the assembled book.
- `Inputs`: what `run_book_creation` does with the form in each script.
- `Process`: the cover and compile steps of `create_book_process`.
- `Anthropic`, `OpenAi`: each script's `generate_book_content` and book run.

Where the two scripts behave differently, the model follows the code:

- When the Anthropic outline cannot be parsed, or is not a list, the titles
  are `Chapter i: {topic} - Part i` for i = 1..n. They are not the
  `Chapter k` placeholders used to pad a short list.
- The OpenAI script raises on such an outline. It never makes up titles.
- The OpenAI script never rejects a count of zero or below. The repair
  applies Python's `chapters[:n]`, so a negative `n` drops the last `-n`
  titles, and a count of zero gives no chapters at all.
- The Anthropic extraction takes the text after the FIRST json fence, up to
  the next fence. A second json fence in that text cuts it first
  (`ExtractJsonFencedGeneral`). For example, a run of four or five backticks
  before the second json fence leaves one or two stray backticks at the end
  of the extracted text, never a whole fence, since the next split cuts at a
  fence.
- A plain fence around a text that starts with `json` is read as a json
  fence, so the tag is dropped; any other backtick-free text in plain fences
  reaches the parser stripped (`PlainFencedAndBareAgree`).
- Every newline in a chapter reply starts a new paragraph. A blank line
  therefore gives an empty `<p></p>`; paragraphs are not split on blank lines.

## Model

| member | source | states |
|---|---|---|
| `Text.Split` | book_gen_anth.py:104 | `str.split` gives at least one piece, and two or more exactly when the separator occurs |
| `Text.FindFirst` | book_gen_anth.py:103 | the index found is an occurrence of the pattern with none before it; no index means the pattern occurs nowhere |
| `Text.JoinSplit` | book_gen_anth.py:104 | joining the pieces of a split with the separator gives back the original text |
| `Text.SplitSecond` | book_gen_anth.py:107 | the second piece of a split is the text after the first separator, up to the next one |
| `Text.Strip` | book_gen_anth.py:329 | `strip()` never lengthens its text and leaves no whitespace at either end |
| `Text.StripKeepsMiddle` | book_gen_anth.py:329 | the stripped text is a contiguous part of the entry, with only whitespace removed around it |
| `Text.StripIdempotent` | book_gen_anth.py:329-331 | stripping twice equals stripping once |
| `Text.NatToStringRoundTrip` | book_gen_anth.py:120 | the decimal digits `str(k)` writes read back as `k` |
| `Text.IntToString` | book_gen_anth.py:95 | `str(n)` is non-empty, starts with `-` exactly when `n` is negative, and has no surrounding whitespace |
| `Text.ParseIntRoundTrip` | book_gen_anth.py:348 | `int()` of the text `str(n)` writes is `n` for every integer of at most 4300 digits, negative ones included; a longer one is rejected by `int()` |
| `Text.ParseInt` | book_gen_anth.py:348 | `int()` of a stripped entry: a value only for an optionally signed ASCII numeral of at most 4300 digits, and that value prints back within the same limit |
| `Text.NatToStringNoLonger` | book_gen_anth.py:348 | a numeral's value never prints with more digits than the numeral has, so whatever `int()` accepts, `str()` can write |
| `Text.DigitRunUnique` | book_gen_anth.py:124 | a number written before a non-digit separator is read back uniquely |
| `Text.BaseName` | book_gen_anth.py:198 | `os.path.basename` is the suffix after the last `/`, with no `/` in it |
| `Outline.ExtractJson` | book_gen_anth.py:103-110 | a reply without any fence reaches the parser unchanged |
| `Outline.OutlinePrompt` | book_gen_anth.py:94-98 | the outline request opens with the fixed text, then the requested count written so that `int()` reads it back, then the topic between the fixed texts, and ends with the instructions |
| `Outline.ExtractJsonFenced` | book_gen_anth.py:103-105 | with a json fence and no second one, the parser gets the stripped text after the first json fence, up to the next fence |
| `Outline.ExtractJsonFencedGeneral` | book_gen_anth.py:103-105 | in general the text after the first json fence is cut at the next json fence, then at the next fence, then stripped |
| `Outline.ExtractJsonPlainFence` | book_gen_anth.py:106-108 | with only plain fences, the parser gets the stripped text between the first two fences |
| `Outline.NoJsonFenceInPlainBlock` | book_gen_anth.py:103 | a backtick-free text between two plain fences contains no json fence unless it starts with the `json` tag |
| `Outline.PlainFencedAndBareAgree` | book_gen_anth.py:106-108 | a backtick-free list wrapped in plain fences, not starting with `json`, reaches the parser as the stripped bare list |
| `Outline.FencedAndBareAgree` | book_gen_anth.py:103-110 | a backtick-free list wrapped in a json fence reaches the parser as the stripped bare list; sent bare, it reaches the parser unchanged |
| `Outline.SlicePrefix` | book_gen_anth.py:117 | Python's `s[:n]`: the first `n` items, all items when `n` is larger, and the last `-n` dropped when `n` is negative |
| `Outline.PlaceholderNumber` | book_gen_anth.py:120 | a padding title is `Chapter ` followed by its position, and that number reads back with `int()` |
| `Outline.Repaired` | book_gen_anth.py:114-120 | exactly `n` titles; the parsed items in order at the front; `Chapter k` at every padded position k |
| `Outline.RepairedIdempotent` | book_gen_anth.py:114-120 | repairing an already repaired list changes nothing |
| `Outline.RepairOutline` | book_creation_og.py:99-105 | the truncating slice and the appending `while` loop produce exactly `Repaired(items, n)` |
| `Chapters.ReplaceNewlinesIsSplitJoin` | book_gen_anth.py:140 | replacing every newline by `</p>\n<p>` is splitting at newlines and joining with `</p>\n<p>` |
| `Chapters.ReplaceNewlines` | book_gen_anth.py:140 | the replacement never shortens the reply, and a reply without newlines is kept as it is |
| `Chapters.OneParagraphPerLine` | book_creation_og.py:121 | the chapter body is one `<p>…</p>` per line of the reply, joined by newlines; a one-line reply is kept as it is |
| `Chapters.FragmentLayout` | book_gen_anth.py:140 | a chapter's markup is its `<h2>Chapter k: title</h2>` line, then one `<p>` element per line of the reply, joined by newlines |
| `Chapters.Content` | book_gen_anth.py:127-144 | the content is empty exactly when the outline has no chapters |
| `Chapters.ContentAppend` | book_gen_anth.py:127-141 | content over two runs of titles is the first run's content followed by the second's, numbered on from where the first ended |
| `Chapters.LinesAppend` | book_gen_anth.py:141 | appending each fragment and a newline over two runs of fragments gives the first run's text followed by the second's |
| `Chapters.Fragments` | book_gen_anth.py:128-140 | one fragment per title, in outline order |
| `Chapters.ContentSnoc` | book_gen_anth.py:140-141 | one more loop iteration appends exactly one fragment, numbered after the others, and a newline |
| `Chapters.ContentOrder` | book_creation_og.py:110-122 | chapter i's fragment stands after the content of chapters 1..i-1 and before the rest |
| `Chapters.ContentSplitAt` | book_gen_anth.py:127-141 | the content is that of the chapters before position i, followed by that of the rest, numbered on from i + 1 |
| `Chapters.ContentFromHead` | book_gen_anth.py:139-141 | the content of a run starts with its first chapter's fragment and a newline |
| `Chapters.ChapterRunUnique` | book_gen_anth.py:127-144 | the chapter loop has exactly one outcome for given titles and replies |
| `Chapters.GenerateChapters` | book_gen_anth.py:127-144 | one request per title, in outline order; the first failing request ends the loop with its error; otherwise the content is every fragment plus newline, in order |
| `ModelFallback.TryInOrder` | book_gen_anth.py:398-451 | the candidates are tried in order, each only after all earlier ones failed; the first success is returned; when all fail, the last error is raised |
| `ModelFallback.TryInOrderFirstSuccess` | book_gen_anth.py:398-451 | the first model to answer is the one whose reply is returned, with every earlier one tried |
| `ModelFallback.ModelSpecificCall` | book_gen_anth.py:380-451 | the selected model is asked first and its answer returned; an error without "404" is raised at once; after a "404", opus, haiku and instant are tried in that order, and if all fail, instant's error is raised |
| `ModelFallback.CallModel` | book_gen_anth.py:380-393 | every call goes to the selected model first: its answer is returned as it is, and an error comes back only after the selected model failed |
| `Cover.EncodeTopic` | book_gen_anth.py:153 | the URL text has the topic's length, with every space replaced by `+` and every other character kept |
| `Cover.EncodeTopicRoundTrip` | book_creation_og.py:134 | for a topic without `+`, the URL text decodes back to the topic |
| `Cover.PrimaryUrl` | book_gen_anth.py:152-154 | the primary service's base followed by the encoded topic, with no space after the base |
| `Cover.SecondaryUrl` | book_gen_anth.py:161-162 | the fallback service's base followed by the same encoded topic, with no space after the base |
| `Cover.UrlsShareText` | book_gen_anth.py:152-162 | both services receive the same encoded text, and it has no spaces |
| `Cover.FetchCover` | book_gen_anth.py:152-169 | the primary URL is fetched first; the secondary only after the primary fails; the image is the body of the fetch that succeeded; when both fail, the secondary's error is raised |
| `Epub.ChapterDocument` | book_gen_anth.py:193 | the document is `<h1>`, the title, `</h1>` and a newline, then the content |
| `Epub.DocumentChapterOrder` | book_creation_og.py:173 | in the document, the title heading is followed by the chapters' fragments in outline order |
| `Inputs.WithEpubSuffix` | book_gen_anth.py:356-360 | the output name ends with `.epub`, keeps the entry as its prefix, and is unchanged when it already ends with `.epub` |
| `Inputs.WithEpubSuffixIdempotent` | book_gen_anth.py:357-358 | appending the suffix twice equals appending it once |
| `Inputs.OrDefault` | book_gen_anth.py:339-345 | a blank entry becomes the default; any other entry is used stripped |
| `Inputs.PositiveCount` | book_gen_anth.py:348-350 | a count is accepted exactly when `int()` of the stripped entry succeeds (at most 4300 digits) with a value above zero, and it is that value |
| `Inputs.StableCount` | book_gen_anth.py:348-350 | a positive count written back as `str(n)` is accepted again as the same count, unless it has more than 4300 digits |
| `Inputs.NormaliseAnthropic` | book_gen_anth.py:324-365 | an empty topic, or a count that is not a positive integer `int()` reads (at most 4300 digits), is rejected with its message; otherwise title, author and cover are defaulted and `.epub` is appended |
| `Inputs.NormaliseAnthropicStable` | book_gen_anth.py:339-365 | submitting the values written back into the form gives the same request again: normalising twice equals normalising once |
| `Inputs.AcceptedRequestStable` | book_gen_anth.py:329-365 | a request whose values are already normal is accepted unchanged from its own form; only a count of more than 4300 digits is rejected, with the count message |
| `Inputs.CountRejected` | book_gen_anth.py:348-354 | with a topic present, a count that is not a positive integer `int()` reads is rejected with the count message |
| `Inputs.NormaliseOpenAi` | book_creation_og.py:275-290 | only a count that `int()` rejects (including one of more than 4300 digits) stops the run; every entry is passed on stripped |
| `Inputs.OpenAiPassesThrough` | book_creation_og.py:280-290 | an empty topic, a count of zero or below, and an output name without `.epub` all pass through unchanged; only a count of more than 4300 digits stops the run |
| `Process.FinishBook` | book_gen_anth.py:216-226 | no cover is fetched after a content error; a book is written exactly when the content succeeded and one of the two cover fetches did; it holds the content under the `<h1>` title and the fetched image |
| `Anthropic.FallbackTitlesDistinct` | book_gen_anth.py:124 | the synthetic outline has `n` titles, `Chapter i: {topic} - Part i` at position i, no two alike |
| `Anthropic.FallbackTitles` | book_gen_anth.py:124 | one synthetic title per requested chapter, none for a count below one, the k-th numbered k |
| `Anthropic.FallbackTitleInjective` | book_gen_anth.py:124 | different chapter numbers give different synthetic titles |
| `Anthropic.OutlineTitles` | book_gen_anth.py:101-125 | no parse outcome raises: there are exactly `n` titles, the repaired list for a list and the synthetic titles otherwise |
| `Anthropic.OutlineFenceInsensitive` | book_gen_anth.py:103-110 | a json-fenced list and the same list sent bare give the same titles |
| `Anthropic.OutlinePlainFenceInsensitive` | book_gen_anth.py:106-110 | a list in plain fences, not starting with `json`, and the same list sent bare give the same titles |
| `Anthropic.ChapterPrompt` | book_gen_anth.py:130-136 | the chapter request opens with the fixed text, names the topic, then the title, and ends with this script's instructions |
| `Anthropic.GenerateContentWith` | book_gen_anth.py:87-144 | for any outline and chapter request texts: a failed outline request ends the run with no chapter request; otherwise the run is the outline step followed by the chapter loop, with `n` chapters when it succeeds |
| `Anthropic.GenerateBookContent` | book_gen_anth.py:87-144 | a failed outline request ends the run with no chapter request; otherwise the titles come from the outline and one chapter request is made per title, in order, with `n` chapters when the run succeeds |
| `Anthropic.ContentRunChapters` | book_gen_anth.py:127-144 | after a successful run, request k is chapter k's prompt and the content holds chapter k's fragment between the earlier and the later chapters |
| `Anthropic.CreateBookProcess` | book_gen_anth.py:378-463 | the run from the form sends every request through the selected model's fallback chain, then fetches the cover and compiles the book |
| `OpenAi.StrippedReply` | book_creation_og.py:71 | a reply's text is handed on stripped; an error is passed on unchanged |
| `OpenAi.CallOpenAi` | book_creation_og.py:59-76 | every request goes to `gpt-4`; an error is passed on unchanged, and an answer is handed on stripped |
| `OpenAi.ChapterPrompt` | book_creation_og.py:113-117 | the chapter request opens with the same fixed text as the Anthropic one, names the topic, then the title, and ends with this script's instructions |
| `OpenAi.OutlineTitles` | book_creation_og.py:95-108 | the whole reply is parsed; a list gives exactly `n` repaired titles; a non-list or a parse error is raised with its message |
| `OpenAi.OutlineVariantsCompared` | book_creation_og.py:96-108 | on a reply without fences both scripts settle on the same titles for a list; where this script raises, the Anthropic script uses its synthetic titles |
| `OpenAi.GenerateContentWith` | book_creation_og.py:82-125 | for any outline and chapter request texts: an outline request error, a non-list or a parse error ends the run with no chapter request; otherwise the repaired titles go through the chapter loop |
| `OpenAi.GenerateBookContent` | book_creation_og.py:82-125 | a failed outline request or an unusable outline ends the run with no chapter request; otherwise one chapter request per title, in order |
| `OpenAi.CreateBookProcess` | book_creation_og.py:196-207 | content, then cover, then compile, with the fixed `gpt-4` client |

## Left out

- The Tkinter form and its widgets, the message boxes, the log sink that
  writes into the text widget, and all logging. Only the message texts of the
  input errors are kept (`InputError.Message`).
- The worker thread and the `master.after` callbacks that re-enable the
  button.
- The model clients, `json.loads` and `requests.get` are oracles given as
  parameters. Network errors, timeouts and HTTP status codes are reduced to
  "succeeded with a body" or "failed with a message".
- JSON grammar. A parsed list is a list of strings. A list with non-string
  items, which the f-strings would render through `str()`, is not
  distinguished.
- File input and output. The cover bytes are assumed to be written and read
  back unchanged, and `write_epub` to succeed. A failure there, for example
  the empty cover name the OpenAI form lets through, is not modelled.
- ebooklib packaging beyond the content document and the book's fields: the
  spine, the table of contents, the NCX and navigation items, and the archive
  format.
- `time.sleep(1)` between chapter requests, the `temperature` setting and the
  system prompt. The model request carries only the model name, the prompt
  and the token limit.
- The global swap of `call_anthropic_api` for `model_specific_call`. It is
  modelled by passing the selected model's call (`CallModel`) to the content
  generation. The unswapped `call_anthropic_api`, with its fixed model, is
  never reached from the form and is not modelled.
- The outside calls are deterministic functions of their request. The
  scripts sample at temperature 0.7, so the same prompt sent twice may get
  different answers. The model cannot express that: two equal chapter
  prompts (from a repeated title, or a parsed `Chapter 3` next to the padded
  one) get the same reply text, and the same error; and when the selected
  model is opus, asking opus again in the fallback list gets the same answer
  as the first time. Numbering the calls would lift this.
- IntToString: writes every integer, where Python's `str()` raises past 4300
  digits. The only integers converted are counts `int()` accepted, which
  have at most 4300 digits (`ParseInt`), and chapter numbers up to them.
- The 4300-digit limit is Python's default; changing it with
  `sys.set_int_max_str_digits` or `PYTHONINTMAXSTRDIGITS` is not modelled.
- BaseName: follows POSIX `os.path.basename`, cutting only at `/`. On
  Windows, Python also cuts at `\` and after a drive letter's colon.
- `int()` on non-ASCII decimal digits, which Python also accepts, is not
  modelled; only ASCII digits are read.
- The chapter fragment's f-string has a backslash inside its expression part.
  Python before 3.12 rejects this at compile time. The model assumes an
  interpreter that accepts it.
