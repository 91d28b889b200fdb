/** The one EPUB content document and the package fields the scripts set. */
module Epub {
  import opened Text
  import opened Oracles
  import opened Chapters

  const Identifier := "id123456"
  const Language := "en"

  /** `f"<h1>{title}</h1>\n{content}"`. */
  function ChapterDocument(title: string, content: string): (doc: string)
    ensures |doc| == |title| + |content| + 10
    ensures doc[..4] == "<h1>" && doc[4..4 + |title|] == title && doc[4 + |title|..10 + |title|] == "</h1>\n"
    ensures doc[|doc| - |content|..] == content
  {
    "<h1>" + title + "</h1>\n" + content
  }

  /** In the document of a generated book, chapter `i` follows the title line and the chapters before it. */
  lemma DocumentChapterOrder(title: string, titles: seq<string>, texts: seq<string>, i: nat)
    requires |titles| == |texts| && i < |titles|
    ensures ChapterDocument(title, Content(titles, texts))
         == "<h1>" + title + "</h1>\n" + Content(titles[..i], texts[..i])
            + Fragment(i + 1, titles[i], texts[i]) + "\n" + ContentFrom(i + 2, titles[i + 1..], texts[i + 1..])
  {
    ContentOrder(titles, texts, i);
  }

  datatype EpubBook = EpubBook(
    identifier: string, title: string, language: string, author: string,
    document: string, coverName: string, coverImage: seq<byte>, output: string)

  /** `compile_book_to_epub` up to `write_epub`: the package the scripts assemble. */
  function CompileBook(title: string, author: string, content: string,
                       coverPath: string, coverImage: seq<byte>, output: string): (book: EpubBook)
    ensures book.document == ChapterDocument(title, content)
    ensures book.coverName == BaseName(coverPath) && book.coverImage == coverImage
    ensures book.identifier == Identifier && book.language == Language
  {
    EpubBook(Identifier, title, Language, author, ChapterDocument(title, content),
             BaseName(coverPath), coverImage, output)
  }
}
