/** The conversion of the chunker's JSON records into retrievable documents
    (`load_json_documents`, identical in src/guideline_bot.py,
    src/guideline_bot_with_ollama.py and src/guideline_bot_with_retrieval_chain.py)
    and the answer default of `answer_question`. */
module Corpus {
  import opened Wrappers
  import opened Text
  import opened Chunker

  /** A JSON object of the records file; every value the code reads is a string. */
  type JsonObject = map<string, string>

  /** A document handed to the vector store: its text and its metadata. */
  datatype Document = Document(pageContent: string, metadata: map<string, string>)

  const TitleKey := "title"
  const ContentKey := "content"
  const SectionKey := "section"
  const AnswerKey := "answer"
  const InputKey := "input"

  /** `entry.get(key, default)`. */
  function Get(entry: JsonObject, key: string, default: string): string {
    if key in entry then entry[key] else default
  }

  /** The text of a document: title and content on two lines. */
  function PageText(title: string, content: string): string {
    title + "\n" + content
  }

  /** One JSON entry as a document (loop body of `load_json_documents`).  The
      text is the title, a line break and the content, a missing field read
      as empty; the metadata holds the section and nothing else. */
  function ToDocument(entry: JsonObject): (d: Document)
    ensures var title := Get(entry, TitleKey, "");
            && |d.pageContent| == |title| + |Get(entry, ContentKey, "")| + 1
            && d.pageContent[..|title|] == title
            && d.pageContent[|title|] == '\n'
            && d.pageContent[|title| + 1..] == Get(entry, ContentKey, "")
    ensures d.metadata.Keys == {SectionKey} && d.metadata[SectionKey] == Get(entry, SectionKey, "")
  {
    Document(PageText(Get(entry, TitleKey, ""), Get(entry, ContentKey, "")),
             map[SectionKey := Get(entry, SectionKey, "")])
  }

  /** `load_json_documents` after `json.load`: one document per entry, in the
      order of the entries. */
  method LoadJsonDocuments(data: seq<JsonObject>) returns (documents: seq<Document>)
    ensures |documents| == |data|
    ensures forall i :: 0 <= i < |data| ==>
              documents[i].pageContent == PageText(Get(data[i], TitleKey, ""), Get(data[i], ContentKey, ""))
              && documents[i].metadata == map[SectionKey := Get(data[i], SectionKey, "")]
  {
    documents := [];
    for n := 0 to |data|
      invariant |documents| == n
      invariant forall i :: 0 <= i < n ==> documents[i] == ToDocument(data[i])
    {
      documents := documents + [ToDocument(data[n])];
    }
  }

  /** The index of the last line break of `s`, or -1 when it has none. */
  function LastNewline(s: string): (r: int)
    ensures -1 <= r < |s|
    ensures r == -1 ==> '\n' !in s
    ensures r != -1 ==> s[r] == '\n' && '\n' !in s[r + 1..]
    decreases |s|
  {
    if |s| == 0 then -1
    else if s[|s| - 1] == '\n' then |s| - 1
    else
      var r := LastNewline(s[..|s| - 1]);
      assert r != -1 ==> s[r + 1..] == s[..|s| - 1][r + 1..] + [s[|s| - 1]];
      r
  }

  /** Reads title and content back from a document text: the title is what
      precedes the last line break, the content what follows it. */
  function Unjoin(page: string): (r: Option<(string, string)>)
    ensures r.None? <==> '\n' !in page
    ensures r.Some? ==> PageText(r.value.0, r.value.1) == page && '\n' !in r.value.1
  {
    var k := LastNewline(page);
    if k == -1 then None
    else
      assert page == page[..k] + "\n" + page[k + 1..];
      Some((page[..k], page[k + 1..]))
  }

  /** The last line break of `title + "\n" + content` is the one between
      them when `content` has none. */
  lemma {:induction false} LastNewlineOfPageText(title: string, content: string)
    requires '\n' !in content
    ensures LastNewline(PageText(title, content)) == |title|
    decreases |content|
  {
    var page := PageText(title, content);
    if |content| > 0 {
      var shorter := content[..|content| - 1];
      assert page[..|page| - 1] == PageText(title, shorter);
      assert content[|content| - 1] in content;
      LastNewlineOfPageText(title, shorter);
    }
  }

  /** Line 109: a document text whose content has no line break gives back
      its title and content, whatever line breaks the title holds. */
  lemma PageTextRoundTrip(title: string, content: string)
    requires '\n' !in content
    ensures Unjoin(PageText(title, content)) == Some((title, content))
  {
    var page := PageText(title, content);
    LastNewlineOfPageText(title, content);
    assert page[..|title|] == title;
    assert page[|title| + 1..] == content;
  }

  /** Every document text holds a line break, so none is empty: an entry
      without title and content still gives the one-character text "\n". */
  lemma PageTextHasNewline(title: string, content: string)
    ensures Unjoin(PageText(title, content)).Some?
    ensures |PageText(title, content)| == |title| + |content| + 1
  {
    assert PageText(title, content)[|title|] == '\n';
  }

  /** Line 109: a missing title or content is read as the empty string. */
  lemma MissingFieldsDefault(entry: JsonObject)
    ensures TitleKey !in entry && ContentKey !in entry ==> ToDocument(entry).pageContent == "\n"
    ensures TitleKey !in entry ==> ToDocument(entry).pageContent == "\n" + Get(entry, ContentKey, "")
    ensures ContentKey !in entry ==> ToDocument(entry).pageContent == Get(entry, TitleKey, "") + "\n"
    ensures SectionKey !in entry ==> ToDocument(entry).metadata[SectionKey] == ""
  {
  }

  /** Line 110: the metadata holds the section and nothing else, so it does
      not depend on the title or the content, and the text does not depend
      on the section. */
  lemma MetadataOnlySection(entry: JsonObject, key: string, v: string)
    ensures ToDocument(entry).metadata.Keys == {SectionKey}
    ensures key != SectionKey ==> ToDocument(entry[key := v]).metadata == ToDocument(entry).metadata
    ensures key != TitleKey && key != ContentKey ==>
              ToDocument(entry[key := v]).pageContent == ToDocument(entry).pageContent
  {
  }

  /** The JSON object `chunk_data.py` writes for one record (lines 46-56). */
  function RecordEntry(r: Record): JsonObject {
    map[SectionKey := r.section, TitleKey := r.title, ContentKey := r.content]
  }

  /** Every record the chunker produces comes back intact from its document:
      the section from the metadata, title and content from the text. */
  lemma ParsedDocumentsRoundTrip(text: string)
    ensures forall i :: 0 <= i < |Parse(text)| ==>
              var doc := ToDocument(RecordEntry(Parse(text)[i]));
              Unjoin(doc.pageContent) == Some((Parse(text)[i].title, Parse(text)[i].content))
              && doc.metadata[SectionKey] == Parse(text)[i].section
  {
    ParsedRecordsWellFormed(text);
    forall i | 0 <= i < |Parse(text)|
      ensures Unjoin(ToDocument(RecordEntry(Parse(text)[i])).pageContent)
              == Some((Parse(text)[i].title, Parse(text)[i].content))
    {
      var r := Parse(text)[i];
      PageTextRoundTrip(r.title, r.content);
    }
  }

  /** `answer_question` of the retrieval-chain bots: the chain's result is a
      JSON object, read at "answer" with the empty string as default; an
      exception of the chain is not caught.  The chain is a parameter:
      retrieval and completion are not modelled. */
  function AnswerQuestion(chain: JsonObject -> Result<JsonObject, string>, question: string): (a: Result<string, string>)
    ensures a.Failure? <==> chain(map[InputKey := question]).Failure?
    ensures a.Failure? ==> a.error == chain(map[InputKey := question]).error
    ensures a.Success? ==>
              a.value == "" || (AnswerKey in chain(map[InputKey := question]).value
                                && a.value == chain(map[InputKey := question]).value[AnswerKey])
  {
    match chain(map[InputKey := question])
    case Failure(e) => Failure(e)
    case Success(result) => Success(Get(result, AnswerKey, ""))
  }

  /** Lines 138-140: the answer is the chain's "answer" value when it gives
      one, and the empty string when it does not; the question reaches the
      chain under "input" and nowhere else. */
  lemma AnswerIsChainAnswer(chain: JsonObject -> Result<JsonObject, string>, question: string)
    ensures var result := chain(map[InputKey := question]);
            && (result.Success? && AnswerKey in result.value ==>
                  AnswerQuestion(chain, question) == Success(result.value[AnswerKey]))
            && (result.Success? && AnswerKey !in result.value ==> AnswerQuestion(chain, question) == Success(""))
    ensures forall q :: chain(map[InputKey := q]) == chain(map[InputKey := question]) ==>
              AnswerQuestion(chain, q) == AnswerQuestion(chain, question)
  {
  }
}
