# Remo Guideline Bot: a Dafny model of its core

Remo Guideline Bot answers employees' questions about the company's internal
regulations. This project models and proves properties of its core:

- **Chunker** (`parse_company_regulations`, src/chunk_data.py). It cuts the
  regulation text into chapters at every `제N장` marker. It cuts each chapter
  into articles at every `제N조(` marker. Each article becomes a record
  `{section, title, content}`, split at its first `") "`. A chapter without
  articles becomes a single record with an empty title.
- **Corpus** (`load_json_documents`, written identically in the three bot
  files, and the retrieval-chain `answer_question`). Each JSON record becomes a
  document whose text is `title + "\n" + content` and whose metadata is the
  section. The chain's answer is read with `""` as the default.
- **Intent** (src/guideline_bot_with_ollama.py). The model's classification is
  normalised with `.strip().lower()`. It then selects exactly one handler: the
  logo message, the table of contents, or the retrieval chain queried with the
  label itself.
- **Session** (src/backend.py). The per-session history stores a `User: `
  entry and then a `Chatbot: ` entry for each request.
- **Display** (src/app.py). The front end classifies each history entry by its
  prefix and cuts the prefix off. A bot message carrying the logo marker is
  shown as the logo image. Only the newest bot text is typed out, one
  character more per frame.
- **Conversation**. The entries the backend and the logo handler write are
  read back by the front end as what they meant.

Python's string operations are modelled explicitly in module `Text`:
- `strip` removes exactly the characters `str.isspace` accepts;
- `find` returns -1 when the substring is absent;
- `replace` scans from left to right;
- `s[n:]` is empty past the end;
- `lower` lowers ASCII letters.

The regular expressions `제\d+장` and `제\d+조\(` are modelled by `MarkerEnd`,
the end of the match at a position. `finditer` is modelled by `FindIter`, a
left-to-right scan that skips past each match. Exceptions become the `Failure`
case of `Result`. The language models, the retrieval chain and the file system
are function parameters.

A failure of the classification call at src/guideline_bot_with_ollama.py:98
is not caught, neither there nor at line 108: it propagates to the caller.
`Intent.AnswerQuestion` returns the classifier's `Failure`.

## Model

| member | source | states |
|---|---|---|
| `Text.Strip` | src/chunk_data.py:30 | the result starts and ends with no whitespace character and is never longer than the input |
| `Text.StripKeepsPrefix` | src/chunk_data.py:30 | strip keeps a prefix that has no whitespace at either end |
| `Text.StripKeepsMiddle` | src/chunk_data.py:30 | strip removes only whitespace, and only at the two ends: the input is leading whitespace, then the result, then trailing whitespace |
| `Text.StrippedIsFixed` | src/chunk_data.py:35 | a string without surrounding whitespace is left unchanged by strip |
| `Text.StripIdempotent` | src/chunk_data.py:37 | stripping twice is stripping once |
| `Text.StripSuffixOfStripped` | src/chunk_data.py:37 | stripping the tail of an already stripped block only drops whitespace at the front of that tail |
| `Text.Find` | src/chunk_data.py:32 | -1 exactly when the substring does not occur; otherwise an index where it occurs, with no earlier occurrence |
| `Text.FindFirst` | src/chunk_data.py:32-33 | the first occurrence is the one find reports |
| `Text.ReplaceAtStart` | src/app.py:256 | replacing in a string that starts with the pattern replaces that leading occurrence and continues after it |
| `Text.ReplaceAbsent` | src/app.py:256 | replace changes nothing when the pattern does not occur |
| `Text.ReplaceAll` | src/chunk_data.py:43-55 | a replacement as long as the pattern keeps the length, and one no longer never lengthens the text |
| `Text.ReplaceChar` | src/chunk_data.py:43 | replacing one character by another keeps the length and changes exactly the positions holding that character |
| `Text.DeleteChar` | src/chunk_data.py:55 | deleting a character by replacing it with "" is the in-order filter `Without`, and keeps every other character with its multiplicity |
| `Text.Without` | src/chunk_data.py:55 | the text with every copy of the character removed: none is left and the result is never longer |
| `Text.DeleteIsWithout` | src/chunk_data.py:55 | the left-to-right replace of one character by "" keeps exactly the other characters, in order |
| `Text.WithoutMultiset` | src/chunk_data.py:55 | removing a character keeps every other character with its multiplicity and leaves no copy of it |
| `Text.WithoutConcat` | src/chunk_data.py:55 | removal works piece by piece: the kept characters of a concatenation are those of the first part followed by those of the second, so their order is kept |
| `Text.DeleteCharKeepsEnds` | src/chunk_data.py:55 | deleting a character that is at neither end keeps the first and last characters |
| `Text.DeleteCharKeepsLast` | src/chunk_data.py:55 | deleting a character that is not the last keeps the last character |
| `Text.DropFirst` | src/app.py:246 | `s[n:]` is the rest of `s` after its first `n` characters, and empty when `s` is shorter |
| `Text.Lower` | src/guideline_bot_with_ollama.py:99 | every upper-case ASCII letter becomes its lower-case letter and every other character stays, so no upper-case letter remains and the length is kept |
| `Text.LowerFacts` | src/guideline_bot_with_ollama.py:99 | lowering keeps whitespace where it was, is idempotent, and keeps a stripped string stripped |
| `Chunker.DigitRun` | src/chunk_data.py:9 | `\d+` consumes the maximal run of digits at a position |
| `Chunker.MarkerEnd` | src/chunk_data.py:9 | where a match of the marker pattern starting at a position ends, if there is one: past the start and within the text |
| `Chunker.MarkerEndIsRegexMatch` | src/chunk_data.py:9 | the scanner reports a match from `i` to `e` exactly when `s[i..e]` is `제`, digits and the tail |
| `Chunker.MatchIsFound` | src/chunk_data.py:20 | every text of the marker's shape at a position is reported by the scanner |
| `Chunker.FoundIsMatch` | src/chunk_data.py:20 | every match the scanner reports has the marker's shape |
| `Chunker.NoHeadInsideMatch` | src/chunk_data.py:11 | no `제` occurs strictly inside a match |
| `Chunker.MatchesDoNotOverlap` | src/chunk_data.py:11 | a match ends before any later match starts, so finditer's non-overlap rule loses no marker |
| `Chunker.FindIter` | src/chunk_data.py:11 | finditer reports only genuine matches at or after its start, in increasing order and without overlap |
| `Chunker.FindIterComplete` | src/chunk_data.py:21 | every position where the pattern matches is reported by finditer |
| `Chunker.SpanAt` | src/chunk_data.py:14-17 | a chapter starts at its marker and ends where the next chapter starts, or at the end of the text |
| `Chunker.SpanOpensWithMarker` | src/chunk_data.py:9-17 | every span's text opens with its marker, and the marker is a whole match of the pattern |
| `Chunker.Spans` | src/chunk_data.py:12-17 | one span per match finditer reports, in the same order, each as `Chunker.SpanAt` states |
| `Chunker.SpanStartsAreMarkers` | src/chunk_data.py:12 | a position starts a chapter exactly when the chapter pattern matches there |
| `Chunker.FirstSpanIsFirstMarker` | src/chunk_data.py:14-15 | the first chapter starts at or before every position where the pattern matches |
| `Chunker.NoMarkerBeforeFirstSpan` | src/chunk_data.py:14-17 | no marker occurs before the first chapter, and none at all when there are no chapters |
| `Chunker.JoinLines` | src/chunk_data.py:43 | each line break of the content becomes a space and every other character stays |
| `Chunker.SplitBlock` | src/chunk_data.py:32-43 | the record of a stripped block keeps the section, its title needs no stripping, its content has no line break; with `") "` title and content are shorter than the block, without it the block is the title and the content is empty |
| `Chunker.SplitArticle` | src/chunk_data.py:30-43 | an article record keeps the section, its title needs no stripping, its content has no line break, and it never holds more characters than the article slice |
| `Chunker.ParseChapter` | src/chunk_data.py:19-57 | a chapter gives one record per article marker, or exactly one record when it has none; every record carries the chapter's marker as its section |
| `Chunker.TitleBeforeFirstDelimiter` | src/chunk_data.py:32-35 | the title cut before the first `") "` ends in `)`, needs no stripping and holds no `") "` |
| `Chunker.BlockAroundDelimiter` | src/chunk_data.py:35-37 | the block is the title, a space, whitespace and the stripped rest |
| `Chunker.SplitAtFirstDelimiter` | src/chunk_data.py:30-43 | with `") "` present, title, a space, whitespace and content (line breaks as spaces) rebuild the stripped article block |
| `Chunker.ChapterWithArticles` | src/chunk_data.py:21-50 | in a chapter with article markers, record i is article slice i (from its marker to the next marker or the chapter's end) stripped and cut at its first `") "`, and its title starts with that article's marker; the slices follow one another in marker order with no gap |
| `Chunker.ArticleTitleStartsWithMarker` | src/chunk_data.py:30-39 | stripping an article slice keeps its marker and the first `") "` lies past it, so the title starts with the marker |
| `Chunker.ArticleMarkerChars` | src/chunk_data.py:20 | an article marker has no whitespace at either end and no `)` |
| `Chunker.SplitWithoutDelimiter` | src/chunk_data.py:38-40 | without `") "` the whole stripped block is the title and the content is empty |
| `Chunker.ArticleRecordWellFormed` | src/chunk_data.py:29-50 | an article record's title and content need no stripping and its content has no line break |
| `Chunker.ChapterWithoutArticles` | src/chunk_data.py:51-57 | a chapter with no article marker gives one well-formed record with an empty title whose content is the stripped chapter with its line breaks removed and every other character kept in order |
| `Chunker.ChapterRecordsWellFormed` | src/chunk_data.py:23-57 | every record of a chapter carries its marker and is well formed |
| `Chunker.ChaptersWellFormed` | src/chunk_data.py:14-57 | every record of a chapter sequence carries a chapter marker and is well formed |
| `Chunker.ParsedRecordsWellFormed` | src/chunk_data.py:5-59 | every record the parser returns has a chapter marker as its section, and a title and content with no surrounding whitespace; its content has no line break |
| `Chunker.Parse` | src/chunk_data.py:5-59 | the document gives, summed over its chapters in order, one record per article or one record for a chapter without articles |
| `Chunker.ParseEmptyIffNoChapter` | src/chunk_data.py:9-17 | the parser returns no record exactly when the text holds no chapter marker |
| `Chunker.ChaptersCount` | src/chunk_data.py:14-57 | the records of a chapter sequence number the sum, over its chapters, of the article count (at least one) |
| `Chunker.JoinContiguous` | src/chunk_data.py:16-17 | contiguous slices that run to the end concatenate to the text from the first slice on |
| `Chunker.SpanBounds` | src/chunk_data.py:16-17 | every chapter is a non-empty slice of the text whose marker has the chapter shape |
| `Chunker.SpansContiguous` | src/chunk_data.py:16 | consecutive chapters meet with no gap |
| `Chunker.SpanAtContiguous` | src/chunk_data.py:16 | the slice built for each match ends where the next match starts |
| `Chunker.LastSpanReachesEnd` | src/chunk_data.py:16 | the last chapter runs to the end of the text |
| `Chunker.ChaptersTileText` | src/chunk_data.py:14-17 | the chapters tile the text from the first marker to the end: concatenated in order they give back exactly that part |
| `Chunker.ChapterRecords` | src/chunk_data.py:23-57 | the article loop with its running list produces the chapter's records as defined |
| `Chunker.ParseCompanyRegulations` | src/chunk_data.py:5-59 | the chapter loop with its running result list produces the parse as defined |
| `Chunker.ChaptersRecords` | src/chunk_data.py:14-57 | appending each chapter's records in turn gives the records of all the chapters, in chapter order |
| `Chunker.ParseChaptersStep` | src/chunk_data.py:14-57 | the records from one chapter on are that chapter's records followed by those of the chapters after it |
| `Preamble.MatchSurvivesCut` | src/chunk_data.py:11 | a match at or after a cut point is still a match, equally long, in the text after the cut |
| `Preamble.CutAddsNoMatch` | src/chunk_data.py:11 | cutting off a prefix creates no new match |
| `Preamble.CutMovesMatches` | src/chunk_data.py:11 | the matches of a suffix are those of the whole text, shifted by the cut |
| `Preamble.FindIterMoved` | src/chunk_data.py:11 | finditer on the suffix reports the same matches as on the whole text, shifted |
| `Preamble.FindIterAtMatch` | src/chunk_data.py:11 | at a match, finditer reports it and resumes at its end |
| `Preamble.FindIterSkip` | src/chunk_data.py:11 | finditer skips positions where the pattern does not match |
| `Preamble.MatchesAfterPrefix` | src/chunk_data.py:11 | with no marker in the prefix, finditer reports the same matches on the rest, shifted by the prefix length |
| `Preamble.SpanAfterPrefix` | src/chunk_data.py:14-17 | with no marker in the prefix, the chapters of the rest are those of the text, with the same markers and texts |
| `Preamble.ChaptersAgree` | src/chunk_data.py:14-57 | chapters with equal markers and equal texts give equal records |
| `Preamble.ParseIgnoresPreamble` | src/chunk_data.py:9-17 | text before the first chapter marker never reaches a record: dropping any marker-free prefix leaves the parse unchanged |
| `Preamble.PreambleIsDropped` | src/chunk_data.py:14-17 | the document parses the same from its first chapter marker on |
| `Preamble.ChapterIgnoresIntro` | src/chunk_data.py:21-30 | in a chapter with articles, the text before the first article marker reaches no record |
| `Corpus.LoadJsonDocuments` | src/guideline_bot.py:104-113 | one document per entry, in entry order, with text `title + "\n" + content` (missing fields as "") and the section as the only metadata |
| `Corpus.ToDocument` | src/guideline_bot.py:109-111 | a document text splits at the title's length into the title, one line break and the content, missing fields read as ""; the metadata holds only the section |
| `Corpus.LastNewline` | src/guideline_bot_with_ollama.py:32 | the position of the last line break of a document text, or -1 when there is none |
| `Corpus.Unjoin` | src/guideline_bot_with_retrieval_chain.py:26 | the inverse of the document text: splitting at the last line break gives back a title and a line-free content that rebuild the text; it fails exactly on a text with no line break |
| `Corpus.LastNewlineOfPageText` | src/guideline_bot_with_ollama.py:32 | the last line break of a document text is the one joining title and content when the content has none |
| `Corpus.PageTextRoundTrip` | src/guideline_bot.py:109 | title and content come back from the document text whenever the content has no line break, whatever the title holds |
| `Corpus.PageTextHasNewline` | src/guideline_bot_with_ollama.py:32-34 | every document text holds the joining line break and is one character longer than title and content together |
| `Corpus.MissingFieldsDefault` | src/guideline_bot_with_ollama.py:32-33 | a missing title, content or section is read as the empty string |
| `Corpus.MetadataOnlySection` | src/guideline_bot_with_retrieval_chain.py:27-28 | the metadata holds only the section, so it ignores title and content, and the text ignores every field but title and content |
| `Corpus.ParsedDocumentsRoundTrip` | src/chunk_data.py:45-50 | every record the chunker writes comes back intact from its document: the section from the metadata, title and content from the text |
| `Corpus.AnswerQuestion` | src/guideline_bot.py:138-140 | a failure of the chain propagates unchanged; otherwise the answer is the chain's answer for the question or the empty string |
| `Corpus.AnswerIsChainAnswer` | src/guideline_bot_with_retrieval_chain.py:57-59 | on success the answer is the chain's "answer" value when present and "" otherwise; the answer depends on the question only through the chain's result |
| `Intent.Normalize` | src/guideline_bot_with_ollama.py:99 | a label is normalised: no surrounding whitespace, no upper-case letter, never longer than the model's answer |
| `Intent.NormalizeFixedPoints` | src/guideline_bot_with_ollama.py:99 | normalising leaves a string unchanged exactly when it is already normalised |
| `Intent.NormalizeIdempotent` | src/guideline_bot_with_ollama.py:99 | normalising twice is normalising once |
| `Intent.ClassifyQuestion` | src/guideline_bot_with_ollama.py:87-99 | on success the classifier's answer normalised by `.strip().lower()`; on failure its error, uncaught |
| `Intent.RouteOf` | src/guideline_bot_with_ollama.py:110-116 | exactly "logo_request" selects the logo, exactly "toc_request" the table of contents, and every other label goes to the retrieval chain as the query |
| `Intent.RouteRoundTrip` | src/guideline_bot_with_ollama.py:108-116 | the label is recovered from its route, and every reachable route is selected by its label |
| `Intent.GetCompanyLogo` | src/guideline_bot_with_ollama.py:64-68 | the logo message starts with the path marker exactly when the logo file exists, and then the path follows the marker directly |
| `Intent.LoadToc` | src/guideline_bot_with_ollama.py:70-85 | a failure to read the file or of the model call becomes the error message with its prefix; otherwise the model's text, stripped |
| `Intent.LoadTocTrimsOnly` | src/guideline_bot_with_ollama.py:83 | on success only surrounding whitespace is removed: the model's text is leading whitespace, the message, then trailing whitespace |
| `Intent.LoadTocKeepsStrippedText` | src/guideline_bot_with_ollama.py:82-83 | a successful table of contents needs no further stripping, and a model text without surrounding whitespace comes through unchanged |
| `Intent.AnswerQuestion` | src/guideline_bot_with_ollama.py:101-108 | a classifier failure propagates unchanged as the answer's failure |
| `Intent.AnswerDispatch` | src/guideline_bot_with_ollama.py:108-116 | with the normalised label, exactly one handler answers: the logo, the table of contents, or the retrieval chain queried with the label |
| `Intent.SameLabelSameAnswer` | src/guideline_bot_with_ollama.py:114-116 | the answer depends on the question only through its label: with the same model functions, questions with the same label get the same answer |
| `Intent.LabelIgnoresCaseAndPadding` | src/guideline_bot_with_ollama.py:99-116 | the handler depends on the model's answer only after `.strip().lower()`: a padded or upper-case answer is routed like its normalised form |
| `Session.GetResponse` | src/backend.py:19-31 | the session gets the stripped question as a `User: ` entry and, on success, the response as a `Chatbot: ` entry; other sessions and earlier entries are untouched; a failing chain leaves the user entry and gives no reply |
| `Session.AnsweredRequestAppends` | src/backend.py:24-27 | an answered request appends exactly its user entry and its bot entry |
| `Session.ConverseAppendsExchange` | src/backend.py:22-27 | after answered requests, the history is the earlier one followed by one user and one bot entry per request, in order |
| `Session.ConverseKeepsOthers` | src/backend.py:17-27 | requests of one session never change another session's history |
| `Session.ExchangeAlternates` | src/backend.py:25-27 | the exchange of n requests has 2n entries: request i's user entry at 2i and its bot entry at 2i + 1 |
| `Session.ExchangePrefixes` | src/backend.py:25-27 | exchange entries at even positions start with `User: ` and those at odd positions with `Chatbot: ` |
| `Session.FreshConversation` | src/backend.py:22-27 | a new session after n answered requests has 2n entries alternating between user and bot |
| `Display.DecodeEntry` | src/app.py:241-252 | an entry is a user entry exactly when it starts with "User:", a bot entry exactly when it starts with "Chatbot:" but not "User:"; the text is the entry after 5 or 9 characters |
| `Display.ViewOf` | src/app.py:241-252 | an entry shows a user box exactly when it starts with "User:", nothing exactly when it has neither prefix, and bot text is typed out only when it is the newest entry |
| `Display.LogoPath` | src/app.py:256 | the path read from a logo message has no surrounding whitespace |
| `Display.BotView` | src/app.py:254-276 | a bot message shows the logo image or the warning exactly when it holds the marker anywhere, the image exactly when a file exists at the read path; any other bot message is shown as is, typed out exactly when it is the newest entry |
| `Display.OnlyLastAnimated` | src/app.py:241-276 | over a whole history, no entry but the last is typed out, and the last is typed out exactly when it is bot text without the logo marker |
| `Display.TypingFrames` | src/app.py:20-29 | the frames are the prefixes of the text, one character longer each time, the last being the whole text |
| `Display.FramesGrow` | src/app.py:22-23 | each frame is a prefix of every later frame |
| `Conversation.UserEntryRoundTrip` | src/app.py:246 | a backend user entry is shown as the question preceded by one space |
| `Conversation.BotEntryRoundTrip` | src/app.py:252 | a backend bot entry is shown as exactly the response |
| `Conversation.LogoRoundTrip` | src/app.py:255-262 | the logo message is shown as the logo at the stripped path, or the warning when no file is there, if the path holds no marker |
| `Conversation.MissingLogoIsText` | src/guideline_bot_with_ollama.py:67-68 | the missing-logo message holds no marker, so the front end shows it as ordinary text |
| `Conversation.PairView` | src/app.py:241-252 | a user entry and a bot entry side by side are shown as the question box and the response's view |
| `Conversation.FreshConversationView` | src/app.py:241-276 | after a fresh session's answered requests, the front end shows each question and each response in the order asked, only the last response typed out |

## Left out

- Language models, embeddings, FAISS and the retrieval chains (the LangChain objects) are not modelled. They are function parameters: `classifier`, `format` and `qa` in `Intent.World`, `chain` in `Corpus.AnswerQuestion`, `respond` in `Session`. The prompt strings are not modelled.
- File reads, `json.load`, `json.dumps` and `os.path.exists` are not modelled. They are parameters: a list of JSON objects, `tocText`, `logoExists` and `fileExists`. `textract` and the `__main__` blocks that read and write files are not modelled.
- JSON values are modelled as strings only. The records file that `parse_company_regulations` produces holds only strings (src/chunk_data.py:45-56). The loaders would format any other value with an f-string, for instance `null` as `None` (src/guideline_bot.py:109); values other than strings are not modelled.
- Streamlit rendering, HTML and CSS, `time.sleep`, `random.uniform`, the HTTP request of the front end and its error banner are not modelled; `Display` models what each entry shows and the text frames.
- FastAPI and pydantic request parsing are not modelled. Nor is concurrent access to `session_history`: requests are applied one after the other.
- Calls to a language model or a chain are modelled as fixed functions of their input (`classifier`, `format`, `qa`, `chain`, `respond`). The chat models sample at a non-zero temperature (src/guideline_bot_with_ollama.py:22, src/guideline_bot.py:101), so two calls with the same input may answer differently; lemmas that compare two answers hold for one fixed choice of these functions.
- `print(label)` at src/guideline_bot_with_ollama.py:109 is not modelled; it does not change the answer.
- src/main.py is not modelled.
- Three call sites pass the wrong arguments and would raise at run time. They are not modelled:
  - src/backend.py:26 calls `create_qa_chain` with a question, but the method takes none;
  - src/guideline_bot_with_ollama.py:122 builds the bot with one argument;
  - src/guideline_bot_with_retrieval_chain.py:65 builds `GuidelineBot`, which that file does not define.
  
  `Session.GetResponse` takes the answering function `respond` as a parameter instead.
- The three identical copies of `load_json_documents` are modelled once as `Corpus.LoadJsonDocuments`.
- `Text.IsDigit`: `\d` is modelled as the ASCII digits only. Python's `\d` also matches other Unicode decimal digits.
- `Text.Lower`: only ASCII letters are lowered. Python's `lower` also lowers other scripts; Korean labels have no case.
- `Text.ReplaceAll` requires a non-empty pattern. Every call site in the core replaces a non-empty string.
- `Intent.AnswerQuestion`: its contract states only the failure propagation; the successful dispatch is stated by `Intent.AnswerDispatch`.
- `Corpus.AnswerQuestion`: its contract says a successful answer is the chain's answer or empty; which of the two is stated by `Corpus.AnswerIsChainAnswer`.
- `Chunker.MarkerEnd`: its own contract gives only the bounds of the match; that the match is exactly `제`, the maximal digit run and the tail is stated by `Chunker.MarkerEndIsRegexMatch`.
