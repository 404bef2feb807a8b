/** Intent routing of src/guideline_bot_with_ollama.py: the classifier's
    label is normalised, then exactly one of three handlers answers.  The
    language model, the retrieval chain and the file system are parameters. */
module Intent {
  import opened Wrappers
  import opened Text

  const LogoRequest := "logo_request"
  const TocRequest := "toc_request"

  /** Start of the message that carries the logo path (line 66). */
  const LogoMarker := "회사 로고 파일 경로:"
  /** The message when the logo file is missing (line 68). */
  const LogoMissing := "회사 로고 파일을 찾을 수 없습니다."
  /** Start of the message that reports a failure to build the table of contents (line 85). */
  const TocErrorPrefix := "목차 정보를 불러오는 중 오류가 발생했습니다: "

  /** No ASCII upper-case letter occurs in `s`. */
  predicate NoUpper(s: string) {
    forall i :: 0 <= i < |s| ==> !('A' <= s[i] <= 'Z')
  }

  /** A label as `classify_question` leaves it. */
  predicate Normalized(s: string) {
    Stripped(s) && NoUpper(s)
  }

  /** `.strip().lower()` (line 99). */
  function Normalize(s: string): (r: string)
    ensures Normalized(r) && |r| <= |s|
  {
    LowerFacts(Strip(s));
    Lower(Strip(s))
  }

  /** Normalising leaves a normalised label alone, and nothing else. */
  lemma NormalizeFixedPoints(s: string)
    ensures Normalize(s) == s <==> Normalized(s)
  {
    if Normalized(s) {
      StrippedIsFixed(s);
      assert Lower(s) == s;
    }
  }

  /** Normalising twice is normalising once. */
  lemma NormalizeIdempotent(s: string)
    ensures Normalize(Normalize(s)) == Normalize(s)
  {
    NormalizeFixedPoints(Normalize(s));
  }

  /** `classify_question` (lines 87-99): the model's answer to the
      classification prompt, normalised.  `classifier` stands for the prompt,
      the model call and `.content`; a failure of that call is not caught. */
  function ClassifyQuestion(classifier: string -> Result<string, string>, question: string): (r: Result<string, string>)
    ensures r.Success? <==> classifier(question).Success?
    ensures r.Failure? ==> r.error == classifier(question).error
    ensures r.Success? ==> r.value == Normalize(classifier(question).value)
  {
    match classifier(question)
    case Success(content) => Success(Normalize(content))
    case Failure(e) => Failure(e)
  }

  /** The three branches of `answer_question`. */
  datatype Route = Logo | Toc | Keyword(query: string)

  /** Lines 110-116: which branch a label takes.  Exactly "logo_request"
      selects the logo, exactly "toc_request" the table of contents, and every
      other label is used as the search query itself. */
  function RouteOf(tag: string): (r: Route)
    ensures r.Logo? <==> tag == LogoRequest
    ensures r.Toc? <==> tag == TocRequest
    ensures r.Keyword? <==> tag != LogoRequest && tag != TocRequest
    ensures r.Keyword? ==> r.query == tag
  {
    if tag == LogoRequest then Logo
    else if tag == TocRequest then Toc
    else Keyword(tag)
  }

  /** The label that selects a route. */
  function LabelOf(r: Route): string {
    match r
    case Logo => LogoRequest
    case Toc => TocRequest
    case Keyword(q) => q
  }

  /** A keyword route is reachable unless its query is one of the two
      reserved labels. */
  predicate Reachable(r: Route) {
    r.Keyword? ==> r.query != LogoRequest && r.query != TocRequest
  }

  /** Routing loses nothing: the label is read back from its route, and every
      reachable route is selected by its label. */
  lemma RouteRoundTrip(tag: string, r: Route)
    ensures LabelOf(RouteOf(tag)) == tag
    ensures Reachable(RouteOf(tag))
    ensures Reachable(r) ==> RouteOf(LabelOf(r)) == r
  {
  }

  /** `get_company_logo` (lines 64-68); the file test is the parameter
      `logoExists`.  The message starts with the marker exactly when the file
      exists, and then the path follows the marker with no separator. */
  function GetCompanyLogo(logoExists: bool, logoPath: string): (msg: string)
    ensures StartsWith(msg, LogoMarker) <==> logoExists
    ensures logoExists ==> msg[|LogoMarker|..] == logoPath
  {
    if logoExists then
      StartsWithConcat(LogoMarker, logoPath);
      LogoMarker + logoPath
    else
      assert LogoMissing[8] != LogoMarker[8];
      LogoMissing
  }

  /** `load_toc` (lines 70-85).  `tocText` is the outcome of reading, parsing
      and re-serialising the table-of-contents file; `format` is the model
      call on the formatting prompt.  Any failure of either becomes the error
      message; otherwise the model's text, stripped. */
  function LoadToc(tocText: Result<string, string>, format: string -> Result<string, string>): (msg: string)
    ensures tocText.Failure? ==> msg == TocErrorPrefix + tocText.error
    ensures tocText.Success? && format(tocText.value).Failure? ==>
              msg == TocErrorPrefix + format(tocText.value).error
    ensures tocText.Success? && format(tocText.value).Success? ==>
              msg == Strip(format(tocText.value).value)
  {
    match tocText
    case Failure(e) => TocErrorPrefix + e
    case Success(t) =>
      match format(t)
      case Failure(e) => TocErrorPrefix + e
      case Success(content) => Strip(content)
  }

  /** The success of `load_toc` is the model's text as the model would print
      it after `.strip()`: stripping again changes nothing, and a text that
      needs no stripping comes through unchanged. */
  lemma LoadTocKeepsStrippedText(t: string, format: string -> Result<string, string>)
    requires format(t).Success?
    ensures Strip(LoadToc(Success(t), format)) == LoadToc(Success(t), format)
    ensures Stripped(format(t).value) ==> LoadToc(Success(t), format) == format(t).value
  {
    StrippedIsFixed(LoadToc(Success(t), format));
    if Stripped(format(t).value) {
      StrippedIsFixed(format(t).value);
    }
  }

  /** On success `load_toc` only trims: the model's text is whitespace, then
      the message, then whitespace. */
  lemma LoadTocTrimsOnly(t: string, format: string -> Result<string, string>)
    requires format(t).Success?
    ensures var text := format(t).value;
            var msg := LoadToc(Success(t), format);
            var k := LeadingSpace(text);
            && k + |msg| <= |text|
            && text[k..k + |msg|] == msg
            && AllSpace(text[..k]) && AllSpace(text[k + |msg|..])
  {
    StripKeepsMiddle(format(t).value);
  }

  /** The outside world `answer_question` reaches. */
  datatype World = World(
    classifier: string -> Result<string, string>,
    logoExists: bool,
    logoPath: string,
    tocText: Result<string, string>,
    format: string -> Result<string, string>,
    qa: string -> Result<string, string>)

  /** `answer_question` (lines 101-116): classify, then run the one handler
      the label selects.  A failing classifier or retrieval chain raises,
      which is a `Failure` here. */
  function AnswerQuestion(w: World, question: string): (r: Result<string, string>)
    ensures w.classifier(question).Failure? ==> r == Failure(w.classifier(question).error)
  {
    match ClassifyQuestion(w.classifier, question)
    case Failure(e) => Failure(e)
    case Success(tag) =>
      match RouteOf(tag)
      case Logo => Success(GetCompanyLogo(w.logoExists, w.logoPath))
      case Toc => Success(LoadToc(w.tocText, w.format))
      case Keyword(q) => w.qa(q)
  }

  /** Lines 108-116: with the normalised label in hand, exactly one handler
      answers; the retrieval chain is queried with the label, not with the
      question. */
  lemma AnswerDispatch(w: World, question: string)
    requires w.classifier(question).Success?
    ensures var tag := Normalize(w.classifier(question).value);
            && (tag == LogoRequest ==> AnswerQuestion(w, question) == Success(GetCompanyLogo(w.logoExists, w.logoPath)))
            && (tag == TocRequest ==> AnswerQuestion(w, question) == Success(LoadToc(w.tocText, w.format)))
            && (tag != LogoRequest && tag != TocRequest ==> AnswerQuestion(w, question) == w.qa(tag))
  {
  }

  /** Line 116: the question reaches the retrieval chain only through its
      label, so questions with the same label get the same answer. */
  lemma SameLabelSameAnswer(w: World, q1: string, q2: string)
    requires w.classifier(q1).Success? && w.classifier(q2).Success?
    requires Normalize(w.classifier(q1).value) == Normalize(w.classifier(q2).value)
    ensures AnswerQuestion(w, q1) == AnswerQuestion(w, q2)
  {
  }

  /** The classifier's answer is read after `.strip().lower()`, so a model
      that pads or capitalises its label still reaches the same handler. */
  lemma LabelIgnoresCaseAndPadding(w: World, q1: string, q2: string)
    requires w.classifier(q1).Success? && w.classifier(q2).Success?
    requires Lower(Strip(w.classifier(q1).value)) == w.classifier(q2).value
    ensures AnswerQuestion(w, q1) == AnswerQuestion(w, q2)
  {
    NormalizeIdempotent(w.classifier(q1).value);
  }
}
