/**
 * The top-level controller (App.tsx): the state record and the link field,
 * the handlers that move them (upload, evaluate, edit), and the pure
 * helpers around them: the submission text, the PDF text assembly, the
 * button's disabled test, the split of the polished draft into plain and
 * emphasised segments, and the numbering of the editor's notes.
 */
module App {
  import opened Wrappers
  import opened Types
  import JsString
  import GeminiService

  const DocxMime := "application/vnd.openxmlformats-officedocument.wordprocessingml.document"
  const PdfMime := "application/pdf"
  const TextMime := "text/plain"
  const AcceptedTypes: set<string> := {DocxMime, PdfMime, TextMime}
  const UnsupportedTypeMessage := "Unsupported file type. Please upload a .docx, .pdf, or .txt file."

  const LinkLabel := "GOOGLE DOC LINK: "
  const ContextLabel := "\n\nCONTENT OR CONTEXT: "
  const EmphasisMarker := "**"

  const InitialState := AppState("", None, false, None)

  // ---------------------------------------------------------------- submission

  /** The text sent for evaluation: the link and the draft when a link is filled in, the draft alone otherwise. */
  function Submission(link: string, draft: string): (submission: string)
    ensures !JsString.IsBlank(link) ==> submission == LinkLabel + link + ContextLabel + draft
    ensures JsString.IsBlank(link) ==> submission == draft
  {
    if !JsString.IsBlank(link) then LinkLabel + link + ContextLabel + draft else draft
  }

  /** The draft always ends the submission, and a filled-in link appears verbatim after its label. */
  lemma SubmissionCarriesInputs(link: string, draft: string)
    ensures var s := Submission(link, draft);
      && |s| >= |draft| && s[|s| - |draft|..] == draft
      && (!JsString.IsBlank(link) ==> s[..|LinkLabel|] == LinkLabel && s[|LinkLabel|..|LinkLabel| + |link|] == link)
  {
    if !JsString.IsBlank(link) {
      LabelledCarriesInputs(link, draft);
    }
  }

  /** Where the link and the draft sit in a labelled submission. */
  lemma LabelledCarriesInputs(link: string, draft: string)
    ensures var s := LinkLabel + link + ContextLabel + draft;
      && s[|s| - |draft|..] == draft
      && s[..|LinkLabel|] == LinkLabel && s[|LinkLabel|..|LinkLabel| + |link|] == link
  {
    var s := LinkLabel + link + ContextLabel + draft;
    assert s == (LinkLabel + link) + (ContextLabel + draft);
    assert s[|s| - |draft|..] == draft;
  }

  /** The submission is blank exactly when both the link and the draft are blank: only then does evaluating do nothing. */
  lemma SubmissionBlankIff(link: string, draft: string)
    ensures JsString.IsBlank(Submission(link, draft)) <==> JsString.IsBlank(link) && JsString.IsBlank(draft)
  {
    if !JsString.IsBlank(link) {
      LabelledNotBlank(link, draft);
    }
  }

  /** A submission carrying a link is not blank, since its label starts with a letter. */
  lemma LabelledNotBlank(link: string, draft: string)
    ensures !JsString.IsBlank(LinkLabel + link + ContextLabel + draft)
  {
    var s := LinkLabel + link + ContextLabel + draft;
    assert s[0] == LinkLabel[0] == 'G';
    assert !JsString.IsWhitespace('G');
    assert !JsString.AllWhitespace(s);
  }

  /** The evaluate button's `disabled` attribute. */
  function EvaluateDisabled(state: AppState, link: string): (disabled: bool)
    ensures disabled <==> state.isLoading || JsString.IsBlank(Submission(link, state.draft))
  {
    SubmissionBlankIff(link, state.draft);
    state.isLoading || (JsString.IsBlank(state.draft) && JsString.IsBlank(link))
  }

  // ---------------------------------------------------------------- PDF text

  /** One page's text: its text items joined by single spaces. */
  function PageText(items: seq<string>): string {
    JsString.Join(items, " ")
  }

  /** A document's text: every page's text followed by a newline, in page order. */
  function PdfText(pages: seq<seq<string>>): string
    decreases |pages|
  {
    if pages == [] then "" else PageText(pages[0]) + "\n" + PdfText(pages[1..])
  }

  /** The text of consecutive runs of pages is the concatenation of their texts. */
  lemma {:induction false} PdfTextAppend(a: seq<seq<string>>, b: seq<seq<string>>)
    ensures PdfText(a + b) == PdfText(a) + PdfText(b)
    decreases |a|
  {
    if a != [] {
      assert (a + b)[0] == a[0] && (a + b)[1..] == a[1..] + b;
      PdfTextAppend(a[1..], b);
    } else {
      assert a + b == b;
    }
  }

  /** `extractTextFromPdf` after the document is loaded: the loop over pages accumulating the text. */
  method ExtractTextFromPdf(pages: seq<seq<string>>) returns (fullText: string)
    ensures fullText == PdfText(pages)
  {
    fullText := "";
    var i := 0;
    while i < |pages|
      invariant 0 <= i <= |pages|
      invariant fullText == PdfText(pages[..i])
    {
      var pageText := PageText(pages[i]);
      PdfTextAppend(pages[..i], [pages[i]]);
      assert pages[..i + 1] == pages[..i] + [pages[i]];
      fullText := fullText + pageText + "\n";
      i := i + 1;
    }
    assert pages[..|pages|] == pages;
  }

  /** Newlines inside the text items of one page. */
  function ItemNewlines(items: seq<string>): nat
    decreases |items|
  {
    if items == [] then 0 else JsString.CountChar(items[0], '\n') + ItemNewlines(items[1..])
  }

  /** Newlines inside the text items of all pages. */
  function PageNewlines(pages: seq<seq<string>>): nat
    decreases |pages|
  {
    if pages == [] then 0 else ItemNewlines(pages[0]) + PageNewlines(pages[1..])
  }

  lemma {:induction false} PageTextNewlines(items: seq<string>)
    ensures JsString.CountChar(PageText(items), '\n') == ItemNewlines(items)
    decreases |items|
  {
    if |items| == 1 {
      assert items[1..] == [];
    } else if |items| > 1 {
      PageTextNewlines(items[1..]);
      JsString.CountCharConcat(items[0], " ", '\n');
      JsString.CountCharConcat(items[0] + " ", PageText(items[1..]), '\n');
      assert JsString.CountChar(" ", '\n') == 0;
    }
  }

  /** The document text holds one appended newline per page on top of those inside the items. */
  lemma {:induction false} PdfTextNewlines(pages: seq<seq<string>>)
    ensures JsString.CountChar(PdfText(pages), '\n') == |pages| + PageNewlines(pages)
    decreases |pages|
  {
    if pages != [] {
      PdfTextNewlines(pages[1..]);
      PageTextNewlines(pages[0]);
      JsString.CountCharConcat(PageText(pages[0]), "\n", '\n');
      JsString.CountCharConcat(PageText(pages[0]) + "\n", PdfText(pages[1..]), '\n');
      assert JsString.CountChar("\n", '\n') == 1;
    }
  }

  // ---------------------------------------------------------------- upload

  /**
   * A dropped or chosen file: its declared MIME type and what each reader
   * returns for it (the .docx text extractor, the PDF reader's pages of
   * text items, and `file.text()`); each reader may fail with a message.
   */
  datatype UploadedFile = UploadedFile(
    mimeType: string,
    docxText: Result<string, string>,
    pdfPages: Result<seq<seq<string>>, string>,
    plainText: Result<string, string>)

  /** The text an upload yields, or the message it fails with: dispatch on the declared type. */
  function ExtractedText(file: UploadedFile): (r: Result<string, string>)
    ensures file.mimeType !in AcceptedTypes ==> r == Err(UnsupportedTypeMessage)
    ensures file.mimeType == DocxMime ==> r == file.docxText
    ensures file.mimeType == PdfMime ==>
      r == match file.pdfPages case Ok(pages) => Ok(PdfText(pages)) case Err(m) => Err(m)
    ensures file.mimeType == TextMime ==> r == file.plainText
  {
    if file.mimeType == DocxMime then file.docxText
    else if file.mimeType == PdfMime then
      match file.pdfPages
      case Ok(pages) => Ok(PdfText(pages))
      case Err(m) => Err(m)
    else if file.mimeType == TextMime then file.plainText
    else Err(UnsupportedTypeMessage)
  }

  /** The three accepted types are distinct, and only they can yield text. */
  lemma AcceptedTypesOnly(file: UploadedFile)
    ensures |AcceptedTypes| == 3
    ensures ExtractedText(file).Ok? ==> file.mimeType in AcceptedTypes
  {
    assert DocxMime != PdfMime && DocxMime != TextMime && PdfMime != TextMime;
  }

  // ---------------------------------------------------------------- polished draft

  /** A piece of the polished draft as rendered: plain text or an emphasised edit. */
  datatype Segment = Plain(text: string) | Emphasised(text: string)

  /** `polishedDraft.split('**')`, with the odd-numbered pieces emphasised. */
  function PolishedSegments(polished: string): (segments: seq<Segment>)
    ensures |segments| == |JsString.Split(polished, EmphasisMarker)|
    ensures forall i :: 0 <= i < |segments| ==> segments[i].text == JsString.Split(polished, EmphasisMarker)[i]
    ensures forall i :: 0 <= i < |segments| ==> (segments[i].Emphasised? <==> i % 2 == 1)
  {
    var parts := JsString.Split(polished, EmphasisMarker);
    seq(|parts|, i requires 0 <= i < |parts| => if i % 2 == 1 then Emphasised(parts[i]) else Plain(parts[i]))
  }

  function SegmentTexts(segments: seq<Segment>): seq<string> {
    seq(|segments|, i requires 0 <= i < |segments| => segments[i].text)
  }

  /**
   * The segments lose nothing: joined back with the markers they give the
   * draft as written; none contains a marker; every segment but the last
   * ends where the first marker after its start begins, so markers are
   * taken left to right; there is one more segment than there are markers
   * (counted left to right without overlap); the first is plain.
   */
  lemma PolishedSegmentsFaithful(polished: string)
    ensures var segments := PolishedSegments(polished);
      && JsString.Join(SegmentTexts(segments), EmphasisMarker) == polished
      && (forall i :: 0 <= i < |segments| ==> !JsString.Includes(segments[i].text, EmphasisMarker))
      && (forall i :: 0 <= i < |segments| - 1 ==>
            JsString.IndexOf(segments[i].text + EmphasisMarker, EmphasisMarker) == Some(|segments[i].text|))
      && |segments| == JsString.CountOccurrences(polished, EmphasisMarker) + 1
      && segments[0].Plain?
  {
    var segments := PolishedSegments(polished);
    assert SegmentTexts(segments) == JsString.Split(polished, EmphasisMarker);
    JsString.JoinSplit(polished, EmphasisMarker);
    JsString.SplitLength(polished, EmphasisMarker);
    forall i | 0 <= i < |segments| ensures !JsString.Includes(segments[i].text, EmphasisMarker) {
      JsString.SplitPiecesExcludeSeparator(polished, EmphasisMarker, i);
    }
    forall i | 0 <= i < |segments| - 1
      ensures JsString.IndexOf(segments[i].text + EmphasisMarker, EmphasisMarker) == Some(|segments[i].text|)
    {
      JsString.SplitPiecesEndAtFirstOccurrence(polished, EmphasisMarker, i);
    }
  }

  /**
   * The segmentation is the only one with those properties: any texts that
   * join back to the draft, take the markers left to right and leave none
   * in the last text are the texts of the segments.
   */
  lemma PolishedSegmentsUnique(polished: string, texts: seq<string>)
    requires texts != [] && JsString.Join(texts, EmphasisMarker) == polished
    requires forall i :: 0 <= i < |texts| - 1 ==>
      JsString.IndexOf(texts[i] + EmphasisMarker, EmphasisMarker) == Some(|texts[i]|)
    requires !JsString.Includes(texts[|texts| - 1], EmphasisMarker)
    ensures SegmentTexts(PolishedSegments(polished)) == texts
  {
    JsString.SplitUnique(polished, EmphasisMarker, texts);
    assert SegmentTexts(PolishedSegments(polished)) == JsString.Split(polished, EmphasisMarker);
  }

  /** An empty polished draft renders as one empty plain segment. */
  lemma PolishedSegmentsOfEmpty()
    ensures PolishedSegments("") == [Plain("")]
  {
    assert JsString.Split("", EmphasisMarker) == [""];
  }

  // ---------------------------------------------------------------- editor's notes

  /** A note with the number it is shown under. */
  datatype NumberedNote = NumberedNote(number: nat, note: string)

  /** The editor's notes in their given order, numbered from 1. */
  function NumberedNotes(notes: seq<string>): (items: seq<NumberedNote>)
    ensures |items| == |notes|
    ensures forall i :: 0 <= i < |items| ==> items[i] == NumberedNote(i + 1, notes[i])
  {
    seq(|notes|, i requires 0 <= i < |notes| => NumberedNote(i + 1, notes[i]))
  }

  // ---------------------------------------------------------------- controller

  /**
   * The controller's mutable state: the `AppState` record and the link
   * field. Each handler is a sequence of transitions; each transition
   * replaces a few fields of the record and keeps the others.
   */
  class Controller {
    var state: AppState
    var googleDocLink: string

    /** An error message is never on screen while an operation is in progress. */
    ghost predicate Valid()
      reads this
    {
      state.isLoading ==> state.error.None?
    }

    constructor()
      ensures Valid() && state == InitialState && googleDocLink == ""
    {
      state := InitialState;
      googleDocLink := "";
    }

    /** Typing in the draft text area. */
    method EditDraft(text: string)
      requires Valid()
      modifies this
      ensures Valid()
      ensures state == old(state).(draft := text) && googleDocLink == old(googleDocLink)
    {
      state := state.(draft := text);
    }

    /** Typing in the link field. */
    method EditLink(link: string)
      requires Valid()
      modifies this
      ensures Valid()
      ensures state == old(state) && googleDocLink == link
    {
      googleDocLink := link;
    }

    method BeginUpload()
      modifies this
      ensures Valid()
      ensures state == old(state).(isLoading := true, error := None) && googleDocLink == old(googleDocLink)
    {
      state := state.(isLoading := true, error := None);
    }

    /** The extracted text replaces the draft and the link is cleared. */
    method SucceedUpload(text: string)
      modifies this
      ensures Valid()
      ensures state == old(state).(draft := text, isLoading := false) && googleDocLink == ""
    {
      state := state.(draft := text, isLoading := false);
      googleDocLink := "";
    }

    method FailUpload(message: string)
      modifies this
      ensures Valid()
      ensures state == old(state).(error := Some(message), isLoading := false) && googleDocLink == old(googleDocLink)
    {
      state := state.(error := Some(message), isLoading := false);
    }

    /** `handleFileUpload`: on success the draft becomes the file's text and the link is cleared; on failure only the error and the busy flag change. */
    method HandleFileUpload(file: UploadedFile)
      modifies this
      ensures Valid()
      ensures match ExtractedText(file)
        case Ok(text) =>
          state == old(state).(draft := text, isLoading := false, error := None) && googleDocLink == ""
        case Err(message) =>
          state == old(state).(error := Some(message), isLoading := false) && googleDocLink == old(googleDocLink)
    {
      BeginUpload();
      var text: Result<string, string>;
      if file.mimeType == DocxMime {
        text := file.docxText;
      } else if file.mimeType == PdfMime {
        match file.pdfPages
        case Ok(pages) =>
          var fullText := ExtractTextFromPdf(pages);
          text := Ok(fullText);
        case Err(message) =>
          text := Err(message);
      } else if file.mimeType == TextMime {
        text := file.plainText;
      } else {
        text := Err(UnsupportedTypeMessage);
      }
      match text
      case Ok(t) => SucceedUpload(t);
      case Err(message) => FailUpload(message);
    }

    /** The previous result is discarded before the new attempt. */
    method BeginEvaluate()
      modifies this
      ensures Valid()
      ensures state == old(state).(isLoading := true, error := None, evaluation := None)
      ensures googleDocLink == old(googleDocLink)
    {
      state := state.(isLoading := true, error := None, evaluation := None);
    }

    method SucceedEvaluate(result: EvaluationResult)
      modifies this
      ensures Valid()
      ensures state == old(state).(evaluation := Some(result), isLoading := false)
      ensures googleDocLink == old(googleDocLink)
    {
      state := state.(evaluation := Some(result), isLoading := false);
    }

    method FailEvaluate(message: string)
      modifies this
      ensures Valid()
      ensures state == old(state).(error := Some(message), isLoading := false)
      ensures googleDocLink == old(googleDocLink)
    {
      state := state.(error := Some(message), isLoading := false);
    }

    /**
     * `handleEvaluate`: nothing happens for a blank submission; otherwise
     * the client is asked once (with no override key) and its result or its
     * error message ends up in the state. The draft and the link are kept.
     * Returns the request that went out, if any.
     */
    method HandleEvaluate(
      envKey: Option<string>,
      call: GeminiService.CallOutcome,
      parse: string -> Result<EvaluationResult, string>)
      returns (request: Option<GeminiService.Request>)
      requires Valid()
      modifies this
      ensures Valid()
      ensures googleDocLink == old(googleDocLink)
      ensures var submission := Submission(old(googleDocLink), old(state.draft));
        if JsString.IsBlank(submission) then
          state == old(state) && request.None?
        else
          var e := GeminiService.EvaluateArticle(submission, None, envKey, call, parse);
          && request == e.request
          && state == match e.outcome
               case Ok(result) => old(state).(evaluation := Some(result), isLoading := false, error := None)
               case Err(message) => old(state).(evaluation := None, isLoading := false, error := Some(message))
    {
      var submission := Submission(googleDocLink, state.draft);
      if JsString.IsBlank(submission) {
        request := None;
        return;
      }
      BeginEvaluate();
      var e := GeminiService.EvaluateArticle(submission, None, envKey, call, parse);
      request := e.request;
      match e.outcome
      case Ok(result) => SucceedEvaluate(result);
      case Err(message) => FailEvaluate(message);
    }
  }
}
