/** The note form (components/notes/note-editor.tsx): its validation
    schema, its initial values, and the "summarize with AI" flow that fills
    in the summary field. */
module NoteEditor {
  import opened Notes
  import opened JsString

  /** The tones the summary-style selector offers. */
  datatype SummaryStyle = Professional | Casual | Technical | Creative

  const DefaultStyle: SummaryStyle := Professional

  /** The value each selector item carries: one of four distinct strings. */
  function StyleValue(style: SummaryStyle): (v: string)
    ensures v in {"professional", "casual", "technical", "creative"}
  {
    match style
    case Professional => "professional"
    case Casual => "casual"
    case Technical => "technical"
    case Creative => "creative"
  }

  /** The style a selector value stands for; no other value names a style. */
  function ParseStyle(value: string): (r: Option<SummaryStyle>)
    ensures r.Some? ==> StyleValue(r.value) == value
    ensures r.None? ==> forall style: SummaryStyle :: StyleValue(style) != value
  {
    if value == "professional" then Some(Professional)
    else if value == "casual" then Some(Casual)
    else if value == "technical" then Some(Technical)
    else if value == "creative" then Some(Creative)
    else None
  }

  /** Every style survives the round trip through its selector value. */
  lemma StyleValueRoundTrip(style: SummaryStyle)
    ensures ParseStyle(StyleValue(style)) == Some(style)
  {
  }

  /** The form's fields. A summary that is null or absent is None. */
  datatype FormData = FormData(title: string, content: string, summary: Option<string>)

  datatype Field = Title | Content
  datatype Issue = Issue(path: Field, message: string)
  datatype Validation = Valid(data: FormData) | Invalid(issues: seq<Issue>)

  const TitleRequired := "Title is required"
  const ContentRequired := "Content is required"

  /** The schema: title and content are strings of at least one character
      (nothing is trimmed), the summary is a string or None (null or absent). */
  function Validate(form: FormData): (v: Validation)
    ensures v.Valid? <==> |form.title| >= 1 && |form.content| >= 1
    ensures v.Valid? ==> v.data == form
    ensures v.Invalid? ==>
      && (Issue(Title, TitleRequired) in v.issues <==> form.title == "")
      && (Issue(Content, ContentRequired) in v.issues <==> form.content == "")
      && (forall issue :: issue in v.issues ==>
            issue == Issue(Title, TitleRequired) || issue == Issue(Content, ContentRequired))
  {
    var issues :=
      (if |form.title| < 1 then [Issue(Title, TitleRequired)] else [])
      + (if |form.content| < 1 then [Issue(Content, ContentRequired)] else []);
    if issues == [] then Valid(form) else Invalid(issues)
  }

  /** Only the title and the content decide validity: the summary never does. */
  lemma SummaryNeverBlocksSaving(form: FormData, summary: Option<string>)
    ensures Validate(form.(summary := summary)).Valid? <==> Validate(form).Valid?
  {
  }

  /** White space counts as content: a blank-looking form is accepted. */
  lemma WhiteSpaceOnlyIsAccepted()
    ensures Validate(FormData(" ", "\n", None)).Valid?
  {
  }

  /** The values the form starts with: the note's fields, or "" for each when
      there is no note. A null summary starts as "". */
  function DefaultValues(note: Option<Note>): (f: FormData)
    ensures f.summary.Some?
    ensures note.None? ==> f == FormData("", "", Some(""))
    ensures note.Some? ==> f.title == note.value.title && f.content == note.value.content
    ensures note.Some? && note.value.summary.Some? ==> f.summary == note.value.summary
    ensures note.Some? && note.value.summary.None? ==> f.summary == Some("")
  {
    var title := if note.Some? then note.value.title else "";
    var content := if note.Some? then note.value.content else "";
    var summary := if note.Some? && note.value.summary.Some? then note.value.summary.value else "";
    // `x || ''` replaces a falsy x by ''; for a string that changes nothing
    FormData(if title != "" then title else "",
             if content != "" then content else "",
             Some(if summary != "" then summary else ""))
  }

  /** A new note's form cannot be saved until both fields are filled in; an
      existing note's form can, exactly when the stored note has both. */
  lemma DefaultsValidity(note: Option<Note>)
    ensures note.None? ==>
      Validate(DefaultValues(note)) == Invalid([Issue(Title, TitleRequired), Issue(Content, ContentRequired)])
    ensures note.Some? ==>
      (Validate(DefaultValues(note)).Valid? <==> note.value.title != "" && note.value.content != "")
  {
  }

  /** Summarizing starts only when the content, trimmed, is longer than ten
      characters. */
  predicate ShouldSummarize(content: string): (b: bool)
    ensures b <==> TrimEnd(content) - TrimStart(content) > 10
    ensures (forall k :: 0 <= k < |content| ==> IsWhiteSpace(content[k])) ==> !b
  {
    TrimEmptyIffAllWhiteSpace(content);
    |Trim(content)| > 10
  }

  /** The style selector and the summarize button appear once the untrimmed
      content is longer than ten characters. */
  predicate ShowSummaryControls(content: string): (b: bool)
    ensures |content| <= 10 ==> !b
    ensures ShouldSummarize(content) ==> b
  {
    |content| > 10
  }

  /** The summary field is shown when it holds a non-empty string or while a
      summary is being generated. */
  predicate ShowSummarySection(summary: Option<string>, isSummarizing: bool): (b: bool)
    ensures isSummarizing ==> b
    ensures !isSummarizing ==> (b <==> summary.Some? && |summary.value| > 0)
    ensures summary == None || summary == Some("") ==> (b <==> isSummarizing)
  {
    (summary.Some? && summary.value != "") || isSummarizing
  }

  /** Content that passes the guard has its controls on screen. */
  lemma SummarizeGuardImpliesControls(content: string)
    ensures ShouldSummarize(content) ==> ShowSummaryControls(content)
  {
  }

  /** Not conversely: eleven spaces show the button, but a click does nothing. */
  lemma ControlsWithoutSummarizing()
    ensures var content := seq(11, _ => ' ');
      ShowSummaryControls(content) && !ShouldSummarize(content)
  {
    var content := seq(11, _ => ' ');
    assert forall k :: 0 <= k < |content| ==> IsWhiteSpace(content[k]);
    TrimEmptyIffAllWhiteSpace(content);
  }

  /** A summary field that starts as null (after the reset effect) and one
      that starts as "" (the default values) look the same. */
  lemma NullAndEmptySummaryLookAlike(note: Note, isSummarizing: bool)
    ensures ShowSummarySection(DefaultValues(Some(note)).summary, isSummarizing)
        <==> ShowSummarySection(note.summary, isSummarizing)
  {
  }

  /** The arguments of the summary call. */
  datatype SummaryRequest = SummaryRequest(content: string, style: SummaryStyle)

  /** The editor's state: the form fields, the "summarizing" flag and the
      selected style. The summary call is awaited, so the flow runs in two
      steps: HandleSummarize before the await, SettleSummary when it settles. */
  class Editor {
    var title: string
    var content: string
    var summary: Option<string>
    var isSummarizing: bool
    var summaryStyle: SummaryStyle

    function Values(): FormData
      reads this
    {
      FormData(title, content, summary)
    }

    /** The summarize button is disabled while a summary is being generated. */
    predicate SummarizeEnabled(): (b: bool)
      reads this
      ensures b <==> !isSummarizing
    {
      !isSummarizing
    }

    constructor (note: Option<Note>)
      ensures Values() == DefaultValues(note)
      ensures !isSummarizing && summaryStyle == DefaultStyle
    {
      var values := DefaultValues(note);
      title, content, summary := values.title, values.content, values.summary;
      isSummarizing := false;
      summaryStyle := DefaultStyle;
    }

    /** The effect that runs whenever a note is given: reset the fields to the
      note's, keeping a null summary null. */
    method Reset(note: Note)
      modifies this
      ensures Values() == FormData(note.title, note.content, note.summary)
      ensures isSummarizing == old(isSummarizing) && summaryStyle == old(summaryStyle)
    {
      title, content, summary := note.title, note.content, note.summary;
    }

    /** Typing into the content field. */
    method EditContent(value: string)
      modifies this
      ensures content == value
      ensures title == old(title) && summary == old(summary)
      ensures isSummarizing == old(isSummarizing) && summaryStyle == old(summaryStyle)
    {
      content := value;
    }

    /** Picking a style in the selector. */
    method SelectStyle(style: SummaryStyle)
      modifies this
      ensures summaryStyle == style
      ensures Values() == old(Values()) && isSummarizing == old(isSummarizing)
    {
      summaryStyle := style;
    }

    /** `handleSummarize`: when the trimmed content is long enough, raise the
      flag and ask for a summary of the content as it stands (untrimmed) in
      the selected style; otherwise change nothing. */
    method HandleSummarize() returns (request: Option<SummaryRequest>)
      modifies this
      ensures request.Some? <==> ShouldSummarize(old(content))
      ensures request.Some? ==>
        && request.value == SummaryRequest(old(content), old(summaryStyle))
        && isSummarizing && !SummarizeEnabled()
        && ShowSummarySection(summary, isSummarizing)
      ensures request.None? ==> isSummarizing == old(isSummarizing)
      ensures Values() == old(Values()) && summaryStyle == old(summaryStyle)
    {
      if ShouldSummarize(content) {
        isSummarizing := true;
        request := Some(SummaryRequest(content, summaryStyle));
      } else {
        request := None;
      }
    }

    /** The call settled: the flag drops in any case (`finally`); a returned
      text replaces the summary field and nothing else. `reply` is None when
      the call was rejected. */
    method SettleSummary(reply: Option<string>)
      modifies this
      ensures !isSummarizing && SummarizeEnabled()
      ensures title == old(title) && content == old(content) && summaryStyle == old(summaryStyle)
      ensures summary == if reply.Some? then Some(reply.value) else old(summary)
    {
      isSummarizing := false;
      if reply.Some? {
        summary := Some(reply.value);
      }
    }

    /** The whole flow against a summary service that always answers (it
      turns its own failures into a fallback text): afterwards the flag is
      down, and the summary is the service's answer for the content and
      style of the click, or nothing changed at all. */
    method Summarize(generate: (string, SummaryStyle) -> string)
      modifies this
      ensures ShouldSummarize(old(content)) ==> !isSummarizing
      ensures !ShouldSummarize(old(content)) ==> isSummarizing == old(isSummarizing)
      ensures title == old(title) && content == old(content) && summaryStyle == old(summaryStyle)
      ensures ShouldSummarize(old(content)) ==>
        summary == Some(generate(old(content), old(summaryStyle)))
      ensures !ShouldSummarize(old(content)) ==> summary == old(summary)
    {
      var request := HandleSummarize();
      if request.Some? {
        var text := generate(request.value.content, request.value.style);
        SettleSummary(Some(text));
      }
    }
  }
}
