/** One card of the list (components/notes/note-card.tsx): shortened title
    and content, the AI-summary panel, and the card's own "deleting" flag. */
module NoteCard {
  import opened Notes
  import opened JsString

  /** Titles are cut at 50 characters, contents at 150. */
  const TitleLimit: nat := 50
  const ContentLimit: nat := 150
  const Ellipsis := "..."

  /** `truncate(text, length)`: short texts unchanged; otherwise the first
      `length` characters, trimmed, followed by "...". */
  function Truncate(text: string, length: nat): (r: string)
    ensures |text| <= length ==> r == text
    ensures |text| > length ==> 3 <= |r| <= length + 3 && r[|r| - 3..] == Ellipsis
    ensures |text| > length ==>
      |r| >= 3 && exists i, j :: TrimmedAt(text[..length], i, j) && r[..|r| - 3] == text[i..j]
  {
    if |text| <= length then text
    else
      var cut := text[..length];
      assert cut[TrimStart(cut)..TrimEnd(cut)] == text[TrimStart(cut)..TrimEnd(cut)];
      Trim(cut) + Ellipsis
  }

  /** A shortened text that was cut has no white space at either end of the
      part before "...". It is a slice of the first `length` characters, but
      not always a prefix: leading white space is dropped too. */
  lemma TruncatedTextIsTrimmed(text: string, length: nat)
    requires |text| > length
    ensures var r := Truncate(text, length);
      var body := r[..|r| - 3];
      body == [] || (!IsWhiteSpace(body[0]) && !IsWhiteSpace(body[|body| - 1]))
  {
    var r := Truncate(text, length);
    assert r[..|r| - 3] == Trim(text[..length]);
  }

  /** A title of 50 spaces and a letter shortens to "..." alone: the cut keeps
      only spaces, and trimming removes them. */
  lemma TruncateCanDropEverything()
    ensures var text := seq(50, _ => ' ') + "x";
      |text| > TitleLimit && Truncate(text, TitleLimit) == Ellipsis
  {
    var text := seq(50, _ => ' ') + "x";
    var cut := text[..TitleLimit];
    assert forall k :: 0 <= k < |cut| ==> IsWhiteSpace(cut[k]);
    TrimEmptyIffAllWhiteSpace(cut);
  }

  /** The shown title and content never exceed their limit by more than the
      three dots, and short ones are shown unchanged. */
  lemma CardTextBounds(note: Note)
    ensures |Truncate(note.title, TitleLimit)| <= TitleLimit + 3
    ensures |Truncate(note.content, ContentLimit)| <= ContentLimit + 3
    ensures |note.title| <= TitleLimit ==> Truncate(note.title, TitleLimit) == note.title
    ensures |note.content| <= ContentLimit ==> Truncate(note.content, ContentLimit) == note.content
  {
  }

  /** `isSummarizing`: the note being summarized is this card's note; a null
      `summarizing` matches no card. */
  predicate IsSummarizing(note: Note, summarizing: Option<string>): (b: bool)
    ensures summarizing.None? ==> !b
    ensures b <==> summarizing.Some? && summarizing.value == note.id
  {
    summarizing == Some(note.id)
  }

  /** The arguments `handleSummarize` passes to `onSummarize`. */
  datatype SummarizeCall = SummarizeCall(id: string, content: string)

  function HandleSummarize(note: Note): (call: SummarizeCall)
    ensures call.id == note.id && call.content == note.content
  {
    SummarizeCall(note.id, note.content)
  }

  /** Note ids are unique. */
  ghost predicate DistinctIds(cards: seq<Note>) {
    forall i, j :: 0 <= i < j < |cards| ==> cards[i].id != cards[j].id
  }

  /** Once the summarizing id is the one card `k` passed on, among cards with
      distinct ids exactly card `k` shows itself as summarizing. */
  lemma OnlyRequestingCardSummarizes(cards: seq<Note>, k: nat)
    requires DistinctIds(cards) && k < |cards|
    ensures forall i :: 0 <= i < |cards| ==>
      (IsSummarizing(cards[i], Some(HandleSummarize(cards[k]).id)) <==> i == k)
  {
    forall i | 0 <= i < |cards| && i != k
      ensures !IsSummarizing(cards[i], Some(HandleSummarize(cards[k]).id))
    {
      if i < k { assert cards[i].id != cards[k].id; } else { assert cards[k].id != cards[i].id; }
    }
  }

  /** The summary panel: hidden, pulsing placeholder lines while this card's
      note is being summarized, or the summary text. */
  datatype SummaryPanel = Hidden | Placeholder | Text(summary: string)

  function SummaryPanelOf(note: Note, summarizing: Option<string>): (p: SummaryPanel)
    ensures p != Hidden <==>
      (note.summary.Some? && note.summary.value != "") || IsSummarizing(note, summarizing)
    ensures p == Placeholder <==> IsSummarizing(note, summarizing)
    ensures p.Text? ==> p.summary != "" && note.summary == Some(p.summary)
  {
    var shown := (note.summary.Some? && note.summary.value != "") || IsSummarizing(note, summarizing);
    if !shown then Hidden
    else if IsSummarizing(note, summarizing) then Placeholder
    else Text(note.summary.value)
  }

  /** How a delete request ended; the card ignores which. */
  datatype DeleteOutcome = Deleted | Failed(error: string)

  /** The card's local state: the note it shows and whether its delete
      request is in flight. `handleDelete` awaits `onDelete`, so it runs in
      two steps: StartDelete before the await, FinishDelete when it settles. */
  class Card {
    const note: Note
    var isDeleting: bool

    constructor (note: Note)
      ensures this.note == note && !isDeleting
    {
      this.note := note;
      isDeleting := false;
    }

    /** The delete menu item is disabled while a delete is in flight. */
    predicate DeleteEnabled(): (b: bool)
      reads this
      ensures b <==> !isDeleting
    {
      !isDeleting
    }

    /** Raise the flag and hand the card's own id to `onDelete`. */
    method StartDelete() returns (id: string)
      modifies this
      ensures isDeleting && !DeleteEnabled()
      ensures id == note.id
    {
      isDeleting := true;
      id := note.id;
    }

    /** The `finally` branch: lower the flag whether the delete succeeded or
      failed; a failure is logged and swallowed, so nothing is returned. */
    method FinishDelete(outcome: DeleteOutcome)
      modifies this
      ensures !isDeleting && DeleteEnabled()
    {
      isDeleting := false;
    }

    /** The whole handler against a given `onDelete`: the id passed is the
      card's, and afterwards the flag is down, on either outcome. */
    method HandleDelete(onDelete: string -> DeleteOutcome) returns (deletedId: string)
      modifies this
      ensures deletedId == note.id
      ensures !isDeleting
    {
      deletedId := StartDelete();
      var outcome := onDelete(deletedId);
      FinishDelete(outcome);
    }
  }
}
