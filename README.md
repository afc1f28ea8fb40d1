# NotesBuddy notes components in Dafny

NotesBuddy is a note-taking web app: a signed-in user writes notes (title,
content, an optional AI summary), searches and sorts them in a list of cards,
and asks an AI model to summarize a note in one of four styles. This project
models the logic in the three components that carry it:

- **The note list** (`components/notes/note-list.tsx`), module `NoteList`:
  - a case-insensitive search over title, content and summary;
  - a sorted copy of the survivors, newest first, oldest first, by title, or
    in filtered order;
  - the choice between loading skeletons, the cards and the empty-state
    message.
- **The note card** (`components/notes/note-card.tsx`), module `NoteCard`:
  - title and content shortening (`truncate`);
  - the per-card "is being summarized" test and the AI-summary panel;
  - the card's `isDeleting` flag around an awaited delete (class `Card`).
- **The note editor** (`components/notes/note-editor.tsx`), module
  `NoteEditor`:
  - the form's validation schema and its initial values;
  - the guard that starts summarization and the visibility of the summary
    controls and section;
  - the `isSummarizing` flag and the summary field update around the summary
    call (class `Editor`).

Three supporting modules:

- `Notes` holds the `Note` record, shaped like one row of the `notes` table
  in `lib/supabase.ts`.
- `JsString` models the ECMAScript string built-ins the components call:
  `toLowerCase`, `includes`, `substring` and `trim`.
  - `Includes` is proved equal to "the needle occurs at some position".
  - `Trim` is stated by where the trimmed text starts and ends, with the
    white-space set of ECMA-262.
- `ArraySort` models `Array.prototype.sort`, which must be stable (section
  22.1.3.27 of ECMA-262, 10th edition). It is written as an insertion sort,
  and the module proves:
  - the result is a permutation of the input;
  - the result is sorted;
  - elements the comparator ties keep their order (stability);
  - any sorted, stable result equals this one, so the model stands for
    whatever algorithm the engine runs.

Components that await something (`handleDelete` in the card, the summarize
mutation in the editor) are modelled as classes. Each handler is split at the
`await` into one method before it and one method when the call settles, and a
third method composes the two against a given callee.

## Model

| member | source | states |
|---|---|---|
| JsString.LowerChar | components/notes/note-list.tsx:35-37 | Upper-case ASCII letters map to their lower-case letter; every other character is unchanged. |
| JsString.ToLowerCase | components/notes/note-list.tsx:35-37 | Lower-casing keeps the length and lower-cases each character in place. |
| JsString.ToLowerCaseIdempotent | components/notes/note-list.tsx:35-37 | Lower-casing twice equals lower-casing once, and the result has no upper-case ASCII letter. |
| JsString.EmptyOccursEverywhere | components/notes/note-list.tsx:35-37 | The empty string occurs in every string. |
| JsString.OnlyEmptyOccursInEmpty | components/notes/note-list.tsx:37 | Only the empty string occurs in the empty string, and that one occurs in any string. |
| JsString.OccursInTail | components/notes/note-list.tsx:35-37 | An occurrence in the tail is an occurrence in the string. An occurrence not at position 0 is an occurrence in the tail. |
| JsString.Includes | components/notes/note-list.tsx:35-37 | `includes` is true exactly when the needle occurs at some position of the string. |
| JsString.LeadingWhiteSpace | components/notes/note-card.tsx:56 | Counts the run of white space at the front of a string and no further. |
| JsString.TrailingWhiteSpace | components/notes/note-card.tsx:56 | Finds where the run of white space at the end of a string starts. |
| JsString.TrimStart | components/notes/note-card.tsx:56 | The start index of the trimmed text lies within the string. |
| JsString.TrimEnd | components/notes/note-card.tsx:56 | The end index of the trimmed text is at least the start index and within the string. |
| JsString.Trim | components/notes/note-card.tsx:56 | `trim` returns the slice between the leading and trailing white space. Everything cut off is white space, and a non-empty result neither starts nor ends with white space. |
| JsString.TrimmedAtUnique | components/notes/note-card.tsx:56 | Any two index pairs that describe trimming cut out the same text, so `trim` has a single correct result. |
| JsString.TrimEmptyIffAllWhiteSpace | components/notes/note-editor.tsx:76 | A string trims to "" exactly when all its characters are white space. |
| ArraySort.InsertPermutes | components/notes/note-list.tsx:41-52 | Inserting one element adds exactly that element. |
| ArraySort.Sort | components/notes/note-list.tsx:41-52 | The sorted copy is a permutation of its input. |
| ArraySort.RankLaws | components/notes/note-list.tsx:41-52 | A consistent comparator ties every element with itself, and its ties and its order are symmetric. |
| ArraySort.SortedCons | components/notes/note-list.tsx:41-52 | An element ranked no later than every element of a sorted sequence can go in front of it. |
| ArraySort.InsertSorted | components/notes/note-list.tsx:41-52 | Inserting into a sorted sequence keeps it sorted. |
| ArraySort.SortSorted | components/notes/note-list.tsx:41-52 | With a consistent comparator, the sort's result is sorted. |
| ArraySort.EqualRankedMembers | components/notes/note-list.tsx:41-52 | The elements tied with `x` are elements of the sequence that compare equal to `x`. |
| ArraySort.StableWithNonEmpty | components/notes/note-list.tsx:41-52 | A non-empty sequence is stable only with another non-empty one. |
| ArraySort.EqualRankedCons | components/notes/note-list.tsx:41-52 | The ties of `x` in `y` followed by `t` are `y`, if tied with `x`, followed by the ties of `x` in `t`. |
| ArraySort.NotBothEqualRanked | components/notes/note-list.tsx:41-52 | No element is tied with two elements the comparator separates. |
| ArraySort.InsertEqualRanked | components/notes/note-list.tsx:41-52 | Inserting `x` puts it before the elements it is tied with, as putting it in front would. |
| ArraySort.SortStable | components/notes/note-list.tsx:41-52 | Elements the comparator ties keep their input order: the sort is stable. |
| ArraySort.SameHead | components/notes/note-list.tsx:41-52 | Two sorted sequences that are stable with each other start with the same element. |
| ArraySort.StableWithTails | components/notes/note-list.tsx:41-52 | Stability is kept when the common first element is removed. |
| ArraySort.SortedTail | components/notes/note-list.tsx:41-52 | The tail of a sorted sequence is sorted. |
| ArraySort.StableSortIsUnique | components/notes/note-list.tsx:41-52 | Two sorted sequences that are stable with each other are equal. |
| ArraySort.SortIsTheStableSort | components/notes/note-list.tsx:41-52 | Any sorted result that is stable with the input is the one `Sort` gives. |
| ArraySort.SortAllTiesIsIdentity | components/notes/note-list.tsx:51 | A comparator that ties everything leaves the order unchanged. |
| NoteList.Matches | components/notes/note-list.tsx:33-39 | A note matches exactly when the lower-cased term occurs in the lower-cased title, the content, or the summary if there is one. A null summary never makes a note match. An empty summary also adds nothing. |
| NoteList.SubsequenceOfLonger | components/notes/note-list.tsx:33 | A subsequence stays one when an element is put in front of the longer sequence. |
| NoteList.SubsequenceDropHead | components/notes/note-list.tsx:33 | Dropping the first element of a subsequence leaves a subsequence. |
| NoteList.FilterNotes | components/notes/note-list.tsx:33-39 | The filtered list keeps the original order of `notes`. It holds exactly the matching notes, each as many times as in `notes`. |
| NoteList.EmptySearchKeepsAll | components/notes/note-list.tsx:33-39 | With an empty search term every note is kept, in order. |
| NoteList.ComparatorConsistent | components/notes/note-list.tsx:41-52 | The newest, oldest and fallback comparators are consistent. The title comparator is consistent when the collation is. |
| NoteList.Comparator | components/notes/note-list.tsx:41-52 | With "newest" a note ranks no later than another exactly when it was updated no earlier; with "oldest" exactly when it was updated no later. With "alphabetical" the rank is the collation of the titles. Any other option ties every pair. |
| NoteList.SortNotes | components/notes/note-list.tsx:41 | Sorting the copy yields a permutation of the filtered notes. |
| NoteList.VisibleNotes | components/notes/note-list.tsx:33-52 | The list shows exactly the matching notes, each as many times as the filter keeps it. |
| NoteList.VisibleNotesSortedAndStable | components/notes/note-list.tsx:41-52 | For every sort option the shown list is sorted by that option's comparator. Notes the comparator ties keep their filtered order. |
| NoteList.NewestFirst | components/notes/note-list.tsx:42-44 | With "newest", `updated_at` never increases along the list. |
| NoteList.OldestFirst | components/notes/note-list.tsx:45-47 | With "oldest", `updated_at` never decreases along the list. |
| NoteList.AlphabeticalByTitle | components/notes/note-list.tsx:48-50 | With "alphabetical", titles never go backwards in the collation order. Notes whose titles collate equal keep their filtered order. |
| NoteList.OtherOptionKeepsFilteredOrder | components/notes/note-list.tsx:51 | Any other sort option shows the filtered list unchanged. |
| NoteList.AnyStableSortShowsVisibleNotes | components/notes/note-list.tsx:41-52 | Any stable sorting algorithm gives the list the model shows. |
| NoteList.Render | components/notes/note-list.tsx:54-141 | Skeletons appear exactly while loading. Otherwise the list shows the cards of the non-empty sorted list, or an empty state when no note matches. The empty state's message depends on whether a term was typed. With no term, it appears exactly when there are no notes. |
| NoteCard.Truncate | components/notes/note-card.tsx:54-57 | A text no longer than the limit is returned unchanged. A longer one becomes at most limit + 3 characters ending in "...". What precedes the dots is what trimming leaves of the first `limit` characters. |
| NoteCard.TruncatedTextIsTrimmed | components/notes/note-card.tsx:56 | The part of a cut text before "..." has no white space at either end. |
| NoteCard.TruncateCanDropEverything | components/notes/note-card.tsx:56 | A title of 50 spaces and a letter shortens to "..." alone, so the shortened text is not always a prefix. |
| NoteCard.CardTextBounds | components/notes/note-card.tsx:65 | The shown title is at most 53 characters and the shown content at most 153. Texts within 50 and 150 characters are shown unchanged. |
| NoteCard.HandleSummarize | components/notes/note-card.tsx:42-44 | The summarize handler passes the card's own id and content, unchanged. |
| NoteCard.IsSummarizing | components/notes/note-card.tsx:59 | A card is summarizing exactly when the summarizing id is present and equal to its note's id; a null id matches no card. |
| NoteCard.OnlyRequestingCardSummarizes | components/notes/note-card.tsx:59 | When note ids are distinct, exactly the card whose id was passed on shows itself as summarizing. |
| NoteCard.SummaryPanelOf | components/notes/note-card.tsx:104-123 | The panel is shown exactly when the summary is a non-empty string or this card's note is being summarized. While summarizing it shows placeholder lines, otherwise the summary text. |
| NoteCard.Card.constructor | components/notes/note-card.tsx:29 | A new card is not deleting. |
| NoteCard.Card.DeleteEnabled | components/notes/note-card.tsx:84-86 | The delete item is enabled exactly when no delete is in flight. |
| NoteCard.Card.StartDelete | components/notes/note-card.tsx:31-34 | The flag goes up, so the delete item is disabled, and the card's own id is handed on. |
| NoteCard.Card.FinishDelete | components/notes/note-card.tsx:35-39 | The flag goes down on either outcome, and nothing is reported. |
| NoteCard.Card.HandleDelete | components/notes/note-card.tsx:31-40 | The card's id is passed to `onDelete`, and the flag is down afterwards whatever `onDelete` returned. |
| NoteEditor.ParseStyle | components/notes/note-editor.tsx:143-146 | A selector value names a style exactly when it is one of the four style values. |
| NoteEditor.StyleValue | components/notes/note-editor.tsx:143-146 | Each style's selector value is one of "professional", "casual", "technical" and "creative". |
| NoteEditor.StyleValueRoundTrip | components/notes/note-editor.tsx:39 | Every style is recovered from its selector value. |
| NoteEditor.Validate | components/notes/note-editor.tsx:22-26 | The form is valid exactly when title and content each have at least one character; no trimming happens. A valid form passes on unchanged. Otherwise the issues are exactly "Title is required" for an empty title and "Content is required" for empty content. |
| NoteEditor.SummaryNeverBlocksSaving | components/notes/note-editor.tsx:25 | The summary, a string or None (which stands for both null and absent), never changes whether the form is valid. |
| NoteEditor.WhiteSpaceOnlyIsAccepted | components/notes/note-editor.tsx:23-24 | A title and content of white space only pass validation. |
| NoteEditor.DefaultValues | components/notes/note-editor.tsx:41-48 | The form starts with the note's title, content and summary, or "" for each without a note. A null summary starts as "". |
| NoteEditor.DefaultsValidity | components/notes/note-editor.tsx:22-48 | A new note's form fails validation on both fields. An existing note's form validates exactly when its title and content are non-empty. |
| NoteEditor.ShouldSummarize | components/notes/note-editor.tsx:76 | Summarizing starts exactly when more than ten characters remain once leading and trailing white space is dropped; content of white space only never starts it. |
| NoteEditor.ShowSummaryControls | components/notes/note-editor.tsx:133 | The controls are hidden for content of ten characters or fewer, and shown for every content that passes the summarize guard. |
| NoteEditor.ShowSummarySection | components/notes/note-editor.tsx:172 | The summary section is shown whenever a summary is being generated; otherwise exactly when the summary is a non-empty string, so a null and an empty summary both hide it. |
| NoteEditor.SummarizeGuardImpliesControls | components/notes/note-editor.tsx:76-133 | Content that passes the summarize guard also shows the summarize controls. |
| NoteEditor.ControlsWithoutSummarizing | components/notes/note-editor.tsx:76-133 | Eleven spaces show the controls, but clicking summarizes nothing. |
| NoteEditor.NullAndEmptySummaryLookAlike | components/notes/note-editor.tsx:43-172 | Starting the summary as "" or keeping it null shows the summary section the same way. |
| NoteEditor.Editor.constructor | components/notes/note-editor.tsx:38-48 | A new editor holds the default values, is not summarizing, and has the "professional" style. |
| NoteEditor.Editor.SummarizeEnabled | components/notes/note-editor.tsx:150-156 | The summarize button is enabled exactly when no summary is being generated. |
| NoteEditor.Editor.Reset | components/notes/note-editor.tsx:50-58 | Given a note, the fields become its title, content and summary, with a null summary kept null. Nothing else changes. |
| NoteEditor.Editor.EditContent | components/notes/note-editor.tsx:115-131 | Typing changes only the content. |
| NoteEditor.Editor.SelectStyle | components/notes/note-editor.tsx:135-148 | Picking a style changes only the style. |
| NoteEditor.Editor.HandleSummarize | components/notes/note-editor.tsx:60-79 | A summary is requested exactly when the trimmed content is longer than 10 characters. The request carries the untrimmed content and the selected style. The flag then goes up, which disables the button and shows the summary section. Otherwise nothing changes, and the form fields are never touched. |
| NoteEditor.Editor.SettleSummary | components/notes/note-editor.tsx:63-71 | The flag goes down on success and on failure. A returned text replaces the summary field, and title, content and style stay as they were. |
| NoteEditor.Editor.Summarize | components/notes/note-editor.tsx:60-79 | A click on content that passes the guard ends with the flag down and the summary set to the service's text for that content and style. Any other click changes nothing, the flag included. Title, content and style never change. |

## Left out

- The data hook (`hooks/useNotes.ts`) is not part of this model: fetching, creating, updating and deleting notes are calls to a hosted database followed by cache invalidation and toasts. The list, card and editor receive their results as inputs. `onDelete` is a parameter of `Card.HandleDelete` that reports an outcome. `Editor.SettleSummary` takes the settled result of the summary call.
- The AI summary service (`lib/ai.ts`) is not part of this model. `Editor.Summarize` takes it as a total function from content and style to text, because the service turns every failure into a fallback text. `Editor.SettleSummary` still covers a rejected call.
- Authentication, routing, page components and static markup are outside this model.
- `getFormattedDate` (components/notes/note-card.tsx:46-52) is not modelled. It depends on the clock and on a date-formatting library.
- Dates are millisecond counts (`int`). Parsing ISO strings with `new Date(..)`, and an unparsable date giving `NaN` and a `NaN` comparator result, are not modelled.
- `localeCompare` is a parameter `collate`. For "alphabetical" it is required to be consistent: its sign is antisymmetric and "at most 0" is transitive, as ECMA-262 asks of a sort comparator. Locale collation tables are not modelled.
- JsString.ToLowerCase: lower-cases ASCII letters only. Unicode case mapping, including mappings that change the length, is not modelled.
- Strings are sequences of `char`. The difference between UTF-16 code units and Unicode scalar values, such as surrogate pairs, is not modelled.
- NoteList.Render: says which view is chosen (skeletons, empty state with its message, or cards with their notes), not the markup. The six skeleton placeholders, the headings and the "New Note" links are left out.
- NoteCard.SummaryPanelOf and the `Card` and `Editor` classes model component state, not React's render scheduling. The react-query mutation is modelled as run to completion.
- The summarize menu item of a card is disabled while that card's note is summarized (components/notes/note-card.tsx:80). The model covers this through `IsSummarizing` only.
- Form submission (`onSubmit`, components/notes/note-editor.tsx:81-83) only forwards the data to the caller. It is left out beyond `Validate`.
- The error a failed delete produces is written to the console (components/notes/note-card.tsx:36). The model does not capture the logging: `Card.FinishDelete` only drops the flag.
