/** The note list (components/notes/note-list.tsx): a search filter over the
    notes the page received, then a sorted copy of the survivors, then either
    the cards or an empty-state message. */
module NoteList {
  import opened Notes
  import opened JsString
  import ArraySort

  /** The values of the sort menu; "newest" is the initial one. */
  const Newest := "newest"
  const Oldest := "oldest"
  const Alphabetical := "alphabetical"

  const NoMatchMessage := "We couldn't find any notes matching your search."
  const NoNotesMessage := "You haven't created any notes yet."

  /** The search predicate: the lower-cased term occurs in the lower-cased
      title, the content or the summary. The summary is consulted only when
      it is truthy (neither null nor empty). */
  function Matches(note: Note, searchTerm: string): (b: bool)
    ensures b <==>
      || OccursIn(ToLowerCase(searchTerm), ToLowerCase(note.title))
      || OccursIn(ToLowerCase(searchTerm), ToLowerCase(note.content))
      || (note.summary.Some? && OccursIn(ToLowerCase(searchTerm), ToLowerCase(note.summary.value)))
    ensures note.summary.None? ==>
      (b <==> OccursIn(ToLowerCase(searchTerm), ToLowerCase(note.title))
              || OccursIn(ToLowerCase(searchTerm), ToLowerCase(note.content)))
  {
    var term := ToLowerCase(searchTerm);
    // an empty summary contains only the empty term, which the title contains too
    OnlyEmptyOccursInEmpty(term, ToLowerCase(note.title));
    || Includes(ToLowerCase(note.title), term)
    || Includes(ToLowerCase(note.content), term)
    || (note.summary.Some? && note.summary.value != "" && Includes(ToLowerCase(note.summary.value), term))
  }

  /** `a` is `b` with some elements dropped and the rest in their order. */
  predicate IsSubsequence<T(==)>(a: seq<T>, b: seq<T>)
    decreases |b|
  {
    if a == [] then true
    else if b == [] then false
    else if a[0] == b[0] then IsSubsequence(a[1..], b[1..])
    else IsSubsequence(a, b[1..])
  }

  lemma {:induction false} SubsequenceOfLonger<T>(a: seq<T>, b: seq<T>, x: T)
    requires IsSubsequence(a, b)
    ensures IsSubsequence(a, [x] + b)
    decreases |b|, 1
  {
    assert ([x] + b)[1..] == b;
    if a != [] && a[0] == x {
      SubsequenceDropHead(a, b);
    }
  }

  lemma {:induction false} SubsequenceDropHead<T>(a: seq<T>, b: seq<T>)
    requires a != [] && IsSubsequence(a, b)
    ensures IsSubsequence(a[1..], b)
    decreases |b|, 0
  {
    assert b == [b[0]] + b[1..];
    if a[0] == b[0] {
      SubsequenceOfLonger(a[1..], b[1..], b[0]);
    } else {
      SubsequenceDropHead(a, b[1..]);
      SubsequenceOfLonger(a[1..], b[1..], b[0]);
    }
  }

  /** `notes.filter(note => Matches(note, searchTerm))`: exactly the matching
      notes, each as often as in `notes`, in their original order. */
  function FilterNotes(notes: seq<Note>, searchTerm: string): (r: seq<Note>)
    ensures IsSubsequence(r, notes)
    ensures forall n :: n in r <==> n in notes && Matches(n, searchTerm)
    ensures forall n :: multiset(r)[n] == if Matches(n, searchTerm) then multiset(notes)[n] else 0
  {
    if notes == [] then []
    else
      var rest := FilterNotes(notes[1..], searchTerm);
      assert notes == [notes[0]] + notes[1..];
      if Matches(notes[0], searchTerm) then
        assert ([notes[0]] + rest)[1..] == rest;
        [notes[0]] + rest
      else
        SubsequenceOfLonger(rest, notes[1..], notes[0]);
        rest
  }

  /** With an empty search box every note is shown: `includes('')` holds. */
  lemma {:induction false} EmptySearchKeepsAll(notes: seq<Note>)
    ensures FilterNotes(notes, "") == notes
  {
    if notes != [] {
      EmptyOccursEverywhere(ToLowerCase(notes[0].title));
      EmptySearchKeepsAll(notes[1..]);
      assert notes == [notes[0]] + notes[1..];
    }
  }

  /** The comparator of the sort call: newer first, older first, the
      collation order of the titles, or 0 (ties everywhere) for any other
      option. `collate` stands for `String.prototype.localeCompare`. */
  function Comparator(sortOption: string, collate: (string, string) -> int): (cmp: (Note, Note) -> int)
    ensures sortOption == Newest ==>
      forall a: Note, b: Note :: cmp(a, b) <= 0 <==> a.updatedAt >= b.updatedAt
    ensures sortOption == Oldest ==>
      forall a: Note, b: Note :: cmp(a, b) <= 0 <==> a.updatedAt <= b.updatedAt
    ensures sortOption == Alphabetical ==>
      forall a: Note, b: Note :: cmp(a, b) == collate(a.title, b.title)
    ensures sortOption != Newest && sortOption != Oldest && sortOption != Alphabetical ==>
      forall a: Note, b: Note :: cmp(a, b) == 0
  {
    (a: Note, b: Note) =>
      if sortOption == Newest then b.updatedAt - a.updatedAt
      else if sortOption == Oldest then a.updatedAt - b.updatedAt
      else if sortOption == Alphabetical then collate(a.title, b.title)
      else 0
  }

  /** Each of the four comparators is consistent, the title one as far as the
      collation is. */
  lemma ComparatorConsistent(sortOption: string, collate: (string, string) -> int)
    requires sortOption == Alphabetical ==> ArraySort.Consistent(collate)
    ensures ArraySort.Consistent(Comparator(sortOption, collate))
  {
    var cmp := Comparator(sortOption, collate);
    if sortOption == Alphabetical {
      forall a: Note, b: Note ensures cmp(a, b) < 0 <==> cmp(b, a) > 0 {
        assert cmp(a, b) == collate(a.title, b.title);
      }
      forall a: Note, b: Note, c: Note | cmp(a, b) <= 0 && cmp(b, c) <= 0 ensures cmp(a, c) <= 0 {
        assert collate(a.title, b.title) <= 0 && collate(b.title, c.title) <= 0;
      }
    }
  }

  /** `[...filteredNotes].sort(comparator)`: a sorted copy, a permutation of
      the filtered notes, leaving them untouched. */
  function SortNotes(filtered: seq<Note>, sortOption: string, collate: (string, string) -> int): (r: seq<Note>)
    ensures multiset(r) == multiset(filtered)
  {
    ArraySort.Sort(filtered, Comparator(sortOption, collate))
  }

  /** The notes the list shows, in the order it shows them. */
  function VisibleNotes(notes: seq<Note>, searchTerm: string, sortOption: string,
                        collate: (string, string) -> int): (r: seq<Note>)
    ensures multiset(r) == multiset(FilterNotes(notes, searchTerm))
    ensures forall n :: n in r <==> n in notes && Matches(n, searchTerm)
  {
    var r := SortNotes(FilterNotes(notes, searchTerm), sortOption, collate);
    assert forall n :: n in r <==> n in multiset(r);
    r
  }

  /** Whatever the option, notes the comparator ties keep their filtered
      order (the sort is stable), and the result is sorted. */
  lemma VisibleNotesSortedAndStable(notes: seq<Note>, searchTerm: string, sortOption: string,
                                    collate: (string, string) -> int)
    requires sortOption == Alphabetical ==> ArraySort.Consistent(collate)
    ensures ArraySort.Sorted(VisibleNotes(notes, searchTerm, sortOption, collate), Comparator(sortOption, collate))
    ensures ArraySort.StableWith(VisibleNotes(notes, searchTerm, sortOption, collate),
                                 FilterNotes(notes, searchTerm), Comparator(sortOption, collate))
  {
    ComparatorConsistent(sortOption, collate);
    ArraySort.SortSorted(FilterNotes(notes, searchTerm), Comparator(sortOption, collate));
    ArraySort.SortStable(FilterNotes(notes, searchTerm), Comparator(sortOption, collate));
  }

  /** "Newest": the modification times never increase along the list. */
  lemma NewestFirst(notes: seq<Note>, searchTerm: string, collate: (string, string) -> int)
    ensures var r := VisibleNotes(notes, searchTerm, Newest, collate);
      forall i, j :: 0 <= i < j < |r| ==> r[i].updatedAt >= r[j].updatedAt
  {
    VisibleNotesSortedAndStable(notes, searchTerm, Newest, collate);
    var r := VisibleNotes(notes, searchTerm, Newest, collate);
    forall i, j | 0 <= i < j < |r| ensures r[i].updatedAt >= r[j].updatedAt {
      assert Comparator(Newest, collate)(r[i], r[j]) <= 0;
    }
  }

  /** "Oldest": the modification times never decrease along the list. */
  lemma OldestFirst(notes: seq<Note>, searchTerm: string, collate: (string, string) -> int)
    ensures var r := VisibleNotes(notes, searchTerm, Oldest, collate);
      forall i, j :: 0 <= i < j < |r| ==> r[i].updatedAt <= r[j].updatedAt
  {
    VisibleNotesSortedAndStable(notes, searchTerm, Oldest, collate);
    var r := VisibleNotes(notes, searchTerm, Oldest, collate);
    forall i, j | 0 <= i < j < |r| ensures r[i].updatedAt <= r[j].updatedAt {
      assert Comparator(Oldest, collate)(r[i], r[j]) <= 0;
    }
  }

  /** "A-Z": titles never go backwards in the collation order, and notes
      whose titles collate equal stay in their filtered order. */
  lemma AlphabeticalByTitle(notes: seq<Note>, searchTerm: string, collate: (string, string) -> int)
    requires ArraySort.Consistent(collate)
    ensures var r := VisibleNotes(notes, searchTerm, Alphabetical, collate);
      forall i, j :: 0 <= i < j < |r| ==> collate(r[i].title, r[j].title) <= 0
    ensures ArraySort.StableWith(VisibleNotes(notes, searchTerm, Alphabetical, collate),
                                 FilterNotes(notes, searchTerm), Comparator(Alphabetical, collate))
  {
    VisibleNotesSortedAndStable(notes, searchTerm, Alphabetical, collate);
    var r := VisibleNotes(notes, searchTerm, Alphabetical, collate);
    forall i, j | 0 <= i < j < |r| ensures collate(r[i].title, r[j].title) <= 0 {
      assert Comparator(Alphabetical, collate)(r[i], r[j]) <= 0;
    }
  }

  /** Any other option makes the comparator return 0, and the stable sort
      then leaves the filtered order as it is. */
  lemma OtherOptionKeepsFilteredOrder(notes: seq<Note>, searchTerm: string, sortOption: string,
                                      collate: (string, string) -> int)
    requires sortOption != Newest && sortOption != Oldest && sortOption != Alphabetical
    ensures VisibleNotes(notes, searchTerm, sortOption, collate) == FilterNotes(notes, searchTerm)
  {
    ArraySort.SortAllTiesIsIdentity(FilterNotes(notes, searchTerm), Comparator(sortOption, collate));
  }

  /** Any sorted, stable result (whatever sort algorithm the browser runs) is
      the one VisibleNotes describes. */
  lemma AnyStableSortShowsVisibleNotes(notes: seq<Note>, searchTerm: string, sortOption: string,
                                       collate: (string, string) -> int, shown: seq<Note>)
    requires sortOption == Alphabetical ==> ArraySort.Consistent(collate)
    requires ArraySort.Sorted(shown, Comparator(sortOption, collate))
    requires ArraySort.StableWith(shown, FilterNotes(notes, searchTerm), Comparator(sortOption, collate))
    ensures shown == VisibleNotes(notes, searchTerm, sortOption, collate)
  {
    ComparatorConsistent(sortOption, collate);
    ArraySort.SortIsTheStableSort(FilterNotes(notes, searchTerm), shown, Comparator(sortOption, collate));
  }

  /** What the list renders: skeletons while loading, otherwise the cards,
      or a message when there is nothing to show. */
  datatype ListView = Skeletons | EmptyState(message: string) | Cards(notes: seq<Note>)

  function Render(notes: seq<Note>, isLoading: bool, searchTerm: string, sortOption: string,
                  collate: (string, string) -> int): (v: ListView)
    ensures isLoading <==> v.Skeletons?
    ensures v.Cards? ==> v.notes != [] && v.notes == VisibleNotes(notes, searchTerm, sortOption, collate)
    ensures v.EmptyState? ==> forall n :: n in notes ==> !Matches(n, searchTerm)
    ensures v.EmptyState? ==> v.message == (if searchTerm != "" then NoMatchMessage else NoNotesMessage)
    ensures !isLoading && searchTerm == "" ==> (v.EmptyState? <==> notes == [])
  {
    if isLoading then Skeletons
    else
      var shown := VisibleNotes(notes, searchTerm, sortOption, collate);
      if |shown| == 0 then
        assert forall n :: n in notes ==> !Matches(n, searchTerm) by {
          forall n | n in notes ensures !Matches(n, searchTerm) { assert n !in shown; }
        }
        if searchTerm == "" then
          EmptySearchKeepsAll(notes);
          EmptyState(NoNotesMessage)
        else EmptyState(NoMatchMessage)
      else
        if searchTerm == "" then
          assert notes != [] by { EmptySearchKeepsAll(notes); }
          Cards(shown)
        else Cards(shown)
  }
}
