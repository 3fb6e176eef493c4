/**
 * The derived note list of app/_layout.tsx: `filteredNotes` (title search)
 * followed by `getSortedNotes` (a sorted copy under the chosen `SortOption`).
 * `toLowerCase` and `localeCompare` are locale-dependent and are passed in
 * as `lower` and `localeCompare`.
 */
module NoteView {
  import opened Notes
  import Text
  import Seqs

  datatype SortOption = DateDesc | DateAsc | TitleAsc | TitleDesc | Category | Favorite

  /** The search predicate: the lower-cased title includes the lower-cased query. */
  function TitleMatches(query: string, lower: string -> string): Note -> bool {
    (n: Note) => Text.Contains(lower(n.title), lower(query))
  }

  /** `filteredNotes` */
  function FilteredNotes(notes: seq<Note>, query: string, lower: string -> string): seq<Note> {
    Seqs.Filter(notes, TitleMatches(query, lower))
  }

  /**
   * The search keeps exactly the notes whose lower-cased title contains the
   * lower-cased query, each as often as in the collection and in the
   * collection's order. An empty query (which lower-cases to itself) keeps
   * every note.
   */
  lemma FilteredNotesSpec(notes: seq<Note>, query: string, lower: string -> string)
    ensures forall n :: n in FilteredNotes(notes, query, lower) <==>
                          n in notes && Text.Contains(lower(n.title), lower(query))
    ensures forall n :: multiset(FilteredNotes(notes, query, lower))[n] ==
                          if Text.Contains(lower(n.title), lower(query)) then multiset(notes)[n] else 0
    ensures Seqs.IsSubsequence(FilteredNotes(notes, query, lower), notes)
    ensures query == "" && lower("") == "" ==> FilteredNotes(notes, query, lower) == notes
  {
    var keep := TitleMatches(query, lower);
    assert forall n :: keep(n) == Text.Contains(lower(n.title), lower(query));
    Seqs.FilterIsSubsequence(notes, keep);
    if query == "" && lower("") == "" {
      forall n | n in notes ensures keep(n) {
        Text.ContainsEmpty(lower(n.title));
      }
      Seqs.FilterKeepsAll(notes, keep);
    }
  }

  /** `(note.category || '')`: a missing (or empty) category compares as the empty string. */
  function CategoryKey(n: Note): string {
    n.category.GetOr("")
  }

  /** The comparator handed to `sort` for each option; a negative or zero result lets `a` stay before `b`. */
  function Compare(mode: SortOption, localeCompare: (string, string) -> int, a: Note, b: Note): int {
    match mode
    case DateDesc => b.updatedAt - a.updatedAt
    case DateAsc => a.updatedAt - b.updatedAt
    case TitleAsc => localeCompare(a.title, b.title)
    case TitleDesc => localeCompare(b.title, a.title)
    case Category => localeCompare(CategoryKey(a), CategoryKey(b))
    case Favorite =>
      if a.isFavorite && !b.isFavorite then -1
      else if !a.isFavorite && b.isFavorite then 1
      else b.updatedAt - a.updatedAt
  }

  predicate InOrder(mode: SortOption, localeCompare: (string, string) -> int, a: Note, b: Note) {
    Compare(mode, localeCompare, a, b) <= 0
  }

  /** `localeCompare` orders strings totally and transitively (ties allowed). */
  ghost predicate ConsistentComparator(localeCompare: (string, string) -> int) {
    && (forall x, y :: localeCompare(x, y) <= 0 || localeCompare(y, x) <= 0)
    && (forall x, y, z :: localeCompare(x, y) <= 0 && localeCompare(y, z) <= 0 ==> localeCompare(x, z) <= 0)
  }

  /** Under a consistent `localeCompare`, every sort option's comparator is a total preorder on notes. */
  lemma InOrderTotalPreorder(mode: SortOption, localeCompare: (string, string) -> int, a: Note, b: Note, c: Note)
    requires ConsistentComparator(localeCompare)
    ensures InOrder(mode, localeCompare, a, b) || InOrder(mode, localeCompare, b, a)
    ensures InOrder(mode, localeCompare, a, b) && InOrder(mode, localeCompare, b, c) ==> InOrder(mode, localeCompare, a, c)
  {
  }

  /** Every element precedes every later one. */
  ghost predicate Sorted(mode: SortOption, localeCompare: (string, string) -> int, s: seq<Note>) {
    forall i, j :: 0 <= i < j < |s| ==> InOrder(mode, localeCompare, s[i], s[j])
  }

  /** Places `x` in front of the first element it may precede. */
  function Insert(mode: SortOption, localeCompare: (string, string) -> int, x: Note, s: seq<Note>): (r: seq<Note>)
    ensures multiset(r) == multiset(s) + multiset{x}
    ensures forall y :: y in r ==> y == x || y in s
    decreases |s|
  {
    if s == [] || InOrder(mode, localeCompare, x, s[0]) then [x] + s
    else
      assert s == [s[0]] + s[1..];
      [s[0]] + Insert(mode, localeCompare, x, s[1..])
  }

  /** `[...notes].sort(comparator)`: a stable insertion sort of a copy. */
  function SortNotes(mode: SortOption, localeCompare: (string, string) -> int, s: seq<Note>): (r: seq<Note>)
    ensures multiset(r) == multiset(s)
    decreases |s|
  {
    if s == [] then []
    else
      assert s == [s[0]] + s[1..];
      Insert(mode, localeCompare, s[0], SortNotes(mode, localeCompare, s[1..]))
  }

  lemma {:induction false} InsertSorted(mode: SortOption, localeCompare: (string, string) -> int, x: Note, s: seq<Note>)
    requires ConsistentComparator(localeCompare)
    requires Sorted(mode, localeCompare, s)
    ensures Sorted(mode, localeCompare, Insert(mode, localeCompare, x, s))
    decreases |s|
  {
    var r := Insert(mode, localeCompare, x, s);
    if s == [] {
    } else if InOrder(mode, localeCompare, x, s[0]) {
      forall j | 0 < j < |r| ensures InOrder(mode, localeCompare, r[0], r[j]) {
        InOrderTotalPreorder(mode, localeCompare, x, s[0], s[j - 1]);
      }
    } else {
      var rest := Insert(mode, localeCompare, x, s[1..]);
      InsertSorted(mode, localeCompare, x, s[1..]);
      InOrderTotalPreorder(mode, localeCompare, x, s[0], x);
      forall j | 0 < j < |r| ensures InOrder(mode, localeCompare, r[0], r[j]) {
        assert r[j] == rest[j - 1];
        assert rest[j - 1] in rest;
        if rest[j - 1] != x {
          var k :| 0 <= k < |s[1..]| && s[1..][k] == rest[j - 1];
          assert s[k + 1] == r[j];
        }
      }
      forall i, j | 0 < i < j < |r| ensures InOrder(mode, localeCompare, r[i], r[j]) {
        assert r[i] == rest[i - 1] && r[j] == rest[j - 1];
      }
    }
  }

  lemma {:induction false} SortNotesSorted(mode: SortOption, localeCompare: (string, string) -> int, s: seq<Note>)
    requires ConsistentComparator(localeCompare)
    ensures Sorted(mode, localeCompare, SortNotes(mode, localeCompare, s))
    decreases |s|
  {
    if s != [] {
      SortNotesSorted(mode, localeCompare, s[1..]);
      InsertSorted(mode, localeCompare, s[0], SortNotes(mode, localeCompare, s[1..]));
    }
  }

  /** `getSortedNotes`: sorts a copy; the argument itself is a value and is never reordered. */
  function GetSortedNotes(notes: seq<Note>, mode: SortOption, localeCompare: (string, string) -> int): seq<Note> {
    SortNotes(mode, localeCompare, notes)
  }

  /**
   * The sorted copy is a permutation of its input, ordered as each option
   * promises: newest first or oldest first by `updatedAt`; by title with
   * `localeCompare`, ascending or descending; by category with a missing
   * category compared as `''`; favourites before non-favourites, each group
   * newest first.
   */
  lemma GetSortedNotesSpec(notes: seq<Note>, mode: SortOption, localeCompare: (string, string) -> int)
    requires ConsistentComparator(localeCompare)
    ensures var r := GetSortedNotes(notes, mode, localeCompare);
      && multiset(r) == multiset(notes) && |r| == |notes|
      && forall i, j :: 0 <= i < j < |r| ==>
        && (mode == DateDesc ==> r[i].updatedAt >= r[j].updatedAt)
        && (mode == DateAsc ==> r[i].updatedAt <= r[j].updatedAt)
        && (mode == TitleAsc ==> localeCompare(r[i].title, r[j].title) <= 0)
        && (mode == TitleDesc ==> localeCompare(r[j].title, r[i].title) <= 0)
        && (mode == Category ==> localeCompare(CategoryKey(r[i]), CategoryKey(r[j])) <= 0)
        && (mode == Favorite ==> (r[j].isFavorite ==> r[i].isFavorite))
        && (mode == Favorite && r[i].isFavorite == r[j].isFavorite ==> r[i].updatedAt >= r[j].updatedAt)
  {
    var r := GetSortedNotes(notes, mode, localeCompare);
    SortNotesSorted(mode, localeCompare, notes);
    assert |r| == |multiset(r)| == |multiset(notes)| == |notes|;
  }

  /** The list the home screen shows: the search result, sorted. */
  function VisibleNotes(notes: seq<Note>, query: string, mode: SortOption,
                        lower: string -> string, localeCompare: (string, string) -> int): seq<Note> {
    GetSortedNotes(FilteredNotes(notes, query, lower), mode, localeCompare)
  }

  /**
   * A note is shown exactly when its title matches the search, as often as it
   * is stored; the shown list is in the chosen order.
   */
  lemma VisibleNotesSpec(notes: seq<Note>, query: string, mode: SortOption,
                         lower: string -> string, localeCompare: (string, string) -> int)
    requires ConsistentComparator(localeCompare)
    ensures forall n :: multiset(VisibleNotes(notes, query, mode, lower, localeCompare))[n] ==
                          if Text.Contains(lower(n.title), lower(query)) then multiset(notes)[n] else 0
    ensures Sorted(mode, localeCompare, VisibleNotes(notes, query, mode, lower, localeCompare))
  {
    FilteredNotesSpec(notes, query, lower);
    SortNotesSorted(mode, localeCompare, FilteredNotes(notes, query, lower));
  }
}
