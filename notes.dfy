/**
 * The note record of app/_layout.tsx and the payload the editor hands to
 * `onSave`. Timestamps are milliseconds (`new Date(..).getTime()`).
 */
module Notes {
  import opened Wrappers

  /**
   * A stored note. `image` is `string | null`, `category` may be missing;
   * the three format flags arrive through the editor's payload.
   */
  datatype Note = Note(
    id: string,
    title: string,
    content: string,
    image: Option<string>,
    category: Option<string>,
    isFavorite: bool,
    isBold: bool,
    isItalic: bool,
    isUnderline: bool,
    createdAt: int,
    updatedAt: int)

  /** The fields the editor collects and passes to `onSave`. */
  datatype NoteData = NoteData(
    title: string,
    content: string,
    image: Option<string>,
    category: Option<string>,
    isBold: bool,
    isItalic: bool,
    isUnderline: bool)

  function NoteId(n: Note): string { n.id }

  /** No two notes of the collection share an id. */
  ghost predicate UniqueIds(notes: seq<Note>) {
    forall i, j :: 0 <= i < j < |notes| ==> notes[i].id != notes[j].id
  }

  predicate HasId(notes: seq<Note>, id: string) {
    exists i :: 0 <= i < |notes| && notes[i].id == id
  }

  /** Every note was last updated no earlier than it was created. */
  ghost predicate Timestamped(notes: seq<Note>) {
    forall i :: 0 <= i < |notes| ==> notes[i].createdAt <= notes[i].updatedAt
  }

  /** The plain-text rendering written to the share file: title, a blank line, content. */
  function ShareText(n: Note): string {
    n.title + "\n\n" + n.content
  }

  /** Index of the first `c` in `s`, if any. */
  function IndexOf(s: string, c: char): (r: Option<nat>)
    ensures r.None? <==> c !in s
    ensures r.Some? ==> r.value < |s| && s[r.value] == c && c !in s[..r.value]
    decreases |s|
  {
    if s == [] then None
    else if s[0] == c then Some(0)
    else
      match IndexOf(s[1..], c)
      case None => None
      case Some(k) => assert s[..k + 1] == [s[0]] + s[1..][..k]; Some(k + 1)
  }

  /** Reads a share text back: the title runs to the first newline, a blank line follows, then the content. */
  function ParseShareText(text: string): Option<(string, string)> {
    match IndexOf(text, '\n')
    case None => None
    case Some(k) =>
      if k + 2 <= |text| && text[k..k + 2] == "\n\n" then Some((text[..k], text[k + 2..])) else None
  }

  /** A note whose title is a single line is recovered exactly from its share text. */
  lemma ShareTextRoundTrip(n: Note)
    requires '\n' !in n.title
    ensures ParseShareText(ShareText(n)) == Some((n.title, n.content))
  {
    var text := ShareText(n);
    var k := |n.title|;
    assert text[..k] == n.title;
    assert text[k] == '\n';
    assert '\n' !in text[..k];
    assert text[k..k + 2] == "\n\n";
    assert text[k + 2..] == n.content;
  }
}
