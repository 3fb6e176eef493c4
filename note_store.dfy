/**
 * The note and category state of the notes screen (app/_layout.tsx): the
 * `notes` array, the `categories` list, the note being edited and the text
 * of the category input. Every new `notes` array is written whole under the
 * key `notes`. Ids and clock readings (`Date.now()`, `new Date()`) are
 * supplied by the caller.
 */
module NoteStore {
  import opened Wrappers
  import opened Notes
  import Text
  import Seqs
  import Storage

  const DefaultCategories: seq<string> := ["Personal", "Work", "Shopping", "Ideas"]

  /** The record built on creation: the payload's fields, not a favourite, with both timestamps. */
  function NewNote(data: NoteData, id: string, createdAt: int, updatedAt: int): Note {
    Note(id, data.title, data.content, data.image, data.category, false,
         data.isBold, data.isItalic, data.isUnderline, createdAt, updatedAt)
  }

  /** `{...note, ...noteData, updatedAt}` */
  function ApplyEdit(n: Note, data: NoteData, now: int): Note {
    n.(title := data.title, content := data.content, image := data.image, category := data.category,
       isBold := data.isBold, isItalic := data.isItalic, isUnderline := data.isUnderline, updatedAt := now)
  }

  /** The edit branch of `handleSaveNote`: rewrite the notes with the edited id. */
  function WithEdit(notes: seq<Note>, id: string, data: NoteData, now: int): (r: seq<Note>)
    ensures |r| == |notes|
  {
    seq(|notes|, i requires 0 <= i < |notes| =>
      if notes[i].id == id then ApplyEdit(notes[i], data, now) else notes[i])
  }

  function IdIsNot(id: string): Note -> bool {
    (n: Note) => n.id != id
  }

  /** `deleteNote` (the confirmed branch): keep the notes whose id differs. */
  function WithoutNote(notes: seq<Note>, id: string): seq<Note> {
    Seqs.Filter(notes, IdIsNot(id))
  }

  /** `toggleFavorite`: `isFavorite: !note.isFavorite` on the notes with this id. */
  function WithFavoriteToggled(notes: seq<Note>, id: string): (r: seq<Note>)
    ensures |r| == |notes|
  {
    seq(|notes|, i requires 0 <= i < |notes| =>
      if notes[i].id == id then notes[i].(isFavorite := !notes[i].isFavorite) else notes[i])
  }

  /** `addCategory`: append the trimmed input unless it is blank or already listed. */
  function WithCategory(categories: seq<string>, input: string): seq<string> {
    var name := Text.Trim(input);
    if name != [] && name !in categories then categories + [name] else categories
  }

  ghost predicate NoDuplicates(names: seq<string>) {
    forall i, j :: 0 <= i < j < |names| ==> names[i] != names[j]
  }

  /**
   * Editing rewrites exactly the notes with the id: title, content, image,
   * category and format flags come from the payload, `updatedAt` is the new
   * clock reading, and `id`, `createdAt` and `isFavorite` are kept. Other
   * notes, and the whole collection when no note has the id, are unchanged.
   * Ids stay unique, and timestamps stay ordered when the clock reads no
   * earlier than the creation times.
   */
  lemma WithEditSpec(notes: seq<Note>, id: string, data: NoteData, now: int)
    ensures forall i :: 0 <= i < |notes| ==>
      var n, m := notes[i], WithEdit(notes, id, data, now)[i];
      if n.id == id then
        && m.id == n.id && m.createdAt == n.createdAt && m.isFavorite == n.isFavorite
        && m.updatedAt == now
        && NoteData(m.title, m.content, m.image, m.category, m.isBold, m.isItalic, m.isUnderline) == data
      else m == n
    ensures !HasId(notes, id) ==> WithEdit(notes, id, data, now) == notes
    ensures UniqueIds(notes) ==> UniqueIds(WithEdit(notes, id, data, now))
    ensures Timestamped(notes) && (forall i :: 0 <= i < |notes| ==> notes[i].createdAt <= now) ==>
      Timestamped(WithEdit(notes, id, data, now))
  {
  }

  /**
   * Deleting keeps exactly the notes with another id, in their original order
   * and multiplicity; an absent id leaves the collection as it is.
   */
  lemma WithoutNoteSpec(notes: seq<Note>, id: string)
    ensures forall n :: n in WithoutNote(notes, id) <==> n in notes && n.id != id
    ensures forall n :: multiset(WithoutNote(notes, id))[n] == if n.id != id then multiset(notes)[n] else 0
    ensures Seqs.IsSubsequence(WithoutNote(notes, id), notes)
    ensures !HasId(notes, id) ==> WithoutNote(notes, id) == notes
  {
    var keep := IdIsNot(id);
    assert forall n :: keep(n) == (n.id != id);
    Seqs.FilterIsSubsequence(notes, keep);
    if !HasId(notes, id) {
      forall n | n in notes ensures keep(n) {
        var i :| 0 <= i < |notes| && notes[i] == n;
      }
      Seqs.FilterKeepsAll(notes, keep);
    }
  }

  /** Deleting keeps ids unique and timestamps ordered. */
  lemma WithoutNoteKeepsValid(notes: seq<Note>, id: string)
    requires UniqueIds(notes) && Timestamped(notes)
    ensures UniqueIds(WithoutNote(notes, id)) && Timestamped(WithoutNote(notes, id))
  {
    var r := WithoutNote(notes, id);
    Seqs.FilterPreservesUniqueBy(notes, IdIsNot(id), NoteId);
    forall i | 0 <= i < |r| ensures r[i].createdAt <= r[i].updatedAt {
      assert r[i] in notes;
    }
  }

  /**
   * Toggling flips `isFavorite` of exactly the notes with the id and changes
   * no other field, `updatedAt` included; an absent id changes nothing.
   */
  lemma WithFavoriteToggledSpec(notes: seq<Note>, id: string)
    ensures forall i :: 0 <= i < |notes| ==>
      var n, m := notes[i], WithFavoriteToggled(notes, id)[i];
      && m.isFavorite == (if n.id == id then !n.isFavorite else n.isFavorite)
      && m == n.(isFavorite := m.isFavorite)
    ensures !HasId(notes, id) ==> WithFavoriteToggled(notes, id) == notes
    ensures UniqueIds(notes) ==> UniqueIds(WithFavoriteToggled(notes, id))
    ensures Timestamped(notes) ==> Timestamped(WithFavoriteToggled(notes, id))
  {
  }

  /** Toggling the same id twice restores the collection. */
  lemma WithFavoriteToggledTwice(notes: seq<Note>, id: string)
    ensures WithFavoriteToggled(WithFavoriteToggled(notes, id), id) == notes
  {
    var r := WithFavoriteToggled(WithFavoriteToggled(notes, id), id);
    assert forall i :: 0 <= i < |notes| ==> r[i] == notes[i];
  }

  /**
   * The category list only grows, by the trimmed input and only when that is
   * non-blank and new; a duplicate-free list stays duplicate-free.
   */
  lemma WithCategorySpec(categories: seq<string>, input: string)
    ensures var r := WithCategory(categories, input);
      && r[..|categories|] == categories
      && (r != categories <==> !Text.AllWhitespace(input) && Text.Trim(input) !in categories)
      && (r != categories ==> r == categories + [Text.Trim(input)])
    ensures NoDuplicates(categories) ==> NoDuplicates(WithCategory(categories, input))
  {
    Text.TrimEmptyIffBlank(input);
    var r := WithCategory(categories, input);
    if r != categories {
      assert |r| == |categories| + 1;
    }
  }

  class NotesApp {
    var notes: seq<Note>
    var categories: seq<string>
    var editingNote: Option<Note>
    var newCategory: string
    const storage: Storage.DurableStore

    ghost predicate Valid()
      reads this
    {
      UniqueIds(notes) && Timestamped(notes) && NoDuplicates(categories)
    }

    constructor (storage: Storage.DurableStore)
      ensures Valid()
      ensures notes == [] && categories == DefaultCategories && editingNote == None && newCategory == ""
      ensures this.storage == storage
    {
      notes := [];
      categories := DefaultCategories;
      editingNote := None;
      newCategory := "";
      this.storage := storage;
    }

    /** `saveNotes`, run by the effect after every change of `notes`: the whole array under `notes`. */
    method SaveNotes() returns (saved: bool)
      modifies storage
      ensures saved ==> storage.entries == old(storage.entries)[Storage.NotesKey := Storage.NoteList(notes)]
      ensures !saved ==> storage.entries == old(storage.entries)
    {
      saved := storage.SetItem(Storage.NotesKey, Storage.NoteList(notes));
    }

    /** `handleEditNote` */
    method HandleEditNote(note: Note)
      modifies this`editingNote
      ensures editingNote == Some(note)
    {
      editingNote := Some(note);
    }

    /** The editor's `onCancel`: leave editing without saving. */
    method CancelEdit()
      modifies this`editingNote
      ensures editingNote == None
    {
      editingNote := None;
    }

    /**
     * `handleSaveNote`. When a note is being edited, the notes with its id
     * take the payload and `updatedAt := now`; otherwise a new note with id
     * `freshId`, created at `now` and updated at `later` (two successive
     * clock readings), goes in front. Either way editing ends and the new
     * array is persisted.
     */
    method HandleSaveNote(data: NoteData, freshId: string, now: int, later: int) returns (saved: bool)
      requires Valid()
      requires editingNote.None? ==> !HasId(notes, freshId) && now <= later
      requires editingNote.Some? ==> forall i :: 0 <= i < |notes| ==> notes[i].createdAt <= now
      modifies this, storage
      ensures Valid()
      ensures old(editingNote).Some? ==> notes == WithEdit(old(notes), old(editingNote).value.id, data, now)
      ensures old(editingNote).None? ==> notes == [NewNote(data, freshId, now, later)] + old(notes)
      ensures editingNote == None && categories == old(categories) && newCategory == old(newCategory)
      ensures saved ==> storage.entries == old(storage.entries)[Storage.NotesKey := Storage.NoteList(notes)]
      ensures !saved ==> storage.entries == old(storage.entries)
    {
      if editingNote.Some? {
        WithEditSpec(notes, editingNote.value.id, data, now);
        notes := WithEdit(notes, editingNote.value.id, data, now);
      } else {
        var n := NewNote(data, freshId, now, later);
        var old_notes := notes;
        notes := [n] + notes;
        forall i, j | 0 <= i < j < |notes| ensures notes[i].id != notes[j].id {
          if i == 0 {
            assert notes[j] == old_notes[j - 1];
          }
        }
      }
      editingNote := None;
      saved := SaveNotes();
    }

    /** `deleteNote`, confirmed: the notes with `id` go; editing that note ends. */
    method DeleteNote(id: string) returns (saved: bool)
      requires Valid()
      modifies this, storage
      ensures Valid()
      ensures notes == WithoutNote(old(notes), id)
      ensures editingNote == (if old(editingNote).Some? && old(editingNote).value.id == id then None else old(editingNote))
      ensures categories == old(categories) && newCategory == old(newCategory)
      ensures saved ==> storage.entries == old(storage.entries)[Storage.NotesKey := Storage.NoteList(notes)]
      ensures !saved ==> storage.entries == old(storage.entries)
    {
      WithoutNoteKeepsValid(notes, id);
      notes := WithoutNote(notes, id);
      if editingNote.Some? && editingNote.value.id == id {
        editingNote := None;
      }
      saved := SaveNotes();
    }

    /** `toggleFavorite` */
    method ToggleFavorite(id: string) returns (saved: bool)
      requires Valid()
      modifies this, storage
      ensures Valid()
      ensures notes == WithFavoriteToggled(old(notes), id)
      ensures editingNote == old(editingNote) && categories == old(categories) && newCategory == old(newCategory)
      ensures saved ==> storage.entries == old(storage.entries)[Storage.NotesKey := Storage.NoteList(notes)]
      ensures !saved ==> storage.entries == old(storage.entries)
    {
      WithFavoriteToggledSpec(notes, id);
      notes := WithFavoriteToggled(notes, id);
      saved := SaveNotes();
    }

    /**
     * `addCategory`, reading the category input: a new, non-blank name is
     * appended and the input cleared; otherwise nothing changes. Categories
     * are kept in memory only.
     */
    method AddCategory() returns (added: bool)
      requires Valid()
      modifies this`categories, this`newCategory
      ensures Valid()
      ensures categories == WithCategory(old(categories), old(newCategory))
      ensures added <==> categories != old(categories)
      ensures newCategory == if added then "" else old(newCategory)
    {
      WithCategorySpec(categories, newCategory);
      var name := Text.Trim(newCategory);
      added := name != [] && name !in categories;
      if added {
        categories := categories + [name];
        newCategory := "";
      }
    }
  }
}
