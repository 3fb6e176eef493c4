/**
 * The note editor (app/AddNote.tsx): its fields, initialised from the note
 * being edited; the three format toggles; the title check before `onSave`;
 * and the `stripHtml` helper.
 */
module Editor {
  import opened Wrappers
  import opened Notes
  import Text

  /** `html.replace(/<[^>]*>/g, '')` */
  function StripHtml(s: string): string
    decreases |s|
  {
    if s == [] then []
    else if s[0] == '<' && '>' in s then StripHtml(AfterFirst(s, '>'))
    else [s[0]] + StripHtml(s[1..])
  }

  /** The part of `s` after the first `c`. */
  function AfterFirst(s: string, c: char): (r: string)
    requires c in s
    ensures |r| < |s| && r == s[|s| - |r|..]
    ensures c !in s[..|s| - |r| - 1] && s[|s| - |r| - 1] == c
    decreases |s|
  {
    if s[0] == c then s[1..] else AfterFirst(s[1..], c)
  }

  /** The output only uses characters of the input. */
  lemma {:induction false} StripHtmlChars(s: string)
    ensures forall c :: c in StripHtml(s) ==> c in s
    decreases |s|
  {
    if s == [] {
    } else if s[0] == '<' && '>' in s {
      var a := AfterFirst(s, '>');
      StripHtmlChars(a);
      assert forall c :: c in a ==> c in s;
    } else {
      StripHtmlChars(s[1..]);
      assert StripHtml(s) == [s[0]] + StripHtml(s[1..]);
    }
  }

  /** Cutting after a known first occurrence of `c` leaves what follows it. */
  lemma AfterFirstAt(s: string, c: char, k: nat)
    requires k < |s| && s[k] == c && c !in s[..k]
    ensures AfterFirst(s, c) == s[k + 1..]
  {
  }

  /** No `<` is followed, anywhere later, by a `>`: nothing the pattern can match. */
  ghost predicate TagFree(s: string) {
    forall i, j :: 0 <= i < j < |s| && s[i] == '<' ==> s[j] != '>'
  }

  /** A string without `<` is returned unchanged. */
  lemma {:induction false} StripHtmlNoOpenBracket(s: string)
    requires '<' !in s
    ensures StripHtml(s) == s
    decreases |s|
  {
    if s != [] {
      StripHtmlNoOpenBracket(s[1..]);
      assert s == [s[0]] + s[1..];
    }
  }

  /** A character in front of a tag-free string keeps it tag-free unless it opens a tag that a later `>` closes. */
  lemma TagFreeCons(c: char, rest: string)
    requires TagFree(rest) && (c == '<' ==> '>' !in rest)
    ensures TagFree([c] + rest)
  {
    var r := [c] + rest;
    forall i, j | 0 <= i < j < |r| && r[i] == '<' ensures r[j] != '>' {
      assert r[j] == rest[j - 1];
      if i > 0 {
        assert r[i] == rest[i - 1];
      } else {
        assert rest[j - 1] in rest;
      }
    }
  }

  /** The output contains no `<` that is later followed by `>`. */
  lemma {:induction false} StripHtmlTagFree(s: string)
    ensures TagFree(StripHtml(s))
    decreases |s|
  {
    if s == [] {
    } else if s[0] == '<' && '>' in s {
      StripHtmlTagFree(AfterFirst(s, '>'));
    } else {
      StripHtmlTagFree(s[1..]);
      StripHtmlChars(s[1..]);
      assert s[0] == '<' ==> '>' !in s[1..];
      TagFreeCons(s[0], StripHtml(s[1..]));
      assert StripHtml(s) == [s[0]] + StripHtml(s[1..]);
    }
  }

  /** A tag-free string is a fixed point. */
  lemma {:induction false} StripHtmlTagFreeFixed(s: string)
    requires TagFree(s)
    ensures StripHtml(s) == s
    decreases |s|
  {
    if s != [] {
      var t := s[1..];
      assert TagFree(t) by {
        forall i, j | 0 <= i < j < |t| && t[i] == '<' ensures t[j] != '>' {
          assert t[i] == s[i + 1] && t[j] == s[j + 1];
        }
      }
      StripHtmlTagFreeFixed(t);
      if s[0] == '<' {
        assert forall j :: 0 < j < |s| ==> s[j] != '>';
        assert '>' !in s;
      }
      assert StripHtml(s) == [s[0]] + StripHtml(t);
      assert s == [s[0]] + t;
    }
  }

  /** Stripping twice is stripping once. */
  lemma StripHtmlIdempotent(s: string)
    ensures StripHtml(StripHtml(s)) == StripHtml(s)
  {
    StripHtmlTagFree(s);
    StripHtmlTagFreeFixed(StripHtml(s));
  }

  /** A leading segment from `<` to the first `>` is removed with both brackets. */
  lemma StripHtmlLeadingSegment(inside: string, suffix: string)
    requires '>' !in inside
    ensures StripHtml(['<'] + inside + ['>'] + suffix) == StripHtml(suffix)
  {
    var s := ['<'] + inside + ['>'] + suffix;
    var k := |inside| + 1;
    assert s[k] == '>';
    assert s[..k] == ['<'] + inside;
    AfterFirstAt(s, '>', k);
    assert s[k + 1..] == suffix;
  }

  /** Text without `<` in front of anything is kept as is. */
  lemma {:induction false} StripHtmlKeepsPlainPrefix(prefix: string, rest: string)
    requires '<' !in prefix
    ensures StripHtml(prefix + rest) == prefix + StripHtml(rest)
    decreases |prefix|
  {
    if prefix != [] {
      var p0, p1 := prefix[0], prefix[1..];
      var s := prefix + rest;
      StripHtmlKeepsPlainPrefix(p1, rest);
      assert s[0] == p0 && p0 != '<';
      assert s[1..] == p1 + rest;
      calc {
        StripHtml(s);
        [p0] + StripHtml(p1 + rest);
        [p0] + (p1 + StripHtml(rest));
        { assert prefix == [p0] + p1; }
        prefix + StripHtml(rest);
      }
    } else {
      assert prefix + rest == rest;
      assert prefix + StripHtml(rest) == StripHtml(rest);
    }
  }

  /**
   * A segment from a `<` to the first `>` after it is removed, together with
   * that `>`, when no `<` comes before it; the text before is kept as is.
   */
  lemma StripHtmlRemovesSegment(prefix: string, inside: string, suffix: string)
    requires '<' !in prefix && '>' !in inside
    ensures StripHtml(prefix + ['<'] + inside + ['>'] + suffix) == prefix + StripHtml(suffix)
  {
    var segment := ['<'] + inside + ['>'] + suffix;
    calc {
      StripHtml(prefix + ['<'] + inside + ['>'] + suffix);
      { assert prefix + ['<'] + inside + ['>'] + suffix == prefix + segment; }
      StripHtml(prefix + segment);
      { StripHtmlKeepsPlainPrefix(prefix, segment); }
      prefix + StripHtml(segment);
      { StripHtmlLeadingSegment(inside, suffix); }
      prefix + StripHtml(suffix);
    }
  }

  datatype Format = Bold | Italic | Underline

  datatype FormatFlags = FormatFlags(bold: bool, italic: bool, underline: bool)

  /** `formatText(type)` on the three flags. */
  function Flip(flags: FormatFlags, kind: Format): FormatFlags {
    match kind
    case Bold => flags.(bold := !flags.bold)
    case Italic => flags.(italic := !flags.italic)
    case Underline => flags.(underline := !flags.underline)
  }

  /** Exactly the named flag changes, and flipping it again restores all three. */
  lemma FlipSpec(flags: FormatFlags, kind: Format)
    ensures var r := Flip(flags, kind);
      && r.bold == (if kind == Bold then !flags.bold else flags.bold)
      && r.italic == (if kind == Italic then !flags.italic else flags.italic)
      && r.underline == (if kind == Underline then !flags.underline else flags.underline)
    ensures Flip(Flip(flags, kind), kind) == flags
  {
  }

  /** `x || fallback` on a nullable string: an empty string counts as absent. */
  function OrElse(x: Option<string>, fallback: Option<string>): Option<string> {
    if x.Some? && x.value != "" then x else fallback
  }

  class NoteEditor {
    var title: string
    var content: string
    var selectedImage: Option<string>
    var selectedCategory: Option<string>
    var isBold: bool
    var isItalic: bool
    var isUnderline: bool

    function Flags(): FormatFlags
      reads this
    {
      FormatFlags(isBold, isItalic, isUnderline)
    }

    /**
     * The initial state: the fields of the note being edited, or an empty
     * title and content, no image, the first category and no formatting.
     * An empty image or category on the note also falls back.
     */
    constructor (initialNote: Option<Note>, categories: seq<string>)
      ensures initialNote.None? ==>
        && title == "" && content == "" && selectedImage == None
        && selectedCategory == (if |categories| > 0 then Some(categories[0]) else None)
        && !isBold && !isItalic && !isUnderline
      ensures initialNote.Some? ==>
        var n := initialNote.value;
        && title == n.title && content == n.content
        && selectedImage == OrElse(n.image, None)
        && selectedCategory == OrElse(n.category, if |categories| > 0 then Some(categories[0]) else None)
        && isBold == n.isBold && isItalic == n.isItalic && isUnderline == n.isUnderline
    {
      var firstCategory := if |categories| > 0 then Some(categories[0]) else None;
      if initialNote.Some? {
        var n := initialNote.value;
        title := n.title;
        content := n.content;
        selectedImage := OrElse(n.image, None);
        selectedCategory := OrElse(n.category, firstCategory);
        isBold := n.isBold;
        isItalic := n.isItalic;
        isUnderline := n.isUnderline;
      } else {
        title := "";
        content := "";
        selectedImage := None;
        selectedCategory := firstCategory;
        isBold := false;
        isItalic := false;
        isUnderline := false;
      }
    }

    /** `formatText(kind)`: flips the named flag only. */
    method FormatText(kind: Format)
      modifies this`isBold, this`isItalic, this`isUnderline
      ensures Flags() == Flip(old(Flags()), kind)
    {
      match kind
      case Bold => isBold := !isBold;
      case Italic => isItalic := !isItalic;
      case Underline => isUnderline := !isUnderline;
    }

    /**
     * `handleSave`: a blank title stops before `onSave` (`None`); otherwise
     * `onSave` receives the untrimmed title, the content, image, category
     * and the three flags as they are now.
     */
    method HandleSave() returns (payload: Option<NoteData>)
      ensures payload.None? <==> Text.AllWhitespace(title)
      ensures payload.Some? ==>
                payload.value == NoteData(title, content, selectedImage, selectedCategory, isBold, isItalic, isUnderline)
    {
      Text.TrimEmptyIffBlank(title);
      if Text.Trim(title) == [] {
        return None;
      }
      payload := Some(NoteData(title, content, selectedImage, selectedCategory, isBold, isItalic, isUnderline));
    }
  }
}
