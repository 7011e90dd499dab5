/**
 * The editor of main.c: the global `line` and `cursor`, the event branches
 * that update them, and what the render routines read back from the line.
 */
module Editor {
  import opened Bytes
  import opened LineText
  import opened Buffer
  import opened Font

  /** The events `main` distinguishes; every other event or key falls through its switch. */
  datatype Event =
    | Quit
    | KeyBackspace
    | KeyLeft
    | KeyRight
    | KeyOther
    | TextInput(raw: seq<byte>)
    | OtherEvent

  /** The glyph drawn at the cursor, when there is one. */
  datatype MaybeGlyph = NoGlyph | Glyph(index: nat)

  /** What the editor holds between events: the line's content and the cursor column. */
  datatype EditorState = EditorState(text: seq<byte>, cursor: nat)

  /** The cursor is a column of the line: `0 <= cursor <= line.size`. */
  predicate Inv(s: EditorState) {
    s.cursor <= |s.text|
  }

  /** The editor at start-up: `Line line = {0}; size_t cursor = 0;`. */
  function Initial(): (s: EditorState)
    ensures Inv(s) && s.text == [] && s.cursor == 0
  {
    EditorState([], 0)
  }

  /** One pass through `main`'s event switch. */
  function Step(s: EditorState, e: Event): (r: EditorState)
    requires Inv(s)
    ensures Inv(r)
    ensures !e.TextInput? ==> |r.text| <= |s.text|
  {
    match e
    case KeyBackspace =>
      EditorState(DeleteBefore(s.text, s.cursor), if s.cursor > 0 then s.cursor - 1 else s.cursor)
    case KeyLeft =>
      EditorState(s.text, if s.cursor > 0 then s.cursor - 1 else s.cursor)
    case KeyRight =>
      EditorState(s.text, if s.cursor < |s.text| then s.cursor + 1 else s.cursor)
    case TextInput(raw) =>
      var fragment := CStr(raw);
      EditorState(InsertAt(s.text, fragment, s.cursor), s.cursor + |fragment|)
    case _ => s
  }

  /** The events of a batch handled one after another. */
  function Run(s: EditorState, events: seq<Event>): (r: EditorState)
    requires Inv(s)
    ensures Inv(r)
    decreases |events|
  {
    if events == [] then s else Run(Step(s, events[0]), events[1..])
  }

  /** Handling `a` then `b` is handling `a`, then handling `b` from where `a` left off. */
  lemma {:induction false} RunAppend(s: EditorState, a: seq<Event>, b: seq<Event>)
    requires Inv(s)
    ensures Run(s, a + b) == Run(Run(s, a), b)
    decreases |a|
  {
    if a == [] {
      assert a + b == b;
    } else {
      assert (a + b)[0] == a[0] && (a + b)[1..] == a[1..] + b;
      RunAppend(Step(s, a[0]), a[1..], b);
    }
  }

  /** `n` presses of BACKSPACE. */
  function Backspaces(n: nat): (es: seq<Event>)
    ensures |es| == n && forall i :: 0 <= i < n ==> es[i] == KeyBackspace
  {
    if n == 0 then [] else [KeyBackspace] + Backspaces(n - 1)
  }

  /** LEFT and RIGHT only move the cursor, and each undoes the other where it can move. */
  lemma ArrowsOnlyMoveCursor(s: EditorState)
    requires Inv(s)
    ensures Step(s, KeyLeft).text == s.text && Step(s, KeyRight).text == s.text
    ensures s.cursor > 0 ==> Step(s, KeyLeft).cursor == s.cursor - 1
    ensures s.cursor < |s.text| ==> Step(s, KeyRight).cursor == s.cursor + 1
    ensures s.cursor > 0 ==> Step(Step(s, KeyLeft), KeyRight) == s
    ensures s.cursor < |s.text| ==> Step(Step(s, KeyRight), KeyLeft) == s
    ensures s.cursor == 0 ==> Step(s, KeyLeft) == s
    ensures s.cursor == |s.text| ==> Step(s, KeyRight) == s
  {
  }

  /**
   * BACKSPACE removes the byte before the cursor and moves the cursor back
   * onto where it was; at column 0 it changes neither line nor cursor.
   */
  lemma BackspaceRemovesByteBeforeCursor(s: EditorState)
    requires Inv(s)
    ensures s.cursor == 0 ==> Step(s, KeyBackspace) == s
    ensures s.cursor > 0 ==>
      var r := Step(s, KeyBackspace);
      r.cursor == s.cursor - 1 && |r.text| == |s.text| - 1 &&
      r.text[..r.cursor] == s.text[..s.cursor - 1] && r.text[r.cursor..] == s.text[s.cursor..]
  {
  }

  /** Typed text lands at the cursor, and the cursor ends up just after it. */
  lemma TextInputPlacesCursorAfterFragment(s: EditorState, raw: seq<byte>)
    requires Inv(s)
    ensures var r, t := Step(s, TextInput(raw)), CStr(raw);
      r.cursor == s.cursor + |t| && |r.text| == |s.text| + |t| &&
      r.text[..s.cursor] == s.text[..s.cursor] &&
      r.text[s.cursor..r.cursor] == t &&
      r.text[r.cursor..] == s.text[s.cursor..]
  {
  }

  /** Pressing BACKSPACE once per typed byte takes the fragment out again and puts the cursor back. */
  lemma {:induction false} TypeThenEraseRestores(s: EditorState, raw: seq<byte>)
    requires Inv(s)
    ensures Run(s, [TextInput(raw)] + Backspaces(|CStr(raw)|)) == s
  {
    var t := CStr(raw);
    assert ([TextInput(raw)] + Backspaces(|t|))[1..] == Backspaces(|t|);
    assert Run(s, [TextInput(raw)] + Backspaces(|t|)) == Run(Step(s, TextInput(raw)), Backspaces(|t|));
    EraseFragment(s.text, t, s.cursor);
  }

  /** Helper for `TypeThenEraseRestores`: erasing a fragment of any length from its end. */
  lemma {:induction false} EraseFragment(text: seq<byte>, t: seq<byte>, col: nat)
    requires col <= |text|
    ensures Run(EditorState(InsertAt(text, t, col), col + |t|), Backspaces(|t|)) == EditorState(text, col)
    decreases |t|
  {
    var s := EditorState(InsertAt(text, t, col), col + |t|);
    if t == [] {
      InsertEmpty(text, col);
    } else {
      var shorter := t[..|t| - 1];
      DeleteShortensInsert(text, t, col);
      assert Step(s, KeyBackspace) == EditorState(InsertAt(text, shorter, col), col + |shorter|);
      EraseFragment(text, shorter, col);
    }
  }

  /** The editor session: the globals `line` and `cursor` of main.c:144-145. */
  class Session {
    var line: Line
    var cursor: nat

    ghost predicate Valid()
      reads this, line
    {
      line.Valid() && cursor <= line.size
    }

    /** The editor's state as a value. */
    ghost function State(): (s: EditorState)
      reads this, line, line.chars
      requires Valid()
      ensures Inv(s)
    {
      EditorState(line.Content(), cursor)
    }

    /** The globals at start-up: an empty line without a store, cursor at column 0. */
    constructor ()
      ensures Valid() && fresh(line) && fresh(line.chars)
      ensures State() == Initial() && line.capacity == 0
    {
      line := new Line();
      cursor := 0;
    }

    /** One event through `main`'s switch; only text input can grow the line's store. */
    method Handle(e: Event)
      requires Valid()
      modifies this`cursor, line, line.chars
      ensures Valid() && line == old(line)
      ensures line.chars == old(line.chars) || fresh(line.chars)
      ensures State() == Step(old(State()), e)
      ensures !e.TextInput? ==> line.capacity == old(line.capacity)
    {
      match e {
        case KeyBackspace =>
          line.Backspace(cursor);
          if cursor > 0 {
            cursor := cursor - 1;
          }
        case KeyLeft =>
          if cursor > 0 {
            cursor := cursor - 1;
          }
        case KeyRight =>
          if cursor < line.size {
            cursor := cursor + 1;
          }
        case TextInput(raw) =>
          var n := StrLen(raw);
          line.InsertTextAfter(raw[..n], cursor);
          cursor := cursor + n;
        case _ =>
      }
    }

    /**
     * The inner `while (SDL_PollEvent(...))` loop: handles every event of
     * the batch in order, and reports whether one of them asked to quit.
     * Events after a quit in the same batch are still handled.
     */
    method ProcessEvents(events: seq<Event>) returns (quit: bool)
      requires Valid()
      modifies this`cursor, line, line.chars
      ensures Valid() && line == old(line)
      ensures State() == Run(old(State()), events)
      ensures quit <==> Quit in events
    {
      quit := false;
      var i := 0;
      while i < |events|
        invariant 0 <= i <= |events|
        invariant Valid() && line == old(line)
        invariant line.chars == old(line.chars) || fresh(line.chars)
        invariant State() == Run(old(State()), events[..i])
        invariant quit <==> Quit in events[..i]
      {
        if events[i] == Quit {
          quit := true;
        }
        ghost var prev := State();
        Handle(events[i]);
        RunAppend(old(State()), events[..i], [events[i]]);
        assert events[..i + 1] == events[..i] + [events[i]];
        assert Run(prev, [events[i]]) == Step(prev, events[i]);
        i := i + 1;
      }
      assert events[..i] == events;
    }

    /**
     * `render_cursor`'s guard: the glyph under the cursor is drawn only when
     * the cursor is on a byte of the line, never past its content.
     */
    method CursorGlyph() returns (glyph: MaybeGlyph)
      requires Valid()
      ensures glyph.Glyph? <==> cursor < line.size
      ensures glyph.Glyph? ==> glyph.index == GlyphIndex(line.Content()[cursor])
    {
      if cursor < line.size {
        glyph := Glyph(GlyphIndex(line.chars[cursor]));
      } else {
        glyph := NoGlyph;
      }
    }

    /** `render_text_sized` over `line.chars, line.size`: one glyph per byte of the content, in order. */
    method VisibleGlyphs() returns (glyphs: seq<nat>)
      requires Valid()
      ensures |glyphs| == line.size
      ensures forall i :: 0 <= i < line.size ==> glyphs[i] == GlyphIndex(line.Content()[i])
      ensures forall i :: 0 <= i < line.size ==> glyphs[i] < GLYPH_COUNT
    {
      glyphs := [];
      var i := 0;
      while i < line.size
        invariant 0 <= i <= line.size
        invariant |glyphs| == i
        invariant forall k :: 0 <= k < i ==> glyphs[k] == GlyphIndex(line.chars[k])
      {
        glyphs := glyphs + [GlyphIndex(line.chars[i])];
        i := i + 1;
      }
    }
  }
}
