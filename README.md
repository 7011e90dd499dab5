# A single-line text editor, modelled in Dafny

The editor keeps one line of text in a `Line` buffer. A `Line` has a byte store `chars` of
length `capacity`. Its first `size` bytes are the line, and the bytes after them are garbage.
Two operations change the buffer: `line_insert_text_after` splices typed text in at a column,
and `line_backspace` removes the byte before a column. Around the buffer, `main` keeps a
global cursor column. It moves the cursor on LEFT, RIGHT, BACKSPACE and text input. The
render routines look up a glyph of a 128x64 font atlas for each byte, and they unpack
32-bit colours into their four channels.

The model has six modules:

- `Bytes` (bytes.dfy): bytes, and the text a NUL-terminated C string denotes (`strlen`).
- `LineText` (line_text.dfy): what the two buffer operations do to the line's content,
  as functions on byte sequences, with lemmas about them.
- `Buffer` (buffer.dfy): the `Line` struct as a class with `capacity`, `size` and a
  `chars` array. Insertion and backspace are methods with explicit shift loops. Each is
  proved to leave `Content()`, the ghost view `chars[..size]`, equal to the `LineText`
  function applied to the old content.
- `Font` (font.dfy): the glyph table and the choice of glyph for a byte.
- `Color` (color.dfy): unpacking a `Uint32` colour into red, green, blue and alpha.
- `Editor` (editor.dfy): the event switch of `main` as a pure state machine (`Step`, `Run`).
  It also has a `Session` class that holds the two globals. Its methods are proved to follow
  the state machine.

The body of `line_insert_text_after` and `line_backspace` (buffer.c) is not part of this
model. Their behaviour comes from their declarations and from how `main` calls them. When
the store is too small, insertion grows it to at least the required size and at least double
its old capacity. This is the model's own growth policy. It gives the amortised growth that
repeated one-byte insertions need.

Columns count bytes, as main.c:216's `cursor += strlen(text)` does. A multi-byte UTF-8
character therefore takes several columns. The model keeps this behaviour.

An out-of-range column is a precondition violation. buffer.h:12-13 declare no error result,
so both buffer operations require `col <= size`, and the editor always meets this: it is an
invariant of the editor state.

## Model

| member | source | states |
|---|---|---|
| `Bytes.CStr` | main.c:216 | the text of a C string is a prefix of its bytes that holds no NUL and stops at the first NUL |
| `Bytes.CStrUnique` | main.c:216 | any length with no NUL before it and a NUL (or the end) at it gives exactly that text, so `strlen` is determined |
| `Bytes.StrLen` | main.c:216 | `strlen` returns the index of the first NUL, or the length if there is none, and the bytes before it are the C string's text |
| `LineText.InsertAt` | buffer.h:12 | splicing `text` into the line at `col` makes it longer by exactly `\|text\|` |
| `LineText.DeleteBefore` | buffer.h:13 | backspace at column 0 keeps the length; at any other column it shortens the line by exactly one |
| `LineText.InsertAtIndex` | buffer.h:12 | after insertion, bytes before `col` stay put, `text` occupies `[col, col+\|text\|)`, and every later byte has moved right by `\|text\|` |
| `LineText.DeleteBeforeIndex` | buffer.h:13 | after backspace at `col >= 1`, bytes before `col-1` stay put and every later byte has moved left by one |
| `LineText.InsertEmpty` | buffer.h:12 | inserting empty text leaves the line unchanged at any column |
| `LineText.AppendKeepsPrefix` | buffer.h:12 | inserting at `col == size` appends, and every earlier byte keeps its index |
| `LineText.DeleteUndoesInsertByte` | buffer.h:12-13 | backspace just after a one-byte insertion gives back the original line |
| `LineText.DeleteShortensInsert` | buffer.h:12-13 | backspace at the end of an inserted fragment removes the fragment's last byte and nothing else |
| `LineText.DeleteBeforeRemovesOne` | buffer.h:13 | backspace removes one occurrence of the byte before the column; the multiset of other bytes is kept |
| `Buffer.GrowCapacity` | buffer.h:7-9 | a grown store holds at least the required bytes and at least twice the old capacity, and is no larger than it needs to be for either bound |
| `Buffer.Line.constructor` | main.c:144 | a fresh line is empty: capacity 0, size 0, content `[]` |
| `Buffer.Line.Reserve` | buffer.h:7-9 | after growing, capacity covers the requirement; content and size are unchanged; the store is reallocated only when the requirement exceeds the old capacity |
| `Buffer.Line.ShiftTailRight` | buffer.h:12 | moving the tail right by `n` keeps `chars[0..col)` and puts the old `chars[col..size)` at `[col+n, size+n)` |
| `Buffer.Line.CopyIn` | buffer.h:12 | copying the text puts it at `[col, col+\|text\|)` and leaves every other byte of the store as it was |
| `Buffer.Line.SpliceIn` | buffer.h:12 | within a store that has room, the content becomes `old[0..col) + text + old[col..size)` with the same store and capacity |
| `Buffer.Line.InsertTextAfter` | buffer.h:12 | keeps `size <= capacity`; the new content is `old[0..col) + text + old[col..size)`; size grows by `\|text\|`; capacity reaches `old size + \|text\|`, is never lowered, changes only when the text does not fit, and at least doubles when it does change |
| `Buffer.Line.Backspace` | buffer.h:13 | keeps `size <= capacity` and the same store and capacity; the new content is `old[0..col-1) + old[col..size)` with size one less for `col >= 1`, and nothing changes at `col == 0` |
| `Font.GlyphRect` | main.c:89-100 | glyph `i` is a 7x9 cell at `x = (i%18)*7`, `y = (i/18)*9` that lies wholly inside the 128x64 atlas |
| `Font.GlyphRectsDisjoint` | main.c:89-100 | two different glyph cells never overlap |
| `Font.LoadGlyphTable` | main.c:89-100 | the loop over ascii 32..126 fills every one of the 95 table entries with that glyph's cell |
| `Font.GlyphIndex` | main.c:114-117 | the glyph chosen for any byte is an index of the 95-entry table |
| `Font.GlyphIndexFallback` | main.c:114-117 | a byte gets the glyph of `'?'` (index 31) exactly when it is `'?'` or outside 32..126; a displayable byte gets index `byte - 32` |
| `Font.GlyphIndexInjective` | main.c:114-117 | different displayable bytes are drawn with different glyphs |
| `Color.Channel` | main.c:126-130 | byte `k` of a colour, `(color >> (8 * k)) & 0xFF`, is the colour divided by `256^k` taken modulo 256; `set_texture_color` and `UNHEX` (main.c:148-151) both extract bytes this way |
| `Color.Unhex` | main.c:147-151 | the four extracted channels are bytes that pack back to the original colour |
| `Color.PackUnhex` | main.c:122-131 | the channels recombine to the colour as `r + g*2^8 + b*2^16 + a*2^24` |
| `Color.UnhexPack` | main.c:147-151 | unpacking a colour packed from four channels gives back those channels |
| `Color.CursorColours` | main.c:164-167 | `0xFFFFFFFF` unpacks to opaque white and `0xFF000000` to opaque black |
| `Editor.Initial` | main.c:144-145 | the editor starts with an empty line and the cursor at column 0, which satisfies the cursor invariant |
| `Editor.Step` | main.c:186-218 | every event branch keeps `0 <= cursor <= size`, and only text input can lengthen the line |
| `Editor.Run` | main.c:185-219 | any sequence of events keeps `0 <= cursor <= size` |
| `Editor.RunAppend` | main.c:185-219 | handling two batches in a row equals handling their concatenation |
| `Editor.ArrowsOnlyMoveCursor` | main.c:200-210 | LEFT and RIGHT leave the line alone; LEFT moves the cursor to `cursor - 1` when it is above 0 and RIGHT to `cursor + 1` when it is below `size`; each stops at its end of the line and undoes the other where it can move |
| `Editor.BackspaceRemovesByteBeforeCursor` | main.c:193-198 | BACKSPACE removes the byte before the cursor and moves the cursor back by one; at column 0 line and cursor stay as they are |
| `Editor.TextInputPlacesCursorAfterFragment` | main.c:214-217 | typed text is spliced in at the cursor, and the cursor ends just after it, at old cursor + `strlen(text)` |
| `Editor.TypeThenEraseRestores` | main.c:193-217 | typing a fragment and then pressing BACKSPACE once per byte restores both line and cursor |
| `Editor.EraseFragment` | main.c:193-198 | from the end of an inserted fragment, one BACKSPACE per byte of it restores the line and the cursor |
| `Editor.Session.constructor` | main.c:144-145 | the globals start as an empty line with no store and the cursor at 0 |
| `Editor.Session.Handle` | main.c:186-218 | one event changes the line and cursor exactly as `Step` says, keeps the cursor within the line, and only text input can change the capacity |
| `Editor.Session.ProcessEvents` | main.c:185-219 | a poll batch changes the state as `Run` says, and reports quit exactly when the batch held a quit event |
| `Editor.Session.CursorGlyph` | main.c:168-170 | a glyph is drawn under the cursor exactly when `cursor < size`, and it is the glyph of the content byte at the cursor |
| `Editor.Session.VisibleGlyphs` | main.c:133-142 | rendering the line draws exactly `size` glyphs, one per content byte and in order, each in the glyph table |

## Left out

- SDL initialisation, window and renderer creation, event polling, drawing and presenting (main.c:175-230) are I/O. The events of one poll batch are a parameter of `ProcessEvents`, and the outer frame loop is not modelled.
- Image loading through stb_image, surface creation and the byte-order masks (main.c:42-71) are an external decoder. The atlas texture and its colour key are left out with them.
- The `scc`/`scp` wrappers that print an error and call `exit(1)` (main.c:22-40) are process control.
- Pixel positions and sizes computed in floating point with `floorf` and `FONT_SCALE` (main.c:105-112, 137-141, 155-162) are left out. Only the glyph index each byte selects is modelled.
- Allocation failure during growth is not modelled: `new` in Dafny cannot fail.
- Buffer.GrowCapacity: the growth factor of buffer.c is not part of this model. Doubling is the model's own policy: `GrowCapacity`, `Buffer.Line.Reserve` and `Buffer.Line.InsertTextAfter` state it of the model, not of buffer.c. All that the editor relies on is that capacity reaches the required size.
- The amortised bound on reallocations is not proved as a count over a sequence of insertions. Only the per-call fact is proved: a reallocation at least doubles the capacity.
- `size_t` arithmetic is unbounded in the model, so wrap-around of `size` or `cursor` past 2^64 is not modelled.
- The fixed 32-byte text buffer of an SDL text-input event is modelled as a byte sequence of any length.
- C `char` signedness is not modelled. Bytes are 0..255. A byte above 127 read as a negative signed `char` falls outside 32..126 either way, so it gets the same glyph.
