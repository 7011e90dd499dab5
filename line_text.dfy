/**
 * The content of a line as a value: what `line_insert_text_after` and
 * `line_backspace` do to the bytes `chars[0..size)`, with the facts the
 * editor relies on.
 */
module LineText {
  import opened Bytes

  /** The line `s` with `text` spliced in so that it starts at column `col`. */
  function InsertAt(s: seq<byte>, text: seq<byte>, col: nat): (r: seq<byte>)
    requires col <= |s|
    ensures |r| == |s| + |text|
  {
    s[..col] + text + s[col..]
  }

  /** The line `s` without the byte just before column `col`; nothing precedes column 0. */
  function DeleteBefore(s: seq<byte>, col: nat): (r: seq<byte>)
    requires col <= |s|
    ensures |r| == if col == 0 then |s| else |s| - 1
  {
    if col == 0 then s else s[..col - 1] + s[col..]
  }

  /** Byte by byte: the prefix stays put, `text` follows, the rest moves right by `|text|`. */
  lemma InsertAtIndex(s: seq<byte>, text: seq<byte>, col: nat, i: nat)
    requires col <= |s| && i < |s| + |text|
    ensures InsertAt(s, text, col)[i] ==
      if i < col then s[i] else if i < col + |text| then text[i - col] else s[i - |text|]
  {
  }

  /** Byte by byte: the prefix before `col - 1` stays put, the rest moves left by one. */
  lemma DeleteBeforeIndex(s: seq<byte>, col: nat, i: nat)
    requires 1 <= col <= |s| && i < |s| - 1
    ensures DeleteBefore(s, col)[i] == if i < col - 1 then s[i] else s[i + 1]
  {
  }

  /** Inserting empty text changes nothing, wherever it is inserted. */
  lemma InsertEmpty(s: seq<byte>, col: nat)
    requires col <= |s|
    ensures InsertAt(s, [], col) == s
  {
    assert s[..col] + [] + s[col..] == s;
  }

  /** Appending at the end keeps every earlier byte at its index: the line becomes `s + text`. */
  lemma AppendKeepsPrefix(s: seq<byte>, text: seq<byte>)
    ensures InsertAt(s, text, |s|) == s + text
    ensures forall i :: 0 <= i < |s| ==> InsertAt(s, text, |s|)[i] == s[i]
  {
    assert s[..|s|] == s;
  }

  /** Backspace right after a one-byte insertion removes exactly that byte. */
  lemma DeleteUndoesInsertByte(s: seq<byte>, b: byte, col: nat)
    requires col <= |s|
    ensures DeleteBefore(InsertAt(s, [b], col), col + 1) == s
  {
    var t := InsertAt(s, [b], col);
    assert t[..col] == s[..col];
    assert t[col + 1..] == s[col..];
    assert s[..col] + s[col..] == s;
  }

  /** Backspace at the end of an inserted fragment takes off its last byte and nothing else. */
  lemma DeleteShortensInsert(s: seq<byte>, text: seq<byte>, col: nat)
    requires col <= |s| && text != []
    ensures DeleteBefore(InsertAt(s, text, col), col + |text|)
         == InsertAt(s, text[..|text| - 1], col)
  {
    var n := |text|;
    var t := InsertAt(s, text, col);
    assert t[..col + n - 1] == s[..col] + text[..n - 1];
    assert t[col + n..] == s[col..];
  }

  /** Backspace removes one occurrence of the byte before the cursor and keeps all others. */
  lemma DeleteBeforeRemovesOne(s: seq<byte>, col: nat)
    requires 1 <= col <= |s|
    ensures multiset(DeleteBefore(s, col)) + multiset{s[col - 1]} == multiset(s)
  {
    assert s == s[..col - 1] + [s[col - 1]] + s[col..];
  }
}
