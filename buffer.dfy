/**
 * The single-line text buffer `Line` of buffer.h: a byte store `chars` of
 * length `capacity` whose first `size` bytes are the line, grown on demand
 * by insertion and never shrunk.
 */
module Buffer {
  import opened Bytes
  import opened LineText

  /**
   * The capacity a store grows to when `required` bytes do not fit in
   * `capacity`: at least what is required and at least double what there
   * was, so that typing byte by byte reallocates only now and then.
   */
  function GrowCapacity(capacity: nat, required: nat): (r: nat)
    requires capacity < required
    ensures r >= required && r >= 2 * capacity
    ensures r == required || r == 2 * capacity
  {
    if 2 * capacity >= required then 2 * capacity else required
  }

  class Line {
    var capacity: nat
    var size: nat
    var chars: array<byte>

    /** `0 <= size <= capacity`, and the store is exactly `capacity` bytes long. */
    ghost predicate Valid()
      reads this
    {
      chars.Length == capacity && size <= capacity
    }

    /** The line itself: only `chars[0..size)` is content, the rest of the store is garbage. */
    ghost function Content(): seq<byte>
      reads this, chars
      requires Valid()
    {
      chars[..size]
    }

    /** `Line line = {0}`: no store, nothing in it. */
    constructor ()
      ensures Valid() && fresh(chars)
      ensures capacity == 0 && size == 0 && Content() == []
    {
      capacity := 0;
      size := 0;
      chars := new byte[0];
    }

    /** Makes room for `required` bytes, reallocating and copying the content when they do not fit. */
    method Reserve(required: nat)
      requires Valid()
      modifies this
      ensures Valid() && size == old(size) && Content() == old(Content())
      ensures capacity >= required && capacity >= old(capacity)
      ensures required <= old(capacity) ==> chars == old(chars) && capacity == old(capacity)
      ensures required > old(capacity) ==> fresh(chars) && capacity == GrowCapacity(old(capacity), required)
    {
      if required > capacity {
        var newCapacity := GrowCapacity(capacity, required);
        var grown := new byte[newCapacity];
        var i := 0;
        while i < size
          modifies grown
          invariant 0 <= i <= size
          invariant forall k :: 0 <= k < i ==> grown[k] == chars[k]
        {
          grown[i] := chars[i];
          i := i + 1;
        }
        assert grown[..size] == chars[..size];
        chars := grown;
        capacity := newCapacity;
      }
    }

    /** Moves `chars[col..size)` right by `n` bytes, last byte first so none is overwritten before it moves. */
    method ShiftTailRight(col: nat, n: nat)
      requires Valid() && col <= size && size + n <= capacity
      modifies chars
      ensures chars[..col] == old(chars[..col])
      ensures chars[col + n..size + n] == old(chars[col..size])
    {
      var i := size;
      while i > col
        invariant col <= i <= size
        invariant forall k :: 0 <= k < i ==> chars[k] == old(chars[k])
        invariant forall k :: i + n <= k < size + n ==> chars[k] == old(chars[k - n])
        decreases i
      {
        i := i - 1;
        chars[i + n] := chars[i];
      }
    }

    /** Copies `text` into `chars[col..col + |text|)`, leaving every other byte of the store alone. */
    method CopyIn(text: seq<byte>, col: nat)
      requires Valid() && col + |text| <= capacity
      modifies chars
      ensures chars[..col] == old(chars[..col])
      ensures chars[col..col + |text|] == text
      ensures chars[col + |text|..] == old(chars[col + |text|..])
    {
      var j := 0;
      while j < |text|
        invariant 0 <= j <= |text|
        invariant forall k :: 0 <= k < col ==> chars[k] == old(chars[k])
        invariant forall k :: col <= k < col + j ==> chars[k] == text[k - col]
        invariant forall k :: col + j <= k < capacity ==> chars[k] == old(chars[k])
      {
        chars[col + j] := text[j];
        j := j + 1;
      }
    }

    /** Splices `text` in at `col` within the present store, which must already have room for it. */
    method SpliceIn(text: seq<byte>, col: nat)
      requires Valid() && col <= size && size + |text| <= capacity
      modifies this`size, chars
      ensures Valid() && chars == old(chars) && capacity == old(capacity)
      ensures size == old(size) + |text|
      ensures Content() == InsertAt(old(Content()), text, col)
    {
      var n := |text|;
      ghost var before := chars[..];
      ShiftTailRight(col, n);
      ghost var shifted := chars[..];
      CopyIn(text, col);
      ghost var copied := chars[..];
      assert copied[..col] == before[..col] by {
        assert copied[..col] == shifted[..col] == before[..col];
      }
      assert copied[col + n..size + n] == before[col..size] by {
        assert copied[col + n..size + n] == shifted[col + n..size + n];
      }
      assert copied[..size + n] == copied[..col] + copied[col..col + n] + copied[col + n..size + n];
      assert before[..size][..col] == before[..col] && before[..size][col..] == before[col..size];
      size := size + n;
    }

    /**
     * `line_insert_text_after(line, text, col)`: grows the store if needed,
     * shifts `[col, size)` right by `|text|` and copies `text` into the gap.
     */
    method InsertTextAfter(text: seq<byte>, col: nat)
      requires Valid() && col <= size
      modifies this, chars
      ensures Valid()
      ensures Content() == InsertAt(old(Content()), text, col)
      ensures size == old(size) + |text|
      ensures capacity >= old(size) + |text| && capacity >= old(capacity)
      ensures old(size) + |text| <= old(capacity) ==> chars == old(chars) && capacity == old(capacity)
      ensures chars != old(chars) ==> fresh(chars) && capacity >= 2 * old(capacity)
    {
      Reserve(size + |text|);
      SpliceIn(text, col);
    }

    /**
     * `line_backspace(line, col)`: removes the byte at `col - 1` by shifting
     * `[col, size)` left by one; at column 0 it does nothing. The store is kept.
     */
    method Backspace(col: nat)
      requires Valid() && col <= size
      modifies this`size, chars
      ensures Valid() && chars == old(chars) && capacity == old(capacity)
      ensures Content() == DeleteBefore(old(Content()), col)
      ensures size == if col == 0 then old(size) else old(size) - 1
    {
      if col == 0 {
        return;
      }
      ghost var before := Content();
      var i := col;
      while i < size
        modifies chars
        invariant col <= i <= size
        invariant forall k :: 0 <= k < col - 1 ==> chars[k] == before[k]
        invariant forall k :: col - 1 <= k < i - 1 ==> chars[k] == before[k + 1]
        invariant forall k :: i <= k < size ==> chars[k] == before[k]
      {
        chars[i - 1] := chars[i];
        i := i + 1;
      }

      size := size - 1;
      forall k | 0 <= k < size
        ensures chars[..size][k] == DeleteBefore(before, col)[k]
      {
        DeleteBeforeIndex(before, col, k);
      }
    }
  }
}
