/**
 * Packed colours: a `Uint32` holding red in its low byte, then green,
 * blue and alpha, unpacked by `set_texture_color` and `UNHEX` with
 * `(color >> (8 * k)) & 0xFF`.
 */
module Color {
  import opened Bytes

  newtype uint32 = x: int | 0 <= x < 0x1_0000_0000

  datatype Rgba = Rgba(r: byte, g: byte, b: byte, a: byte)

  /**
   * Byte `k` of a packed colour. For an unsigned value, `x >> (8 * k)` is
   * `x / 2^(8 * k)` and `& 0xFF` keeps the remainder modulo 256.
   */
  function Channel(color: uint32, k: nat): (c: byte)
    requires k < 4
    ensures c as int == (color as int / Pow(256, k)) % 256
  {
    PowByteShifts(k);
    var shifted := color as int / (if k == 0 then 1 else if k == 1 then 0x100 else if k == 2 then 0x1_0000 else 0x100_0000);
    (shifted % 0x100) as byte
  }

  /** `base` raised to the power `n`. */
  function Pow(base: nat, n: nat): (r: nat)
    ensures base > 0 ==> r > 0
  {
    if n == 0 then 1 else base * Pow(base, n - 1)
  }

  /** The divisors of the four byte shifts `>> 0`, `>> 8`, `>> 16` and `>> 24`. */
  lemma {:induction false} PowByteShifts(k: nat)
    requires k < 4
    ensures Pow(256, k) == if k == 0 then 1 else if k == 1 then 0x100 else if k == 2 then 0x1_0000 else 0x100_0000
  {
    if k > 0 {
      PowByteShifts(k - 1);
    }
  }

  /** The packed colour with the given channels: red lowest, alpha highest. */
  function Pack(c: Rgba): (color: uint32)
  {
    var r, g, b, a := c.r as int, c.g as int, c.b as int, c.a as int;
    assert r + 0x100 * g + 0x1_0000 * b <= 0xFF_FFFF;
    (r + 0x100 * g + 0x1_0000 * b + 0x100_0000 * a) as uint32
  }

  /** `UNHEX(color)` and the arguments of `set_texture_color`'s two SDL calls: the four channels in order. */
  function Unhex(color: uint32): (c: Rgba)
    ensures Pack(c) == color
  {
    PackUnhex(color);
    Rgba(Channel(color, 0), Channel(color, 1), Channel(color, 2), Channel(color, 3))
  }

  /** The four channels recombine to the colour: r + g·2^8 + b·2^16 + a·2^24. */
  lemma PackUnhex(color: uint32)
    ensures Pack(Rgba(Channel(color, 0), Channel(color, 1), Channel(color, 2), Channel(color, 3))) == color
  {
    var x := color as int;
    var q1 := x / 0x100;
    var q2 := x / 0x1_0000;
    var q3 := x / 0x100_0000;
    assert x == x % 0x100 + 0x100 * q1;
    assert q1 == q1 % 0x100 + 0x100 * q2;
    assert q2 == q2 % 0x100 + 0x100 * q3;
    assert q3 < 0x100;
  }

  /** Unpacking a packed colour gives back its channels. */
  lemma UnhexPack(c: Rgba)
    ensures Unhex(Pack(c)) == c
  {
    var x := Pack(c) as int;
    var r, g, b, a := c.r as int, c.g as int, c.b as int, c.a as int;
    assert x == r + 0x100 * (g + 0x100 * (b + 0x100 * a));
    DivMod(x, r, g + 0x100 * (b + 0x100 * a));
    DivMod(x / 0x100, g, b + 0x100 * a);
    DivMod(x / 0x1_0000, b, a);
  }

  /** Dividing `lo + 256 * hi` by 256 separates the two parts. */
  lemma DivMod(x: int, lo: int, hi: int)
    requires 0 <= lo < 0x100 && 0 <= hi && x == lo + 0x100 * hi
    ensures x % 0x100 == lo && x / 0x100 == hi
  {
  }

  /** The colours `render_cursor` uses: opaque white for the block, opaque black for the glyph over it. */
  lemma CursorColours()
    ensures Unhex(0xFFFF_FFFF) == Rgba(255, 255, 255, 255)
    ensures Unhex(0xFF00_0000) == Rgba(0, 0, 0, 255)
  {
  }
}
