/** Bytes and NUL-terminated C strings, as the editor passes typed text around. */
module Bytes {

  /** One `char` of the line store: the editor counts bytes, not characters. */
  newtype byte = x: int | 0 <= x < 256

  /** The text a C string denotes: the bytes of `raw` up to, not including, its first NUL. */
  function CStr(raw: seq<byte>): (r: seq<byte>)
    ensures |r| <= |raw| && r == raw[..|r|]
    ensures 0 !in r
    ensures |r| < |raw| ==> raw[|r|] == 0
    decreases |raw|
  {
    if raw == [] || raw[0] == 0 then [] else [raw[0]] + CStr(raw[1..])
  }

  /** The three facts `CStr` ensures pin down a single length: the one `strlen` returns. */
  lemma {:induction false} CStrUnique(raw: seq<byte>, n: nat)
    requires n <= |raw| && 0 !in raw[..n]
    requires n < |raw| ==> raw[n] == 0
    ensures raw[..n] == CStr(raw)
  {
    if n > 0 {
      assert raw[0] == raw[..n][0];
      assert raw[1..][..n - 1] == raw[..n][1..];
      CStrUnique(raw[1..], n - 1);
      assert raw[..n] == [raw[0]] + raw[1..][..n - 1];
    }
  }

  /** `strlen`: the number of bytes before the first NUL, found by a scan. */
  method StrLen(raw: seq<byte>) returns (n: nat)
    ensures n <= |raw| && 0 !in raw[..n]
    ensures n < |raw| ==> raw[n] == 0
    ensures raw[..n] == CStr(raw)
  {
    n := 0;
    while n < |raw| && raw[n] != 0
      invariant n <= |raw| && 0 !in raw[..n]
    {
      n := n + 1;
    }
    CStrUnique(raw, n);
  }
}
