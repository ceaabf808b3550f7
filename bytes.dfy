/** Raw bytes, as the Rust code sees `u8`, `[u8]` and `Vec<u8>`. */
module Bytes {

  /** A `u8`. */
  type Byte = b: int | 0 <= b < 256

  type Bytes = seq<Byte>

  /** The bytes of an ASCII text, like a Rust byte-string literal `b"..."`. */
  function Ascii(s: string): (r: Bytes)
    ensures |r| == |s|
  {
    seq(|s|, i requires 0 <= i < |s| => (s[i] as int) % 256)
  }

  /** `Ascii` works character by character, so it maps a concatenation piece by piece. */
  lemma AsciiConcat(a: string, b: string)
    ensures Ascii(a + b) == Ascii(a) + Ascii(b)
  {
    assert forall i | 0 <= i < |a + b| :: Ascii(a + b)[i] == (Ascii(a) + Ascii(b))[i];
  }
}
