/** Bytes and ASCII, as the identifier code sees them: every symbol is a `u8`,
    and only bytes below 128 may be symbols. */
module Bytes {

  /** An unsigned 8-bit value (`u8`). */
  type Byte = b: int | 0 <= b < 256

  /** `u8::is_ascii`: the byte is below 128. */
  predicate IsAscii(b: Byte) {
    b < 128
  }

  /** Every byte of `s` is ASCII. */
  predicate AllAscii(s: seq<Byte>) {
    forall i :: 0 <= i < |s| ==> IsAscii(s[i])
  }

  /** Every character of `text` is ASCII, so it has a one-byte encoding. */
  predicate IsAsciiText(text: string) {
    forall i :: 0 <= i < |text| ==> text[i] as int < 128
  }

  /** The bytes of an ASCII byte-string literal `b"..."`: one byte per character. */
  function ByteString(text: string): (r: seq<Byte>)
    requires IsAsciiText(text)
    ensures |r| == |text| && AllAscii(r)
    ensures forall i :: 0 <= i < |r| ==> r[i] == text[i] as int
  {
    seq(|text|, i requires 0 <= i < |text| => text[i] as int)
  }

  /** The consecutive ASCII bytes `lo, lo + 1, ..., hi`. */
  function Span(lo: char, hi: char): (r: seq<Byte>)
    requires lo <= hi && hi as int < 128
    ensures |r| == hi as int - lo as int + 1
    ensures forall i :: 0 <= i < |r| ==> r[i] == lo as int + i
  {
    seq(hi as int - lo as int + 1, i requires 0 <= i <= hi as int - lo as int => lo as int + i)
  }

  /** Whether `b` lies between the characters `lo` and `hi`, both included. */
  predicate InRange(b: Byte, lo: char, hi: char) {
    lo as int <= b <= hi as int
  }

  /** A span holds exactly the bytes of its range. */
  lemma InSpan(lo: char, hi: char, b: Byte)
    requires lo <= hi && hi as int < 128
    ensures b in Span(lo, hi) <==> InRange(b, lo, hi)
  {
    if InRange(b, lo, hi) {
      assert Span(lo, hi)[b - lo as int] == b;
    }
  }
}
