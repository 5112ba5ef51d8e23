/** Bytes, the scanned file, and the byte classes the tools look for. */
module Bytes {
  newtype byte = x: int | 0 <= x < 256

  type Word = seq<byte>

  const NEWLINE: byte := 0x0A

  /** One more than the largest 32-bit field. */
  const U32: nat := 0x1_0000_0000

  /** One more than the largest 64-bit field. */
  const U64: nat := 0x1_0000_0000_0000_0000

  datatype Option<+T> = None | Some(value: T)

  /** The eight bytes of a floating-point number, never interpreted here. */
  type Double = w: Word | |w| == 8 witness [0, 0, 0, 0, 0, 0, 0, 0]

  predicate Printable(b: byte) {
    0x20 <= b <= 0x7E
  }

  /** The first `b` in [lo, hi), or `hi` when there is none (the null pointer of `find_byte`). */
  function FindByte(text: Word, lo: nat, hi: nat, b: byte): (r: nat)
    requires lo <= hi <= |text|
    ensures lo <= r <= hi && (r < hi ==> text[r] == b)
    ensures forall i | lo <= i < r :: text[i] != b
    decreases hi - lo
  {
    if lo == hi || text[lo] == b then lo else FindByte(text, lo + 1, hi, b)
  }

  /** `FindByte` is the only position with its two properties. */
  lemma FindByteUnique(text: Word, lo: nat, hi: nat, b: byte, r: nat)
    requires lo <= r <= hi <= |text| && (r < hi ==> text[r] == b)
    requires forall i | lo <= i < r :: text[i] != b
    ensures FindByte(text, lo, hi, b) == r
  {
  }

  function Min(a: int, b: int): int {
    if a < b then a else b
  }
}
