/** Octets, the ASCII letters the responder cares about, and an Option type. */
module Bytes {

  newtype byte = x: int | 0 <= x < 0x100

  datatype Option<+T> = None | Some(value: T)

  const Nul: byte := 0
  const Newline: byte := 0x0a
  const Dot: byte := 0x2e
  const UpperA: byte := 0x41
  const UpperZ: byte := 0x5a
  const LowerA: byte := 0x61

  predicate IsUpper(b: byte) {
    UpperA <= b <= UpperZ
  }

  /** ASCII-only lowercasing, as the name decoder and the host-name pass do it. */
  function LowerByte(b: byte): (r: byte)
    ensures IsUpper(b) ==> r == b - UpperA + LowerA && !IsUpper(r)
    ensures !IsUpper(b) ==> r == b
  {
    if IsUpper(b) then b - UpperA + LowerA else b
  }

  function Lower(s: seq<byte>): (r: seq<byte>)
    ensures |r| == |s|
    ensures forall i {:trigger r[i]} :: 0 <= i < |s| ==> r[i] == LowerByte(s[i])
  {
    seq(|s|, i requires 0 <= i < |s| => LowerByte(s[i]))
  }

  lemma LowerAppend(a: seq<byte>, b: seq<byte>)
    ensures Lower(a + b) == Lower(a) + Lower(b)
  {
    assert forall i :: 0 <= i < |a + b| ==> Lower(a + b)[i] == (Lower(a) + Lower(b))[i];
  }

  /** The two-byte big-endian value at `i`, as `ntohs` of an aligned load gives it. */
  function BigEndian16(s: seq<byte>, i: nat): (v: nat)
    requires i + 1 < |s|
    ensures v < 0x1_0000
    ensures v / 0x100 == s[i] as nat && v % 0x100 == s[i + 1] as nat
  {
    s[i] as nat * 0x100 + s[i + 1] as nat
  }
}
