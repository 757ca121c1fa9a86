/**
 * The host name the responder answers for: the bytes read from the host-name
 * file, normalised in place (ASCII letters lowercased, cut at a newline) and
 * NUL-terminated.
 */
module HostName {
  import opened Bytes
  import NameCodec

  const LowerZ: byte := 0x7a

  /**
   * Where the normalising pass leaves the length: the index of the LAST
   * newline among the bytes read, or their count when there is none.
   */
  function TruncationPoint(s: seq<byte>): (n: nat)
    ensures n <= |s|
    ensures n == |s| <==> Newline !in s
    ensures n < |s| ==> s[n] == Newline && Newline !in s[n + 1..]
  {
    if s == [] then 0
    else if s[|s| - 1] == Newline then |s| - 1
    else
      var p := TruncationPoint(s[..|s| - 1]);
      if p == |s| - 1 then |s| else p
  }

  /** The first byte of a NUL-terminated name, as `hostname[0]` reads it. */
  function FirstByte(name: seq<byte>): (b: byte)
    ensures b != Nul ==> |name| > 0
  {
    if |name| > 0 then name[0] else Nul
  }

  /**
   * The host-name buffer after the pass over the `rd` bytes read: each of
   * them lowercased, the rest untouched, then a NUL at the truncation point.
   */
  function Normalised(buf: seq<byte>, rd: nat): seq<byte>
    requires rd < |buf|
  {
    (Lower(buf[..rd]) + buf[rd..])[TruncationPoint(buf[..rd]) := Nul]
  }

  /**
   * The host name the pass yields is the bytes before the last newline,
   * lowercased, with no uppercase ASCII letter left in it; the byte after it
   * is a NUL, so `hostname[0]` is the name's first byte (NUL when empty).
   */
  lemma NormalisedName(buf: seq<byte>, rd: nat)
    requires rd < |buf|
    ensures var n := TruncationPoint(buf[..rd]);
      && Normalised(buf, rd)[..n] == Lower(buf[..n])
      && (forall i :: 0 <= i < n ==> !IsUpper(Normalised(buf, rd)[i]))
      && Normalised(buf, rd)[n] == Nul
      && Normalised(buf, rd)[0] == FirstByte(Lower(buf[..n]))
  {
    var n := TruncationPoint(buf[..rd]);
    var r := Normalised(buf, rd);
    assert r[..n] == Lower(buf[..rd])[..n];
    assert Lower(buf[..rd])[..n] == Lower(buf[..n]);
  }

  /** A file holding "Alpha\n" gives the name "alpha". */
  lemma NormaliseExample()
    ensures var buf := [0x41 as byte, 0x6c, 0x70, 0x68, 0x61, Newline, 0, 0];
      Normalised(buf, 6)[..TruncationPoint(buf[..6])] == [0x61, 0x6c, 0x70, 0x68, 0x61]
  {
    var buf := [0x41 as byte, 0x6c, 0x70, 0x68, 0x61, Newline, 0, 0];
    assert buf[..6][5] == Newline;
    assert TruncationPoint(buf[..6]) == 5;
    NormalisedName(buf, 6);
    assert buf[..5] == [0x41, 0x6c, 0x70, 0x68, 0x61];
  }

  /** With two newlines the cut is at the second: "ab\n\n" gives "ab\n". */
  lemma LastNewlineWins()
    ensures var buf := [0x61 as byte, 0x62, Newline, Newline, 0];
      Normalised(buf, 4)[..TruncationPoint(buf[..4])] == [0x61, 0x62, Newline]
  {
    var buf := [0x61 as byte, 0x62, Newline, Newline, 0];
    assert buf[..4][3] == Newline;
    assert TruncationPoint(buf[..4]) == 3;
    NormalisedName(buf, 4);
    assert buf[..3] == [0x61, 0x62, Newline];
  }

  /** One more byte read: a newline becomes the cut, anything else leaves it. */
  lemma TruncationSnoc(s: seq<byte>, j: nat)
    requires j < |s|
    ensures TruncationPoint(s[..j + 1]) ==
      if s[j] == Newline then j
      else if TruncationPoint(s[..j]) == j then j + 1
      else TruncationPoint(s[..j])
  {
    assert s[..j + 1][..j] == s[..j];
  }

  /** The global `hostname` buffer and `hostnamelen`. */
  class Host {
    var hostname: array<byte>
    var hostnamelen: nat

    ghost predicate Valid()
      reads this
    {
      hostname.Length == NameCodec.HostNameMax + 1 && hostnamelen < hostname.Length
    }

    /** The name the responder matches against. */
    ghost function Name(): seq<byte>
      reads this, hostname
      requires Valid()
    {
      hostname[..hostnamelen]
    }

    /** The zero-initialised globals: an empty name. */
    constructor ()
      ensures Valid() && fresh(hostname) && Name() == []
      ensures forall i :: 0 <= i < hostname.Length ==> hostname[i] == Nul
    {
      hostname := new byte[NameCodec.HostNameMax + 1](_ => Nul);
      hostnamelen := 0;
    }

    /** One byte of the pass: a newline sets the length to its index, an uppercase letter is lowercased. */
    method NormaliseByte(j: nat)
      requires Valid() && j < hostname.Length
      modifies this, hostname
      ensures Valid() && hostname == old(hostname)
      ensures hostname[j] == LowerByte(old(hostname[j]))
      ensures forall i :: 0 <= i < hostname.Length && i != j ==> hostname[i] == old(hostname[i])
      ensures hostnamelen == if old(hostname[j]) == Newline then j else old(hostnamelen)
    {
      var c := hostname[j];
      if c == Newline {
        hostnamelen := j;
      } else if UpperA <= c <= UpperZ {
        hostname[j] := c + LowerZ - UpperZ;
      }
    }

    /**
     * The pass over the `rd` bytes a successful read left in `hostname`:
     * uppercase letters are lowercased, each newline sets the length to its
     * index, and a NUL is written at the final length.
     */
    method Normalise(rd: nat)
      requires Valid() && 0 < rd <= NameCodec.HostNameMax
      modifies this, hostname
      ensures Valid() && hostname == old(hostname)
      ensures hostnamelen == TruncationPoint(old(hostname[..rd]))
      ensures hostname[..] == Normalised(old(hostname[..]), rd)
    {
      ghost var read := hostname[..];
      hostnamelen := rd;
      for j := 0 to rd
        invariant Valid() && hostname == old(hostname) && |read| == hostname.Length
        invariant hostnamelen == if TruncationPoint(read[..j]) == j then rd else TruncationPoint(read[..j])
        invariant forall i :: 0 <= i < j ==> hostname[i] == LowerByte(read[i])
        invariant forall i :: j <= i < hostname.Length ==> hostname[i] == read[i]
      {
        TruncationSnoc(read, j);
        NormaliseByte(j);
      }
      assert read[..rd] == old(hostname[..rd]);
      ghost var lowered := hostname[..];
      PassThenCut(read, rd, lowered);
      hostname[hostnamelen] := Nul;
      assert hostname[..] == lowered[hostnamelen := Nul];
    }
  }

  /** The bytes after the pass, with the NUL written at the cut, are `Normalised`. */
  lemma PassThenCut(read: seq<byte>, rd: nat, lowered: seq<byte>)
    requires rd < |read| == |lowered|
    requires forall i :: 0 <= i < rd ==> lowered[i] == LowerByte(read[i])
    requires forall i :: rd <= i < |read| ==> lowered[i] == read[i]
    ensures lowered[TruncationPoint(read[..rd]) := Nul] == Normalised(read, rd)
  {
    assert lowered == Lower(read[..rd]) + read[rd..];
  }
}
