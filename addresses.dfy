/**
 * Address classification and the multicast-join decision: which interface
 * addresses are local enough to join the mDNS group on.
 */
module Addresses {
  import opened Bytes

  /** Address families as Linux numbers them. */
  const AfInet: nat := 2
  const AfInet6: nat := 10

  /**
   * A socket address as the daemon stores it: the family (0 in a zeroed
   * slot), the IPv6 scope id (0 for IPv4) and the address bytes in network
   * order.
   */
  datatype SockAddr = SockAddr(family: nat, scopeId: nat, addr: seq<byte>)

  /** The address width the family's sockaddr holds: 4 for IPv4, 16 for IPv6. */
  predicate WellFormed(sa: SockAddr) {
    && (sa.family == AfInet ==> |sa.addr| == 4)
    && (sa.family == AfInet6 ==> |sa.addr| == 16)
  }

  /** `ntohl` of a 4-byte network-order word: the octets read most significant first. */
  function Word32(a: seq<byte>, i: nat): (w: nat)
    requires i + 4 <= |a|
    ensures w < 0x1_0000_0000
  {
    ((a[i] as nat * 0x100 + a[i + 1] as nat) * 0x100 + a[i + 2] as nat) * 0x100 + a[i + 3] as nat
  }

  /**
   * `w & m` for a 32-bit `w` and a mask `m` whose set bits are the high ones
   * down to the bit worth `unit`: the word with its bits below `unit` cleared.
   */
  function HighBits(w: nat, unit: nat): nat
    requires unit > 0
  {
    w / unit * unit
  }

  /**
   * The mask tests of IsAddressLocal on the host-order address: the masks
   * 0xff000000, 0xfff00000 and 0xffff0000 keep the bits from 2^24, 2^20 and
   * 2^16 up.
   */
  predicate LocalMasks(check: nat) {
    || HighBits(check, 0x100_0000) == 0x7f00_0000
    || HighBits(check, 0x100_0000) == 0x0a00_0000
    || HighBits(check, 0x10_0000) == 0xac10_0000
    || HighBits(check, 0x1_0000) == 0xc0a8_0000
    || HighBits(check, 0x1_0000) == 0xa9fe_0000
  }

  /** IsAddressLocal: the mask tests the daemon makes on an IPv4 address. */
  predicate IsAddressLocal(a: seq<byte>)
    requires |a| == 4
  {
    LocalMasks(Word32(a, 0))
  }

  /**
   * The ranges of section 3 of RFC 1918 (10/8, 172.16/12, 192.168/16), the
   * loopback block 127/8 and the link-local block 169.254/16 of RFC 3927,
   * written on the address bytes.
   */
  predicate InLocalRange(a: seq<byte>)
    requires |a| == 4
  {
    || a[0] == 127
    || a[0] == 10
    || (a[0] == 172 && 16 <= a[1] < 32)
    || (a[0] == 192 && a[1] == 168)
    || (a[0] == 169 && a[1] == 254)
  }

  /** The high bits of the word are its leading octets. */
  lemma WordPrefixes(a: seq<byte>, i: nat)
    requires i + 4 <= |a|
    ensures Word32(a, i) / 0x100_0000 == a[i] as nat
    ensures Word32(a, i) / 0x40_0000 == a[i] as nat * 4 + a[i + 1] as nat / 0x40
    ensures Word32(a, i) / 0x10_0000 == a[i] as nat * 0x10 + a[i + 1] as nat / 0x10
    ensures Word32(a, i) / 0x1_0000 == a[i] as nat * 0x100 + a[i + 1] as nat
  {
    var hi := a[i] as nat * 0x100 + a[i + 1] as nat;
    var lo := a[i + 2] as nat * 0x100 + a[i + 3] as nat;
    assert Word32(a, i) == hi * 0x1_0000 + lo;
  }

  /** Comparing the kept bits with a value whose low bits are clear compares the quotients. */
  lemma HighBitsIs(w: nat, unit: nat, c: nat)
    requires unit > 0
    ensures HighBits(w, unit) == c * unit <==> w / unit == c
  {
  }

  /** The masks select exactly the five local blocks. */
  lemma IsAddressLocalRanges(a: seq<byte>)
    requires |a| == 4
    ensures IsAddressLocal(a) <==> InLocalRange(a)
  {
    var w := Word32(a, 0);
    WordPrefixes(a, 0);
    HighBitsIs(w, 0x100_0000, 0x7f);
    HighBitsIs(w, 0x100_0000, 0x0a);
    HighBitsIs(w, 0x10_0000, 0xac1);
    HighBitsIs(w, 0x1_0000, 0xc0a8);
    HighBitsIs(w, 0x1_0000, 0xa9fe);
  }

  /** The addresses the classifier is known by: two inside, two just outside. */
  lemma LocalExamples()
    ensures IsAddressLocal([192, 168, 1, 5]) && IsAddressLocal([172, 31, 0, 1])
    ensures !IsAddressLocal([8, 8, 8, 8]) && !IsAddressLocal([172, 32, 0, 1])
  {
    IsAddressLocalRanges([192, 168, 1, 5]);
    IsAddressLocalRanges([172, 31, 0, 1]);
    IsAddressLocalRanges([8, 8, 8, 8]);
    IsAddressLocalRanges([172, 32, 0, 1]);
  }

  /**
   * IsAddress6Local: link-local (fe80::/10, section 2.5.6 of RFC 4291) or
   * site-local (fec0::/10, section 2.5.7), tested as the C library's
   * IN6_IS_ADDR_LINKLOCAL and IN6_IS_ADDR_SITELOCAL do, with the mask
   * 0xffc00000 (the bits from 2^22 up) on the first word.
   */
  predicate IsAddress6Local(a: seq<byte>)
    requires |a| == 16
  {
    Local6Masks(Word32(a, 0))
  }

  predicate Local6Masks(w: nat) {
    HighBits(w, 0x40_0000) == 0xfe80_0000 || HighBits(w, 0x40_0000) == 0xfec0_0000
  }

  /** The two /10 blocks together are fe80::/9; unique-local fd00::/8 is not in it. */
  lemma IsAddress6LocalPrefix(a: seq<byte>)
    requires |a| == 16
    ensures IsAddress6Local(a) <==> a[0] == 0xfe && a[1] >= 0x80
  {
    var w := Word32(a, 0);
    WordPrefixes(a, 0);
    HighBitsIs(w, 0x40_0000, 0x3fa);
    HighBitsIs(w, 0x40_0000, 0x3fb);
  }

  /** What CheckAndAddMulticast reports, and the group join it asks for, if any. */
  datatype Classified = Classified(code: int, join: Option<seq<byte>>)

  /**
   * CheckAndAddMulticast: -1 for no address, -2 for a non-local IPv4 address,
   * -3 for a non-local IPv6 address, 0 otherwise. Only a local IPv4 address
   * leads to a join (of 224.0.0.251 on that address); the IPv6 join is not
   * written in the source, and other families are accepted and ignored.
   */
  function CheckAndAddMulticast(addr: Option<SockAddr>): (r: Classified)
    requires addr.Some? ==> WellFormed(addr.value)
    ensures r.code in {0, -1, -2, -3}
    ensures r.code == -1 <==> addr.None?
    ensures r.join.Some? <==> r.code == 0 && addr.Some? && addr.value.family == AfInet
    ensures r.join.Some? ==> r.join.value == addr.value.addr
    ensures addr.Some? && addr.value.family !in {AfInet, AfInet6} ==> r == Classified(0, None)
  {
    match addr
    case None => Classified(-1, None)
    case Some(sa) =>
      if sa.family == AfInet then
        if !IsAddressLocal(sa.addr) then Classified(-2, None)
        else Classified(0, Some(sa.addr))
      else if sa.family == AfInet6 then
        if !IsAddress6Local(sa.addr) then Classified(-3, None)
        else Classified(0, None)
      else Classified(0, None)
  }

  /**
   * A join is requested exactly for an IPv4 address in one of the five local
   * blocks, and the rejection codes say which family was not local.
   */
  lemma JoinOnlyForLocalIPv4(sa: SockAddr)
    requires WellFormed(sa)
    ensures var r := CheckAndAddMulticast(Some(sa));
      && (r.join.Some? <==> sa.family == AfInet && InLocalRange(sa.addr))
      && (r.code == -2 <==> sa.family == AfInet && !InLocalRange(sa.addr))
      && (r.code == -3 <==> sa.family == AfInet6 && !(sa.addr[0] == 0xfe && sa.addr[1] >= 0x80))
  {
    if sa.family == AfInet {
      IsAddressLocalRanges(sa.addr);
    } else if sa.family == AfInet6 {
      IsAddress6LocalPrefix(sa.addr);
    }
  }
}
