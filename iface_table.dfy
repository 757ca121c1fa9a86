/**
 * The per-interface address tables: growable arrays indexed by interface
 * number, filled from address-change notifications and read when a query is
 * answered. A slot whose family is 0 holds no address.
 */
module IfaceTable {
  import opened Bytes
  import opened Addresses

  /** A zeroed sockaddr slot of the given address width. */
  function Zeroed(width: nat): (z: SockAddr)
    ensures z.family == 0 && |z.addr| == width
  {
    SockAddr(0, 0, seq(width, _ => 0))
  }

  /**
   * The table after storing `e` at `ifindex`: grown to `ifindex + 1` slots
   * with zeroed new slots when too short, then the one slot overwritten.
   */
  function Stored(s: seq<SockAddr>, ifindex: nat, e: SockAddr, width: nat): (r: seq<SockAddr>)
    ensures |r| == if ifindex < |s| then |s| else ifindex + 1
  {
    var grown := if ifindex < |s| then s else s + seq(ifindex + 1 - |s|, _ => Zeroed(width));
    grown[ifindex := e]
  }

  /** The lookup rule: an index in range whose slot has a nonzero family. */
  function Find(s: seq<SockAddr>, iface: int): (r: Option<SockAddr>)
    ensures r.Some? <==> 0 <= iface < |s| && s[iface].family != 0
    ensures r.Some? ==> r.value == s[iface]
  {
    if 0 <= iface < |s| && s[iface].family != 0 then Some(s[iface]) else None
  }

  /**
   * Storing then looking up: the stored slot is found when its family is
   * set, slots that were there before are found as before, and the zeroed
   * slots a growth adds are never found.
   */
  lemma FindAfterStored(s: seq<SockAddr>, ifindex: nat, e: SockAddr, width: nat, iface: int)
    ensures Find(Stored(s, ifindex, e, width), iface) ==
      if iface == ifindex then (if e.family != 0 then Some(e) else None)
      else if 0 <= iface < |s| then Find(s, iface)
      else None
  {
    var r := Stored(s, ifindex, e, width);
    if iface != ifindex && 0 <= iface < |r| {
      if iface < |s| {
        assert r[iface] == s[iface];
      } else {
        assert r[iface] == Zeroed(width);
      }
    }
  }

  /** One of the two tables: `slots` has `max` entries (maxIFaceList). */
  class Table {
    const width: nat
    var slots: array<SockAddr>
    var max: nat

    ghost predicate Valid()
      reads this, slots
    {
      && slots.Length == max
      && forall i :: 0 <= i < max ==> |slots[i].addr| == width
    }

    ghost function Contents(): seq<SockAddr>
      reads this, slots
    {
      slots[..]
    }

    /** The empty table the daemon starts with. */
    constructor (width: nat)
      ensures Valid() && fresh(slots)
      ensures this.width == width && Contents() == []
    {
      this.width := width;
      slots := new SockAddr[0];
      max := 0;
    }

    /**
     * The table update of HandleNetlinkData: grow to `ifindex + 1` slots if
     * needed, zeroing the new ones, then copy the record into its slot.
     */
    method Record(ifindex: nat, e: SockAddr)
      requires Valid() && |e.addr| == width
      modifies this, slots
      ensures Valid()
      ensures Contents() == Stored(old(Contents()), ifindex, e, width)
      ensures fresh(slots) || slots == old(slots)
    {
      ghost var before := Contents();
      if ifindex >= max {
        var newlen := ifindex + 1;
        var grown := new SockAddr[newlen];
        // realloc keeps the old slots
        for k := 0 to max
          modifies grown
          invariant grown[..k] == before[..k]
        {
          grown[k] := slots[k];
          assert grown[..k + 1] == grown[..k] + [grown[k]];
        }
        // memset clears the new ones
        for k := max to newlen
          modifies grown
          invariant grown[..max] == before
          invariant forall m :: max <= m < k ==> grown[m] == Zeroed(width)
        {
          grown[k] := Zeroed(width);
        }
        assert grown[..] == before + seq(newlen - max, _ => Zeroed(width));
        slots, max := grown, newlen;
      }
      slots[ifindex] := e;
    }

    /** The lookup of HandleRX: `iface < maxIFaceList` and a nonzero family. */
    method Lookup(iface: int) returns (r: Option<SockAddr>)
      requires Valid()
      ensures r == Find(Contents(), iface)
      ensures r.Some? ==> |r.value.addr| == width
    {
      if 0 <= iface < max && slots[iface].family != 0 {
        r := Some(slots[iface]);
      } else {
        r := None;
      }
    }
  }

  /** What the IPv4 growth at minimdnsd.c line 186 does as written. */
  datatype GrowOutcome = Grown(slots: seq<SockAddr>) | HeapOverrun

  /**
   * The IPv4 table update as written: the memset counts the slots to clear
   * against the IPv6 table's length `max6`. A negative count becomes a huge
   * size, and a count above the slots just added runs past the block; both
   * are `HeapOverrun`. Otherwise the slots after the cleared ones keep
   * whatever the reallocation left in them, `stale`.
   */
  function RecordIPv4AsWritten(s: seq<SockAddr>, max6: nat, ifindex: nat, e: SockAddr, stale: SockAddr): (r: GrowOutcome)
    ensures ifindex < |s| ==> r == Grown(s[ifindex := e])
  {
    if ifindex < |s| then Grown(s[ifindex := e])
    else
      var newlen := ifindex + 1;
      var cleared := newlen - max6;
      if cleared < 0 || |s| + cleared > newlen then HeapOverrun
      else
        var grown := s + seq(cleared, _ => Zeroed(4)) + seq(newlen - |s| - cleared, _ => stale);
        Grown(grown[ifindex := e])
  }

  /**
   * With the IPv6 table longer than the IPv4 one, a slot the IPv4 growth
   * should have cleared keeps stale memory, and a lookup accepts it: here
   * interface 1 answers with an address nobody recorded.
   */
  lemma StaleSlotVisible(e: SockAddr, stale: SockAddr)
    requires e.family == AfInet && stale.family != 0
    ensures var r := RecordIPv4AsWritten([], 2, 2, e, stale);
      && r.Grown?
      && Find(r.slots, 1) == Some(stale)
      && Find(Stored([], 2, e, 4), 1) == None
  {
    var r := RecordIPv4AsWritten([], 2, 2, e, stale);
    assert r.slots[1] == stale;
    FindAfterStored([], 2, e, 4, 1);
  }

  /**
   * With the IPv6 table longer than the new IPv4 length the count is
   * negative (a huge size_t), and with it shorter than the old IPv4 length
   * the memset clears past the new block.
   */
  lemma GrowthOverruns(e: SockAddr, x: SockAddr)
    ensures RecordIPv4AsWritten([], 4, 2, e, x) == HeapOverrun
    ensures RecordIPv4AsWritten([x], 0, 1, e, x) == HeapOverrun
  {
  }

  /** The join a classification asks for, as a list of zero or one addresses. */
  function JoinsOf(c: Classified): seq<seq<byte>> {
    if c.join.Some? then [c.join.value] else []
  }

  /** Every address the interface enumeration lists is a well-formed one, or none at all. */
  predicate AllWellFormed(addrs: seq<Option<SockAddr>>) {
    forall i :: 0 <= i < |addrs| ==> addrs[i].Some? ==> WellFormed(addrs[i].value)
  }

  /** The joins the start-up enumeration asks for: each listed address classified in turn. */
  function EnumerationJoins(addrs: seq<Option<SockAddr>>): seq<seq<byte>>
    requires AllWellFormed(addrs)
  {
    if addrs == [] then []
    else EnumerationJoins(addrs[..|addrs| - 1]) + JoinsOf(CheckAndAddMulticast(addrs[|addrs| - 1]))
  }

  /** A local IPv4 address among those listed. */
  predicate ListsLocalIPv4(addrs: seq<Option<SockAddr>>, j: seq<byte>) {
    exists a :: a in addrs && a.Some? && a.value.family == AfInet && a.value.addr == j && |j| == 4 && InLocalRange(j)
  }

  /**
   * The enumeration joins on exactly the local IPv4 addresses it lists; no
   * IPv6 or non-local address leads to a join.
   */
  lemma {:induction false} EnumerationJoinsLocal(addrs: seq<Option<SockAddr>>, j: seq<byte>)
    requires AllWellFormed(addrs)
    ensures j in EnumerationJoins(addrs) <==> ListsLocalIPv4(addrs, j)
    decreases |addrs|
  {
    if addrs != [] {
      var pre, last := addrs[..|addrs| - 1], addrs[|addrs| - 1];
      assert addrs == pre + [last];
      EnumerationJoinsLocal(pre, j);
      var lastJoins := JoinsOf(CheckAndAddMulticast(last));
      assert j in EnumerationJoins(addrs) <==> j in EnumerationJoins(pre) || j in lastJoins;
      if last.Some? {
        JoinOnlyForLocalIPv4(last.value);
      }
      if ListsLocalIPv4(addrs, j) {
        var a :| a in addrs && a.Some? && a.value.family == AfInet && a.value.addr == j && |j| == 4 && InLocalRange(j);
        if a != last {
          assert a in pre;
        }
      }
      if ListsLocalIPv4(pre, j) {
        var a :| a in pre && a.Some? && a.value.family == AfInet && a.value.addr == j && |j| == 4 && InLocalRange(j);
        assert a in addrs;
      }
      if j in lastJoins {
        assert last in addrs;
      }
    }
  }

  /**
   * The daemon's interface state: the IPv4 and IPv6 tables and the group
   * joins requested so far (the socket option call is an effect outside the
   * model, recorded here as the address joined on).
   */
  class Interfaces {
    var table4: Table
    var table6: Table
    var joins: seq<seq<byte>>

    ghost predicate Valid()
      reads this, table4, table6, table4.slots, table6.slots
    {
      && table4 != table6 && table4.slots != table6.slots
      && table4.Valid() && table6.Valid()
      && table4.width == 4 && table6.width == 16
    }

    constructor ()
      ensures Valid() && fresh(table4) && fresh(table6) && fresh(table4.slots) && fresh(table6.slots)
      ensures table4.Contents() == [] && table6.Contents() == [] && joins == []
    {
      table4 := new Table(4);
      table6 := new Table(16);
      joins := [];
    }

    /**
     * One RTM_NEWADDR address attribute of HandleNetlinkData: build the
     * sockaddr, classify it (joining the group for a local IPv4 address) and
     * record it in its family's table. Other families change nothing.
     */
    method OnNewAddress(family: nat, ifindex: nat, addr: seq<byte>)
      requires Valid()
      requires family == AfInet ==> |addr| == 4
      requires family == AfInet6 ==> |addr| == 16
      modifies this, table4, table6, table4.slots, table6.slots
      ensures Valid()
      ensures table4 == old(table4) && table6 == old(table6)
      ensures family == AfInet ==>
        && joins == old(joins) + (if IsAddressLocal(addr) then [addr] else [])
        && table4.Contents() == Stored(old(table4.Contents()), ifindex, SockAddr(AfInet, 0, addr), 4)
        && table6.Contents() == old(table6.Contents())
      ensures family == AfInet6 ==>
        && joins == old(joins)
        && table6.Contents() == Stored(old(table6.Contents()), ifindex, SockAddr(AfInet6, ifindex, addr), 16)
        && table4.Contents() == old(table4.Contents())
      ensures family !in {AfInet, AfInet6} ==>
        joins == old(joins) && table4.Contents() == old(table4.Contents()) && table6.Contents() == old(table6.Contents())
    {
      if family == AfInet6 {
        var sai := SockAddr(AfInet6, ifindex, addr);
        joins := joins + JoinsOf(CheckAndAddMulticast(Some(sai)));
        table6.Record(ifindex, sai);
      } else if family == AfInet {
        var sai := SockAddr(AfInet, 0, addr);
        joins := joins + JoinsOf(CheckAndAddMulticast(Some(sai)));
        table4.Record(ifindex, sai);
      }
    }

    /**
     * HandleRequestingInterfaces: classify every address the interface
     * enumeration lists, asking for the joins. The tables are not touched, so
     * they stay as they were until address notifications fill them. A failed
     * enumeration lists nothing.
     */
    method OnStartup(addrs: seq<Option<SockAddr>>)
      requires Valid() && AllWellFormed(addrs)
      modifies this
      ensures Valid() && table4 == old(table4) && table6 == old(table6)
      ensures table4.Contents() == old(table4.Contents()) && table6.Contents() == old(table6.Contents())
      ensures joins == old(joins) + EnumerationJoins(addrs)
    {
      var i := 0;
      while i < |addrs|
        invariant 0 <= i <= |addrs|
        invariant table4 == old(table4) && table6 == old(table6)
        invariant joins == old(joins) + EnumerationJoins(addrs[..i])
      {
        assert addrs[..i + 1][..i] == addrs[..i];
        joins := joins + JoinsOf(CheckAndAddMulticast(addrs[i]));
        i := i + 1;
      }
      assert addrs[..|addrs|] == addrs;
    }
  }
}
