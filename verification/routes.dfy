/**
 * `Toolkit::RouteTable` and `Toolkit::VirtualRouteTable`: which local
 * address the gatekeeper uses towards a peer. A route entry matches an
 * address that is its destination or lies in its network; the local address
 * for a peer is the destination of the first matching entry, or the
 * table's default address when none matches.
 *
 * The operating system's interface and route tables are inputs here.
 */
module Routes {
  import opened PStrings
  import opened Addresses

  /** What the route table reads of a `PIPSocket::InterfaceEntry`. */
  datatype Interface = Interface(name: string, address: Address)

  /** What the route table reads of a `PIPSocket::RouteEntry` the system reports. */
  datatype SystemRoute = SystemRoute(network: Address, netmask: Address, destination: Address, interfaceName: string)

  /** `Toolkit::RouteTable::RouteEntry`. */
  datatype RouteEntry = RouteEntry(network: Address, netmask: Address, destination: Address)

  /** `RouteEntry::Compare`: the address is the destination or lies in the network. */
  predicate Compare(e: RouteEntry, ip: Address) {
    ip == e.destination || ip.And(e.netmask) == e.network
  }

  /** `RouteEntry(net)`: a `NetworkInterfaces` entry; the text before `/` is also the destination. */
  function EntryFromString(net: string): (e: RouteEntry)
    ensures e.network.And(e.netmask) == e.network
    ensures (e.network, e.netmask) == GetNetworkFromString(net)
    ensures e.destination == ParseAddress(At(Tokenise(net, "/", false), 0))
  {
    var r := GetNetworkFromString(net);
    RouteEntry(r.0, r.1, ParseAddress(At(Tokenise(net, "/", false), 0)))
  }

  /** An entry built from a network string matches its own destination and the addresses of its network. */
  lemma EntryFromStringMatches(net: string, ip: Address)
    ensures Compare(EntryFromString(net), EntryFromString(net).destination)
    ensures ip.And(GetNetworkFromString(net).1) == GetNetworkFromString(net).0 ==> Compare(EntryFromString(net), ip)
  {
  }

  /** The destination of an entry is the address before the slash, or the whole text when there is none. */
  lemma EntryDestination(t: string, rest: string)
    requires t != [] && rest != [] && '/' !in t && '/' !in rest
    ensures EntryFromString(t + "/" + rest).destination == ParseAddress(t)
    ensures EntryFromString(t).destination == ParseAddress(t)
  {
    TokensOfSlash(t, rest);
    NoSeparatorTokens(t, "/");
  }

  /** The index of the first interface whose address the route matches, or `|it|`. */
  function FirstMatchingInterface(e: RouteEntry, it: seq<Interface>): (i: nat)
    ensures i <= |it|
    ensures forall j :: 0 <= j < i ==> !Compare(e, it[j].address)
    ensures i < |it| ==> Compare(e, it[i].address)
  {
    if it == [] then 0
    else if Compare(e, it[0].address) then 0
    else 1 + FirstMatchingInterface(e, it[1..])
  }

  /** The index of the first interface with the given name, or `|it|`. */
  function FirstNamedInterface(name: string, it: seq<Interface>): (i: nat)
    ensures i <= |it|
    ensures forall j :: 0 <= j < i ==> it[j].name != name
    ensures i < |it| ==> it[i].name == name
  {
    if it == [] then 0
    else if it[0].name == name then 0
    else 1 + FirstNamedInterface(name, it[1..])
  }

  /**
   * The destination `RouteEntry(re, it)` settles on: the first interface
   * address the route matches, else the address of the first interface
   * named like the route's, else the route's own destination.
   */
  function RouteDestination(re: SystemRoute, it: seq<Interface>): Address {
    var e := RouteEntry(re.network, re.netmask, re.destination);
    var i := FirstMatchingInterface(e, it);
    if i < |it| then it[i].address
    else
      var k := FirstNamedInterface(re.interfaceName, it);
      if k < |it| then it[k].address else re.destination
  }

  /** `RouteEntry(re, it)`: the two searches through the interface table. */
  method EntryFromRoute(re: SystemRoute, it: seq<Interface>) returns (e: RouteEntry)
    ensures e == EntryOf(re, it)
  {
    e := RouteEntry(re.network, re.netmask, re.destination);
    ghost var e0 := e;
    var i := 0;
    while i < |it|
      invariant 0 <= i <= |it| && e == e0
      invariant forall j :: 0 <= j < i ==> !Compare(e0, it[j].address)
    {
      var ip := it[i].address;
      if Compare(e, ip) {
        assert FirstMatchingInterface(e0, it) == i;
        e := e.(destination := ip);
        return;
      }
      i := i + 1;
    }
    i := 0;
    while i < |it|
      invariant 0 <= i <= |it| && e == e0
      invariant forall j :: 0 <= j < i ==> it[j].name != re.interfaceName
    {
      if it[i].name == re.interfaceName {
        assert FirstNamedInterface(re.interfaceName, it) == i;
        e := e.(destination := it[i].address);
        return;
      }
      i := i + 1;
    }
  }

  /** The entry `RouteEntry(re, it)` builds. */
  function EntryOf(re: SystemRoute, it: seq<Interface>): RouteEntry {
    RouteEntry(re.network, re.netmask, RouteDestination(re, it))
  }

  /**
   * The entries `RouteTable::CreateTable` builds from the system's routes:
   * one for each route whose netmask is not 0.0.0.0, in order.
   */
  function CreatedEntries(rt: seq<SystemRoute>, it: seq<Interface>): (es: seq<RouteEntry>)
    ensures |es| <= |rt|
    ensures forall e :: e in es ==> e.netmask != INADDR_ANY
    ensures forall e :: e in es ==> exists r :: r in rt && r.netmask != INADDR_ANY && e == EntryOf(r, it)
  {
    if rt == [] then []
    else
      var init := CreatedEntries(rt[..|rt| - 1], it);
      var r := rt[|rt| - 1];
      assert forall q :: q in rt[..|rt| - 1] ==> q in rt;
      if r.netmask != INADDR_ANY then init + [EntryOf(r, it)] else init
  }

  /** Every system route with a netmask other than 0.0.0.0 gets its entry. */
  lemma {:induction false} CreatedEntriesComplete(rt: seq<SystemRoute>, it: seq<Interface>, r: SystemRoute)
    requires r in rt && r.netmask != INADDR_ANY
    ensures EntryOf(r, it) in CreatedEntries(rt, it)
  {
    if rt[|rt| - 1] != r {
      var init := rt[..|rt| - 1];
      assert rt == init + [rt[|rt| - 1]];
      assert r in init;
      CreatedEntriesComplete(init, it, r);
    }
  }

  /**
   * `RouteTable::CreateTable`, with what `PIPSocket::GetInterfaceTable` and
   * `PIPSocket::GetRouteTable` report as inputs (none when the call fails):
   * no table when either call fails.
   */
  method CreateTable(interfaces: Option<seq<Interface>>, routes: Option<seq<SystemRoute>>)
    returns (table: Option<seq<RouteEntry>>)
    ensures table == RealEntries(interfaces, routes)
  {
    if interfaces.None? || routes.None? {
      return None;
    }
    var it, rt := interfaces.value, routes.value;
    var es := [];
    for r := 0 to |rt|
      invariant es == CreatedEntries(rt[..r], it)
    {
      assert rt[..r + 1][..r] == rt[..r];
      if rt[r].netmask != INADDR_ANY {
        var e := EntryFromRoute(rt[r], it);
        es := es + [e];
      }
    }
    assert rt[..|rt|] == rt;
    return Some(es);
  }

  /** What `RouteTable::CreateTable` leaves: the entries, or none when the system tables cannot be read. */
  function RealEntries(interfaces: Option<seq<Interface>>, routes: Option<seq<SystemRoute>>): (r: Option<seq<RouteEntry>>)
    ensures r.Some? <==> interfaces.Some? && routes.Some?
  {
    if interfaces.Some? && routes.Some? then Some(CreatedEntries(routes.value, interfaces.value)) else None
  }

  /** The addresses of the interface table, in order. */
  function InterfaceAddresses(it: seq<Interface>): (r: seq<Address>)
    ensures |r| == |it|
    ensures forall i :: 0 <= i < |it| ==> r[i] == it[i].address
  {
    seq(|it|, i requires 0 <= i < |it| => it[i].address)
  }

  /** A route whose network holds an interface address gets that interface's address as destination. */
  lemma RouteOntoInterface(re: SystemRoute, it: seq<Interface>, j: nat)
    requires j < |it| && it[j].address.And(re.netmask) == re.network
    ensures exists k :: 0 <= k <= j && RouteDestination(re, it) == it[k].address
  {
    var e := RouteEntry(re.network, re.netmask, re.destination);
    assert Compare(e, it[j].address);
    var i := FirstMatchingInterface(e, it);
    assert i <= j;
  }

  /**
   * `Toolkit::RouteTable`: the entries (none when the table was never
   * created, `rtable_begin == 0`) and the default address.
   */
  datatype RouteTable = RouteTable(entries: Option<seq<RouteEntry>>, defAddr: Address) {
    /** `IsEmpty()`. */
    predicate IsEmpty() {
      entries.None?
    }

    /** The entries a lookup runs over. */
    function Entries(): seq<RouteEntry> {
      if entries.Some? then entries.value else []
    }
  }

  /** The index of the first entry that matches `addr`, or `|es|`: `find_if` with `Compare`. */
  function FirstMatchingEntry(es: seq<RouteEntry>, addr: Address): (i: nat)
    ensures i <= |es|
    ensures forall j :: 0 <= j < i ==> !Compare(es[j], addr)
    ensures i < |es| ==> Compare(es[i], addr)
  {
    if es == [] then 0
    else if Compare(es[0], addr) then 0
    else 1 + FirstMatchingEntry(es[1..], addr)
  }

  /** `RouteTable::GetLocalAddress(addr)`. */
  function GetLocalAddress(t: RouteTable, addr: Address): (r: Address)
    ensures r == t.defAddr || exists i :: 0 <= i < |t.Entries()| && Compare(t.Entries()[i], addr) && r == t.Entries()[i].destination
  {
    var es := t.Entries();
    var i := FirstMatchingEntry(es, addr);
    if i < |es| then es[i].destination else t.defAddr
  }

  /**
   * The local address for a peer is the destination of the first entry that
   * matches it; with no matching entry it is the default address.
   */
  lemma LocalAddressFirstMatch(t: RouteTable, addr: Address, i: nat)
    requires i < |t.Entries()| && Compare(t.Entries()[i], addr)
    requires forall j :: 0 <= j < i ==> !Compare(t.Entries()[j], addr)
    ensures GetLocalAddress(t, addr) == t.Entries()[i].destination
  {
    var f := FirstMatchingEntry(t.Entries(), addr);
    assert !(f < i);
    assert !(f > i);
  }

  /** With no entry matching the peer, the default address is used. */
  lemma LocalAddressDefault(t: RouteTable, addr: Address)
    requires forall j :: 0 <= j < |t.Entries()| ==> !Compare(t.Entries()[j], addr)
    ensures GetLocalAddress(t, addr) == t.defAddr
  {
    var f := FirstMatchingEntry(t.Entries(), addr);
    assert !(f < |t.Entries()|);
  }

  /**
   * `RouteTable::InitTable` given what the system supplies: the host
   * address, the table `CreateTable` builds (none when it fails) and the
   * default gateway. The default address becomes the local address towards
   * the gateway.
   */
  function InitTable(hostAddr: Address, created: Option<seq<RouteEntry>>, defGW: Address): (t: RouteTable)
    ensures t.entries == created
    ensures t.defAddr == hostAddr ||
      exists i :: 0 <= i < |t.Entries()| && Compare(t.Entries()[i], defGW) && t.defAddr == t.Entries()[i].destination
  {
    if created.None? then RouteTable(None, hostAddr)
    else
      var t := RouteTable(created, hostAddr);
      var r := RouteTable(created, GetLocalAddress(t, defGW));
      assert r.Entries() == t.Entries();
      r
  }

  /** The separators between the entries of `NetworkInterfaces`. */
  const NetworkInterfaceSeparators := " ,;\t"

  /** `VirtualRouteTable::CreateTable` with the `NetworkInterfaces` setting as input. */
  function VirtualEntries(nets: string): (r: Option<seq<RouteEntry>>)
    ensures nets == "" <==> r.None?
  {
    if nets == "" then None
    else
      var networks := Tokenise(nets, NetworkInterfaceSeparators, false);
      Some(seq(|networks|, i requires 0 <= i < |networks| => EntryFromString(networks[i])))
  }

  /** A non-empty `NetworkInterfaces` setting gives a table with at least one entry, one per listed network. */
  lemma VirtualEntriesShape(nets: string)
    requires nets != ""
    ensures var es := VirtualEntries(nets).value;
      var networks := Tokenise(nets, NetworkInterfaceSeparators, false);
      |es| == |networks| >= 1 &&
      forall i :: 0 <= i < |es| ==> es[i] == EntryFromString(networks[i])
  {
  }

  /**
   * `Toolkit::GetRouteTable(real)`, with `real` as `useReal`: the real table when asked for it or when
   * the virtual table is empty, the virtual table otherwise.
   */
  function GetRouteTable(useReal: bool, routeTable: RouteTable, virtualTable: RouteTable): (t: RouteTable)
    ensures t == routeTable || (t == virtualTable && !virtualTable.IsEmpty())
  {
    if useReal then routeTable else if virtualTable.IsEmpty() then routeTable else virtualTable
  }

  /**
   * With `NetworkInterfaces` set, the table used by default is the virtual
   * one, built from the configured networks.
   */
  lemma VirtualTableChosen(nets: string, routeTable: RouteTable, hostAddr: Address, defGW: Address)
    requires nets != ""
    ensures GetRouteTable(false, routeTable, InitTable(hostAddr, VirtualEntries(nets), defGW)).entries == VirtualEntries(nets)
    ensures GetRouteTable(true, routeTable, InitTable(hostAddr, VirtualEntries(nets), defGW)) == routeTable
  {
  }
}
