/**
 * `Toolkit::ProxyCriterion`: whether a call between two endpoints must go
 * through the H.323 proxy. The proxy is off unless `[Proxy] Enable` reads as
 * true; when it is on, `InternalNetwork` lists the internal networks, and a
 * call needs the proxy when no network is listed or when exactly one of the
 * two endpoints is internal.
 */
module Proxy {
  import opened PStrings
  import opened Addresses

  /** The separators between the networks of `InternalNetwork`. */
  const InternalNetworkSeparators := " ,;\t"

  /** The state `ProxyCriterion::LoadConfig` leaves: off (`size == -1`) or on with its networks. */
  datatype ProxyConfig = Disabled | Enabled(networks: seq<(Address, Address)>)

  /** The configuration the two settings describe. */
  function ConfigOf(enable: string, internalNetwork: string): ProxyConfig {
    if !AsBool(enable) then Disabled
    else
      Enabled(NetworksFrom(Tokenise(internalNetwork, InternalNetworkSeparators, false)))
  }

  /** The network/mask pair of each entry of `InternalNetwork`. */
  function NetworksFrom(nets: seq<string>): (r: seq<(Address, Address)>)
    ensures |r| == |nets|
    ensures forall i :: 0 <= i < |nets| ==> r[i] == GetNetworkFromString(nets[i])
  {
    seq(|nets|, i requires 0 <= i < |nets| => GetNetworkFromString(nets[i]))
  }

  /** `(ip & netmask[i]) == network[i]`. */
  predicate InNetwork(ip: Address, net: (Address, Address)) {
    ip.And(net.1) == net.0
  }

  /** The address lies in one of the networks. */
  predicate Internal(networks: seq<(Address, Address)>, ip: Address) {
    exists i :: 0 <= i < |networks| && InNetwork(ip, networks[i])
  }

  /** The networks the search runs over: none when the proxy is off. */
  function NetworksOf(c: ProxyConfig): seq<(Address, Address)> {
    match c
    case Disabled => []
    case Enabled(nets) => nets
  }

  /** `ProxyCriterion::Required` on a configuration. */
  predicate ProxyRequired(c: ProxyConfig, ip1: Address, ip2: Address) {
    match c
    case Disabled => false
    case Enabled(nets) => nets == [] || Internal(nets, ip1) != Internal(nets, ip2)
  }

  class ProxyCriterion {
    /** -1 when the proxy is off, otherwise the number of internal networks. */
    var size: int
    /** `network`: the networks in `[0, size)` and, from `netmask = network + size`, their masks. */
    var network: array?<Address>

    ghost predicate Valid()
      reads this
    {
      && size >= -1
      && (size <= 0 ==> network == null)
      && (size > 0 ==> network != null && network.Length == 2 * size)
    }

    /** The configuration the fields hold. */
    ghost function Config(): ProxyConfig
      reads this, network
      requires Valid()
    {
      if size < 0 then Disabled
      else if size == 0 then Enabled([])
      else
        var table, n := network, size;
        Enabled(seq(n, i reads table requires 0 <= i < n && table.Length == 2 * n =>
          (table[i], table[n + i])))
    }

    /** `ProxyCriterion() : network(0)`; `size` is not set there, and is 0 here. */
    constructor ()
      ensures Valid() && Config() == Enabled([])
    {
      size, network := 0, null;
    }

    /** `ProxyCriterion::ClearTable`. */
    method ClearTable()
      modifies this
      ensures size == 0 && network == null
    {
      size := 0;
      network := null;
    }

    /** `ProxyCriterion::LoadConfig`, with the `Enable` and `InternalNetwork` settings as inputs. */
    method LoadConfig(enable: string, internalNetwork: string)
      modifies this
      ensures Valid() && Config() == ConfigOf(enable, internalNetwork)
      ensures network != null ==> fresh(network)
    {
      ClearTable();
      if !AsBool(enable) {
        size := -1;
        return;
      }
      var networks := Tokenise(internalNetwork, InternalNetworkSeparators, false);
      size := |networks|;
      if size == 0 {
        // on, with an empty network list: every call needs the proxy
        return;
      }
      var table := FillTable(networks);
      network := table;
      ghost var c := ConfigOf(enable, internalNetwork);
      assert c.networks == NetworksFrom(networks);
      assert forall j :: 0 <= j < size ==> Config().networks[j] == c.networks[j];
    }

    /** The loop of `LoadConfig` that fills the networks and, after them, their masks. */
    static method FillTable(networks: seq<string>) returns (table: array<Address>)
      ensures fresh(table) && table.Length == 2 * |networks|
      ensures forall j :: 0 <= j < |networks| ==>
        (table[j], table[|networks| + j]) == GetNetworkFromString(networks[j])
    {
      var size := |networks|;
      table := new Address[size * 2];
      for i := 0 to size
        invariant forall j :: 0 <= j < i ==> (table[j], table[size + j]) == GetNetworkFromString(networks[j])
      {
        var r := GetNetworkFromString(networks[i]);
        table[i], table[size + i] := r.0, r.1;
      }
    }

    /** `ProxyCriterion::IsInternal`: the search through the networks. */
    method IsInternal(ip: Address) returns (r: bool)
      requires Valid()
      ensures r <==> Internal(NetworksOf(Config()), ip)
    {
      var n := if size > 0 then size else 0;
      ghost var nets := NetworksOf(Config());
      for i := 0 to n
        invariant forall j :: 0 <= j < i ==> !InNetwork(ip, nets[j])
      {
        if ip.And(network[size + i]) == network[i] {
          assert InNetwork(ip, nets[i]);
          return true;
        }
      }
      return false;
    }

    /** `ProxyCriterion::Required`. */
    method Required(ip1: Address, ip2: Address) returns (r: bool)
      requires Valid()
      ensures r == ProxyRequired(Config(), ip1, ip2)
    {
      if size >= 0 {
        if size == 0 {
          return true;
        }
        var in1 := IsInternal(ip1);
        var in2 := IsInternal(ip2);
        return in1 != in2;
      }
      return false;
    }
  }

  // ---- what the criterion promises ----------------------------------------

  /**
   * Off, the proxy is never required; on with no internal network it always
   * is; otherwise it is required exactly when one endpoint is internal and
   * the other is not, whichever way round.
   */
  lemma RequiredCases(c: ProxyConfig, ip1: Address, ip2: Address)
    ensures c == Disabled ==> !ProxyRequired(c, ip1, ip2)
    ensures c == Enabled([]) ==> ProxyRequired(c, ip1, ip2)
    ensures c.Enabled? && c.networks != [] ==>
      (ProxyRequired(c, ip1, ip2) <==>
        (Internal(c.networks, ip1) && !Internal(c.networks, ip2)) ||
        (!Internal(c.networks, ip1) && Internal(c.networks, ip2)))
    ensures ProxyRequired(c, ip1, ip2) == ProxyRequired(c, ip2, ip1)
  {
  }

  /** A value `AsBool` reads as false switches the proxy off. */
  lemma DisabledUnlessEnabled(enable: string, internalNetwork: string)
    requires !AsBool(enable)
    ensures forall ip1, ip2 :: !ProxyRequired(ConfigOf(enable, internalNetwork), ip1, ip2)
  {
  }

  /** Switched on with an empty `InternalNetwork`, every call goes through the proxy. */
  lemma NoInternalNetworks(enable: string)
    requires AsBool(enable)
    ensures ConfigOf(enable, "") == Enabled([])
  {
    assert |Tokenise("", InternalNetworkSeparators, false)| == 0;
  }

  /** The setting `ALL` is the one network 0.0.0.0/0.0.0.0. */
  lemma AllNetwork(enable: string)
    requires AsBool(enable)
    ensures ConfigOf(enable, "ALL") == Enabled([(INADDR_ANY, INADDR_ANY)])
  {
    NoSeparatorTokens("ALL", InternalNetworkSeparators);
    assert EqualsIgnoreCase("ALL", "ALL");
    SingleNetwork(enable, "ALL");
  }

  /** Every address lies in the network `ALL`, so with only that network no call needs the proxy. */
  lemma AllIsInternal(enable: string, ip1: Address, ip2: Address)
    requires AsBool(enable)
    ensures !ProxyRequired(ConfigOf(enable, "ALL"), ip1, ip2)
  {
    AllNetwork(enable);
    assert InNetwork(ip1, (INADDR_ANY, INADDR_ANY)) && InNetwork(ip2, (INADDR_ANY, INADDR_ANY));
  }

  /** A network always contains its own network address. */
  lemma NetworkContainsItself(cfg: string)
    ensures InNetwork(GetNetworkFromString(cfg).0, GetNetworkFromString(cfg))
  {
  }

  /** A setting that is a single token describes a single network. */
  lemma SingleNetwork(enable: string, t: string)
    requires AsBool(enable)
    requires Tokenise(t, InternalNetworkSeparators, false) == [t]
    ensures ConfigOf(enable, t) == Enabled([GetNetworkFromString(t)])
  {
    assert NetworksFrom([t]) == [GetNetworkFromString(t)];
  }

  /** A bare address as the only internal network makes exactly that host internal. */
  lemma SingleHostInternal(enable: string, a: Address, ip: Address)
    requires AsBool(enable)
    ensures ConfigOf(enable, AddressText(a)) == Enabled([(a, ALL_ONES)])
    ensures Internal(ConfigOf(enable, AddressText(a)).networks, ip) <==> ip == a
  {
    assert ConfigOf(enable, AddressText(a)) == Enabled([(a, ALL_ONES)]) by {
      HostString(a, InternalNetworkSeparators);
      SingleNetwork(enable, AddressText(a));
    }
    HostNetwork(a, ip);
  }

  /** Under an all-ones mask a network holds its own address only. */
  lemma HostNetwork(a: Address, ip: Address)
    ensures Internal([(a, ALL_ONES)], ip) <==> ip == a
  {
    assert ip.And(ALL_ONES) == ip;
    assert [(a, ALL_ONES)][0] == (a, ALL_ONES);
  }
}
