/**
 * `Toolkit` itself: the gatekeeper's configuration-driven helpers put
 * together. It owns the two route tables, the proxy criterion, the number
 * rewriting and the per-gateway rewriting, the home interface list and the
 * accounting session counter, and offers the static helper
 * `GetInternalExtensionCode`.
 *
 * The configuration file and the operating system are inputs: the settings
 * `ReloadConfig` reads are a `Settings` value, and what the system reports
 * (host address, interface table, route table, default gateway) a `Host`.
 */
module ToolkitCore {
  import opened PStrings
  import opened Addresses
  import opened Rewriting
  import opened GWRewrite
  import opened Proxy
  import opened Routes
  import opened GKHome

  // ---- internal extension codes -------------------------------------------

  /** Internal extension code for an unknown triple (country, extension, manufacturer). */
  const IEC_UNKNOWN: int := -1
  /** Internal extension code for "this RQ is a failover RQ". */
  const IEC_FAILOVER_RAS: int := 1
  /** The first internal extension code the Toolkit leaves unused. */
  const IEC_USERBASE: int := 1000

  /** T.35 country code of the "Open Source Organisation". */
  const T35C_OPEN_ORG: nat := 255
  /** T.35 manufacturer code of the "Open Source Organisation". */
  const T35M_OPEN_ORG: nat := 4242
  /** T.35 extension for failover RAS. */
  const T35E_FAILOVER_RAS: nat := 255

  /** `H225_H221NonStandard`: the triple a non-standard parameter is identified by. */
  datatype H221NonStandard = H221NonStandard(t35CountryCode: nat, t35Extension: nat, manufacturerCode: nat)

  /** `Toolkit::GetInternalExtensionCode(country, extension, manufacturer)`: the nested switches. */
  function GetInternalExtensionCode(country: nat, extension: nat, manufacturer: nat): (code: int)
    ensures code == IEC_FAILOVER_RAS <==>
      country == T35C_OPEN_ORG && extension == T35E_FAILOVER_RAS && manufacturer == T35M_OPEN_ORG
    ensures code != IEC_FAILOVER_RAS ==> code == IEC_UNKNOWN
    ensures code < IEC_USERBASE
  {
    if country == T35C_OPEN_ORG then
      if manufacturer == T35M_OPEN_ORG then
        if extension == T35E_FAILOVER_RAS then IEC_FAILOVER_RAS
        else IEC_UNKNOWN
      else IEC_UNKNOWN
    else IEC_UNKNOWN
  }

  /** `Toolkit::GetInternalExtensionCode(data)`: the triple read from the structure. */
  function GetInternalExtensionCodeOf(data: H221NonStandard): (code: int)
    ensures code == IEC_FAILOVER_RAS <==> data == H221NonStandard(255, 255, 4242)
    ensures code == IEC_FAILOVER_RAS || code == IEC_UNKNOWN
  {
    GetInternalExtensionCode(data.t35CountryCode, data.t35Extension, data.manufacturerCode)
  }

  // ---- aliases -------------------------------------------------------------

  /** The choices of `H225_AliasAddress`. */
  datatype AliasTag = DialedDigits | H323Id | UrlId | TransportId | EmailId | PartyNumber | MobileUim

  /** An alias: its choice and its text. */
  datatype Alias = Alias(tag: AliasTag, value: string)

  /**
   * `RewriteE164(alias)` given the rewrite settings: only a dialed-digits
   * alias is rewritten, and it takes the new number only when the rewrite
   * reports a change.
   */
  function RewrittenAlias(fastmatch: string, trailing: char, rules: seq<Rule>, alias: Alias, pick: nat): (r: (Alias, bool))
    ensures r.0.tag == alias.tag
    ensures !r.1 ==> r.0 == alias
    ensures alias.tag != DialedDigits ==> r == (alias, false)
  {
    if alias.tag != DialedDigits then (alias, false)
    else
      var (e164, changed) := Rewritten(fastmatch, trailing, rules, alias.value, pick);
      if changed then (Alias(alias.tag, e164), true) else (alias, false)
  }

  /** `GWRewriteE164(gw, direction, alias)` given the per-gateway table. */
  function GWRewrittenAlias(table: map<string, GWRewriteEntry>, gw: string, direction: bool, alias: Alias): (r: (Alias, bool))
    ensures r.0.tag == alias.tag
    ensures !r.1 ==> r.0 == alias
    ensures r.1 <==> alias.tag == DialedDigits && gw in table
  {
    if alias.tag != DialedDigits then (alias, false)
    else if gw in table then (Alias(alias.tag, GWRewritten(table[gw], direction, alias.value)), true)
    else (alias, false)
  }

  /** A dialed-digits alias comes out rewritten exactly as its number is. */
  lemma RewrittenAliasNumber(fastmatch: string, trailing: char, rules: seq<Rule>, alias: Alias, pick: nat)
    requires alias.tag == DialedDigits
    ensures RewrittenAlias(fastmatch, trailing, rules, alias, pick) ==
      (Alias(DialedDigits, Rewritten(fastmatch, trailing, rules, alias.value, pick).0),
       Rewritten(fastmatch, trailing, rules, alias.value, pick).1)
  {
    UnchangedMeansSame(fastmatch, trailing, rules, alias.value, pick);
  }

  /** "Maybe modifies alias, returns true if it did": an alias that changed is reported. */
  lemma AliasChangeReported(fastmatch: string, trailing: char, rules: seq<Rule>, alias: Alias, pick: nat)
    ensures RewrittenAlias(fastmatch, trailing, rules, alias, pick).0 != alias ==>
      RewrittenAlias(fastmatch, trailing, rules, alias, pick).1
  {
  }

  /** `RewriteE164(aliases)` on a list: each alias rewritten with its own pick; true when any was. */
  function RewrittenAliases(fastmatch: string, trailing: char, rules: seq<Rule>, aliases: seq<Alias>, picks: seq<nat>): (r: (seq<Alias>, bool))
    requires |picks| == |aliases|
    ensures |r.0| == |aliases|
    ensures forall n :: 0 <= n < |aliases| ==> r.0[n] == RewrittenAlias(fastmatch, trailing, rules, aliases[n], picks[n]).0
  {
    if aliases == [] then ([], false)
    else
      var k := |aliases| - 1;
      var init := RewrittenAliases(fastmatch, trailing, rules, aliases[..k], picks[..k]);
      var last := RewrittenAlias(fastmatch, trailing, rules, aliases[k], picks[k]);
      (init.0 + [last.0], init.1 || last.1)
  }

  /** The list form reports a change exactly when one of its aliases does. */
  lemma {:induction false} RewrittenAliasesChanged(fastmatch: string, trailing: char, rules: seq<Rule>, aliases: seq<Alias>, picks: seq<nat>)
    requires |picks| == |aliases|
    ensures RewrittenAliases(fastmatch, trailing, rules, aliases, picks).1 <==>
      (exists n :: 0 <= n < |aliases| && RewrittenAlias(fastmatch, trailing, rules, aliases[n], picks[n]).1)
  {
    if aliases != [] {
      var k := |aliases| - 1;
      RewrittenAliasesChanged(fastmatch, trailing, rules, aliases[..k], picks[..k]);
      if RewrittenAliases(fastmatch, trailing, rules, aliases[..k], picks[..k]).1 {
        var n :| 0 <= n < k && RewrittenAlias(fastmatch, trailing, rules, aliases[..k][n], picks[..k][n]).1;
        assert aliases[..k][n] == aliases[n] && picks[..k][n] == picks[n];
      }
    }
  }

  /** A list and a flag are the list form's result exactly when they agree with it alias by alias. */
  lemma RewrittenAliasesByElement(fastmatch: string, trailing: char, rules: seq<Rule>, aliases: seq<Alias>, picks: seq<nat>,
                                  result: seq<Alias>, changed: bool)
    requires |picks| == |aliases| && |result| == |aliases|
    requires forall j :: 0 <= j < |aliases| ==> result[j] == RewrittenAlias(fastmatch, trailing, rules, aliases[j], picks[j]).0
    requires changed <==> exists j :: 0 <= j < |aliases| && RewrittenAlias(fastmatch, trailing, rules, aliases[j], picks[j]).1
    ensures (result, changed) == RewrittenAliases(fastmatch, trailing, rules, aliases, picks)
  {
    RewrittenAliasesChanged(fastmatch, trailing, rules, aliases, picks);
    assert result == RewrittenAliases(fastmatch, trailing, rules, aliases, picks).0;
  }

  /** `GWRewriteE164(gw, direction, aliases)` on a list: each alias rewritten; true when any was. */
  function GWRewrittenAliases(table: map<string, GWRewriteEntry>, gw: string, direction: bool, aliases: seq<Alias>): (r: (seq<Alias>, bool))
    ensures |r.0| == |aliases|
    ensures forall n :: 0 <= n < |aliases| ==> r.0[n] == GWRewrittenAlias(table, gw, direction, aliases[n]).0
  {
    if aliases == [] then ([], false)
    else
      var k := |aliases| - 1;
      var init := GWRewrittenAliases(table, gw, direction, aliases[..k]);
      var last := GWRewrittenAlias(table, gw, direction, aliases[k]);
      (init.0 + [last.0], init.1 || last.1)
  }

  /**
   * The list form reports a change exactly when one of its aliases does,
   * which is when the gateway is known and some alias is dialed digits.
   */
  lemma {:induction false} GWRewrittenAliasesChanged(table: map<string, GWRewriteEntry>, gw: string, direction: bool, aliases: seq<Alias>)
    ensures GWRewrittenAliases(table, gw, direction, aliases).1 <==>
      gw in table && exists n :: 0 <= n < |aliases| && aliases[n].tag == DialedDigits
  {
    if aliases != [] {
      var k := |aliases| - 1;
      var init := aliases[..k];
      GWRewrittenAliasesChanged(table, gw, direction, init);
      assert GWRewrittenAliases(table, gw, direction, aliases).1 ==
        (GWRewrittenAliases(table, gw, direction, init).1 || GWRewrittenAlias(table, gw, direction, aliases[k]).1);
      assert forall n :: 0 <= n < k ==> init[n] == aliases[n];
    }
  }

  /** A list and a flag are the per-gateway list form's result exactly when they agree with it alias by alias. */
  lemma GWRewrittenAliasesByElement(table: map<string, GWRewriteEntry>, gw: string, direction: bool, aliases: seq<Alias>,
                                    result: seq<Alias>, changed: bool)
    requires |result| == |aliases|
    requires forall j :: 0 <= j < |aliases| ==> result[j] == GWRewrittenAlias(table, gw, direction, aliases[j]).0
    requires changed <==> exists j :: 0 <= j < |aliases| && GWRewrittenAlias(table, gw, direction, aliases[j]).1
    ensures (result, changed) == GWRewrittenAliases(table, gw, direction, aliases)
  {
    GWRewrittenAliasesChanged(table, gw, direction, aliases);
    assert result == GWRewrittenAliases(table, gw, direction, aliases).0;
  }

  // ---- the configuration and the system, as inputs ------------------------

  /** The settings `ReloadConfig` passes on. */
  datatype Settings = Settings(
    proxyEnable: string,                        // [Proxy] Enable
    internalNetwork: string,                    // [Proxy] InternalNetwork
    fastmatch: string,                          // [RasSrv::RewriteE164] Fastmatch
    removeTrailingChar: string,                 // [RasSrv::ARQFeatures] RemoveTrailingChar, " " when absent
    rewriteRules: seq<(string, string)>,        // [RasSrv::RewriteE164]
    gwRewriteRules: seq<(string, string)>,      // [RasSrv::GWRewriteE164]
    networkInterfaces: string,                  // NetworkInterfaces
    home: string,                               // Home
    name: Option<string>)                       // Name, when it is set

  /** The gatekeeper name used when `Name` is not set. */
  const DefaultGKName := "GNU Gatekeeper"

  /** `GetString("Name", "GNU Gatekeeper")`: the setting when present, otherwise the default. */
  function GKNameOf(name: Option<string>): (r: string)
    ensures name.Some? ==> r == name.value
    ensures name.None? ==> r == DefaultGKName
  {
    if name.Some? then name.value else DefaultGKName
  }

  /** What the operating system reports. */
  datatype Host = Host(
    hostAddr: Address,                          // PIPSocket::GetHostAddress
    interfaces: Option<seq<Interface>>,         // PIPSocket::GetInterfaceTable, when it succeeds
    routes: Option<seq<SystemRoute>>,           // PIPSocket::GetRouteTable, when it succeeds
    defGW: Address)                             // PIPSocket::GetGatewayAddress

  /** The interface addresses `SetGKHome` checks against, when the interface table can be read. */
  function HomeInterfaces(interfaces: Option<seq<Interface>>): (r: Option<seq<Address>>)
    ensures r.Some? <==> interfaces.Some?
    ensures r.Some? ==> r.value == InterfaceAddresses(interfaces.value)
  {
    if interfaces.Some? then Some(InterfaceAddresses(interfaces.value)) else None
  }

  class Toolkit {
    /** `m_RouteTable`. */
    var routeTable: RouteTable
    /** `m_VirtualRouteTable`. */
    var virtualRouteTable: RouteTable
    /** `m_ProxyCriterion`. */
    const proxyCriterion: ProxyCriterion
    /** `m_Rewrite`. */
    const rewrite: RewriteTool
    /** `m_GWRewrite`. */
    const gwRewrite: GWRewriteTool
    /** `m_GKHome`. */
    var gkHome: seq<Address>
    /** `m_GKName`: empty until the first `ReloadConfig`. */
    var gkName: string
    /** `m_acctSessionCounter`: incremented for each generated session id. */
    var acctSessionCounter: int
    /** `m_acctSessionBase`: the start time of this run. */
    var acctSessionBase: int
    /** The session ids handed out so far. */
    ghost var issued: set<(int, int)>

    /** Every session id handed out has this run's base and a counter value already used. */
    ghost predicate SessionsValid()
      reads this
    {
      acctSessionCounter >= 0 &&
      forall id :: id in issued ==> id.0 == acctSessionBase && 1 <= id.1 <= acctSessionCounter
    }

    /** `Toolkit()`, with `time(NULL)` as `now`. */
    constructor (now: int)
      ensures SessionsValid() && acctSessionBase == now && acctSessionCounter == 0
      ensures gkHome == [] && gkName == "" && routeTable.IsEmpty() && virtualRouteTable.IsEmpty()
      ensures rewrite.data == null && gwRewrite.gwRewrite == map[]
      ensures proxyCriterion.Valid() && proxyCriterion.Config() == Enabled([])
    {
      routeTable := RouteTable(None, INADDR_ANY);
      virtualRouteTable := RouteTable(None, INADDR_ANY);
      proxyCriterion := new ProxyCriterion();
      rewrite := new RewriteTool();
      gwRewrite := new GWRewriteTool();
      gkHome := [];
      gkName := "";
      acctSessionBase := now;
      acctSessionCounter := 0;
      issued := {};
    }

    /** `Toolkit::ProxyRequired`: the proxy criterion's answer. */
    method ProxyRequired(ip1: Address, ip2: Address) returns (r: bool)
      requires proxyCriterion.Valid()
      ensures r == Proxy.ProxyRequired(proxyCriterion.Config(), ip1, ip2)
    {
      r := proxyCriterion.Required(ip1, ip2);
    }

    /** `Toolkit::RewritePString`: the rewrite tool's answer. */
    method RewritePString(s: string, pick: nat) returns (t: string, changed: bool)
      requires rewrite.Loaded()
      ensures (t, changed) == Rewritten(rewrite.fastmatch, rewrite.trailingChar, rewrite.data.Rules(), s, pick)
    {
      t, changed := rewrite.RewritePString(s, pick);
    }

    /** `Toolkit::GWRewritePString`: the per-gateway rewrite's answer. */
    method GWRewritePString(gw: string, direction: bool, data: string) returns (changed: bool, result: string)
      ensures changed <==> gw in gwRewrite.gwRewrite
      ensures result == if changed then GWRewritten(gwRewrite.gwRewrite[gw], direction, data) else data
    {
      changed, result := gwRewrite.RewritePString(gw, direction, data);
    }

    /** `Toolkit::RewriteE164(alias)`. */
    method RewriteE164(alias: Alias, pick: nat) returns (result: Alias, changed: bool)
      requires rewrite.Loaded()
      ensures (result, changed) ==
        RewrittenAlias(rewrite.fastmatch, rewrite.trailingChar, rewrite.data.Rules(), alias, pick)
    {
      if alias.tag != DialedDigits {
        return alias, false;
      }
      var e164 := alias.value;
      e164, changed := RewritePString(e164, pick);
      result := if changed then Alias(alias.tag, e164) else alias;
    }

    /**
     * `Toolkit::RewriteE164(aliases)`: every alias rewritten in place, `picks[n]`
     * standing for the random choice made for the `n`-th; true when any was.
     */
    method RewriteE164Array(aliases: array<Alias>, picks: seq<nat>) returns (changed: bool)
      requires rewrite.Loaded() && |picks| == aliases.Length
      modifies aliases
      ensures (aliases[..], changed) ==
        RewrittenAliases(rewrite.fastmatch, rewrite.trailingChar, rewrite.data.Rules(), old(aliases[..]), picks)
    {
      ghost var fm, tr, rules := rewrite.fastmatch, rewrite.trailingChar, rewrite.data.Rules();
      ghost var orig := aliases[..];
      changed := false;
      for n := 0 to aliases.Length
        invariant rewrite.Loaded() && rewrite.fastmatch == fm && rewrite.trailingChar == tr && rewrite.data.Rules() == rules
        invariant forall j :: 0 <= j < n ==> aliases[j] == RewrittenAlias(fm, tr, rules, orig[j], picks[j]).0
        invariant forall j :: n <= j < aliases.Length ==> aliases[j] == orig[j]
        invariant changed <==> exists j :: 0 <= j < n && RewrittenAlias(fm, tr, rules, orig[j], picks[j]).1
      {
        var c := RewriteAt(aliases, n, picks[n]);
        changed := changed || c;
      }
      RewrittenAliasesByElement(fm, tr, rules, orig, picks, aliases[..], changed);
    }

    /** One step of the loop above: the `n`-th alias rewritten in place. */
    method RewriteAt(aliases: array<Alias>, n: nat, pick: nat) returns (changed: bool)
      requires rewrite.Loaded() && n < aliases.Length
      modifies aliases
      ensures aliases[n] ==
        RewrittenAlias(rewrite.fastmatch, rewrite.trailingChar, rewrite.data.Rules(), old(aliases[n]), pick).0
      ensures changed ==
        RewrittenAlias(rewrite.fastmatch, rewrite.trailingChar, rewrite.data.Rules(), old(aliases[n]), pick).1
      ensures forall j :: 0 <= j < aliases.Length && j != n ==> aliases[j] == old(aliases[j])
    {
      var a, c := RewriteE164(aliases[n], pick);
      aliases[n] := a;
      changed := c;
    }

    /** `Toolkit::GWRewriteE164(gw, direction, alias)`. */
    method GWRewriteE164(gw: string, direction: bool, alias: Alias) returns (result: Alias, changed: bool)
      ensures (result, changed) == GWRewrittenAlias(gwRewrite.gwRewrite, gw, direction, alias)
    {
      if alias.tag != DialedDigits {
        return alias, false;
      }
      var e164 := alias.value;
      changed, e164 := GWRewritePString(gw, direction, e164);
      result := if changed then Alias(alias.tag, e164) else alias;
    }

    /** `Toolkit::GWRewriteE164(gw, direction, aliases)`: every alias rewritten in place; true when any was. */
    method GWRewriteE164Array(gw: string, direction: bool, aliases: array<Alias>) returns (changed: bool)
      modifies aliases
      ensures (aliases[..], changed) == GWRewrittenAliases(gwRewrite.gwRewrite, gw, direction, old(aliases[..]))
    {
      ghost var table := gwRewrite.gwRewrite;
      ghost var orig := aliases[..];
      changed := false;
      for n := 0 to aliases.Length
        invariant forall j :: 0 <= j < n ==> aliases[j] == GWRewrittenAlias(table, gw, direction, orig[j]).0
        invariant forall j :: n <= j < aliases.Length ==> aliases[j] == orig[j]
        invariant changed <==> exists j :: 0 <= j < n && GWRewrittenAlias(table, gw, direction, orig[j]).1
      {
        var c := GWRewriteAt(gw, direction, aliases, n);
        changed := changed || c;
      }
      GWRewrittenAliasesByElement(table, gw, direction, orig, aliases[..], changed);
    }

    /** One step of the loop above: the `n`-th alias rewritten in place. */
    method GWRewriteAt(gw: string, direction: bool, aliases: array<Alias>, n: nat) returns (changed: bool)
      requires n < aliases.Length
      modifies aliases
      ensures aliases[n] == GWRewrittenAlias(gwRewrite.gwRewrite, gw, direction, old(aliases[n])).0
      ensures changed == GWRewrittenAlias(gwRewrite.gwRewrite, gw, direction, old(aliases[n])).1
      ensures forall j :: 0 <= j < aliases.Length && j != n ==> aliases[j] == old(aliases[j])
    {
      var a, c := GWRewriteE164(gw, direction, aliases[n]);
      aliases[n] := a;
      changed := c;
    }

    /** `Toolkit::GetRouteTable(real)`, with `real` as `useReal`. */
    method GetRouteTable(useReal: bool) returns (t: RouteTable)
      ensures t == Routes.GetRouteTable(useReal, routeTable, virtualRouteTable)
    {
      t := if useReal then routeTable else if virtualRouteTable.IsEmpty() then routeTable else virtualRouteTable;
    }

    /**
     * `Toolkit::SetGKHome`, with the addresses of the interface table (none
     * when it cannot be read) as `interfaces`.
     */
    method SetGKHome(home: seq<string>, interfaces: Option<seq<Address>>)
      modifies this
      ensures gkHome == HomeList(home, interfaces, routeTable.defAddr) && gkName == old(gkName)
      ensures routeTable == old(routeTable) && virtualRouteTable == old(virtualRouteTable)
      ensures acctSessionCounter == old(acctSessionCounter) && acctSessionBase == old(acctSessionBase)
      ensures issued == old(issued)
    {
      var v := PushAll(home);
      var size := |home|;
      assert v[..size] == v;
      if interfaces.Some? {
        v, size := CheckInterfaces(v, interfaces.value);
      }
      // each address once, first occurrence kept
      v, size := DropDuplicates(v, size);
      v := v[..size];
      // the default local address, when listed, moves to the front
      v := PutDefaultFirst(v, routeTable.defAddr);
      gkHome := v;
    }

    /** `Toolkit::GetGKHome`: the list, and its addresses' texts separated by commas. */
    method GetGKHome() returns (text: string, homes: seq<Address>)
      ensures homes == gkHome
      ensures text == HomeText(gkHome)
    {
      homes := gkHome;
      text := "";
      ghost var texts := AddressTexts(homes);
      var hsize := |homes|;
      for i := 0 to hsize
        invariant text == Join(texts[..i], ',') + (if 0 < i < hsize then "," else "")
      {
        JoinStep(texts, i, ',');
        text := text + AddressText(homes[i]);
        if i < hsize - 1 {
          text := text + ",";
        }
      }
      assert texts[..hsize] == texts;
    }

    /** The home part of `ReloadConfig`: set the list when it is empty or when `Home` is set. */
    method ReloadHome(setting: string, interfaces: Option<seq<Address>>)
      modifies this
      ensures gkHome == if old(gkHome) == [] || setting != ""
        then HomeList(Tokenise(setting, HomeSeparators, false), interfaces, routeTable.defAddr)
        else old(gkHome)
      ensures gkName == old(gkName)
      ensures routeTable == old(routeTable) && virtualRouteTable == old(virtualRouteTable)
      ensures acctSessionCounter == old(acctSessionCounter) && acctSessionBase == old(acctSessionBase)
      ensures issued == old(issued)
    {
      if gkHome == [] || setting != "" {
        SetGKHome(Tokenise(setting, HomeSeparators, false), interfaces);
      }
    }

    /**
     * `Toolkit::ReloadConfig` once the configuration is read: the route
     * tables are built again, the proxy criterion and both rewrite tools
     * load their settings, the home list is set again when it is empty
     * or `Home` is set, and the gatekeeper name is read.
     */
    method ReloadConfig(cfg: Settings, host: Host)
      modifies this, proxyCriterion, rewrite, gwRewrite
      ensures routeTable == InitTable(host.hostAddr, RealEntries(host.interfaces, host.routes), host.defGW)
      ensures virtualRouteTable == InitTable(host.hostAddr, VirtualEntries(cfg.networkInterfaces), host.defGW)
      ensures proxyCriterion.Valid() && proxyCriterion.Config() == ConfigOf(cfg.proxyEnable, cfg.internalNetwork)
      ensures rewrite.Loaded() && rewrite.fastmatch == cfg.fastmatch
      ensures rewrite.trailingChar == if cfg.removeTrailingChar == "" then '\0' else cfg.removeTrailingChar[0]
      ensures rewrite.data.source == CollectRules(cfg.rewriteRules)
      ensures gwRewrite.gwRewrite == GatewayTable(cfg.gwRewriteRules)
      ensures gkHome == if old(gkHome) == [] || cfg.home != ""
        then HomeList(Tokenise(cfg.home, HomeSeparators, false), HomeInterfaces(host.interfaces), routeTable.defAddr)
        else old(gkHome)
      ensures gkName == GKNameOf(cfg.name)
      ensures acctSessionCounter == old(acctSessionCounter) && acctSessionBase == old(acctSessionBase)
      ensures issued == old(issued)
    {
      ReloadRouteTables(host, cfg.networkInterfaces);
      LoadTools(cfg);
      ReloadHome(cfg.home, HomeInterfaces(host.interfaces));
      gkName := GKNameOf(cfg.name);
    }

    /** The first part of `ReloadConfig`: both route tables built again. */
    method ReloadRouteTables(host: Host, networkInterfaces: string)
      modifies this
      ensures routeTable == InitTable(host.hostAddr, RealEntries(host.interfaces, host.routes), host.defGW)
      ensures virtualRouteTable == InitTable(host.hostAddr, VirtualEntries(networkInterfaces), host.defGW)
      ensures gkHome == old(gkHome) && gkName == old(gkName) && issued == old(issued)
      ensures acctSessionCounter == old(acctSessionCounter) && acctSessionBase == old(acctSessionBase)
    {
      var created := CreateTable(host.interfaces, host.routes);
      routeTable := InitTable(host.hostAddr, created, host.defGW);
      virtualRouteTable := InitTable(host.hostAddr, VirtualEntries(networkInterfaces), host.defGW);
    }

    /** The middle part of `ReloadConfig`: the proxy criterion and both rewrite tools load their settings. */
    method LoadTools(cfg: Settings)
      modifies proxyCriterion, rewrite, gwRewrite
      ensures proxyCriterion.Valid() && proxyCriterion.Config() == ConfigOf(cfg.proxyEnable, cfg.internalNetwork)
      ensures rewrite.Loaded() && rewrite.fastmatch == cfg.fastmatch
      ensures rewrite.trailingChar == if cfg.removeTrailingChar == "" then '\0' else cfg.removeTrailingChar[0]
      ensures rewrite.data.source == CollectRules(cfg.rewriteRules)
      ensures gwRewrite.gwRewrite == GatewayTable(cfg.gwRewriteRules)
    {
      proxyCriterion.LoadConfig(cfg.proxyEnable, cfg.internalNetwork);
      rewrite.LoadConfig(cfg.fastmatch, cfg.removeTrailingChar, cfg.rewriteRules);
      gwRewrite.LoadConfig(cfg.gwRewriteRules);
    }

    /**
     * `Toolkit::GenerateAcctSessionId`: the base and the incremented counter
     * (printed as two 8-digit hex numbers); never an id handed out before.
     */
    method GenerateAcctSessionId() returns (id: (int, int))
      requires SessionsValid()
      modifies this
      ensures SessionsValid()
      ensures acctSessionCounter == old(acctSessionCounter) + 1 && acctSessionBase == old(acctSessionBase)
      ensures id == (acctSessionBase, acctSessionCounter)
      ensures id !in old(issued) && issued == old(issued) + {id}
      ensures gkHome == old(gkHome) && gkName == old(gkName)
      ensures routeTable == old(routeTable) && virtualRouteTable == old(virtualRouteTable)
    {
      acctSessionCounter := acctSessionCounter + 1;
      id := (acctSessionBase, acctSessionCounter);
      issued := issued + {id};
    }
  }

  // ---- what the toolkit promises ------------------------------------------

  /** Only (255, 255, 4242) is failover RAS; every other triple is unknown. */
  lemma ExtensionCodes(country: nat, extension: nat, manufacturer: nat)
    ensures GetInternalExtensionCode(T35C_OPEN_ORG, T35E_FAILOVER_RAS, T35M_OPEN_ORG) == IEC_FAILOVER_RAS
    ensures (country, extension, manufacturer) != (255, 255, 4242) ==>
      GetInternalExtensionCode(country, extension, manufacturer) == IEC_UNKNOWN
  {
  }

  /** Aliases that are not dialed digits are never rewritten, whatever the rules. */
  lemma OtherAliasesUntouched(fastmatch: string, trailing: char, rules: seq<Rule>,
                              table: map<string, GWRewriteEntry>, gw: string, direction: bool, alias: Alias, pick: nat)
    requires alias.tag != DialedDigits
    ensures RewrittenAlias(fastmatch, trailing, rules, alias, pick) == (alias, false)
    ensures GWRewrittenAlias(table, gw, direction, alias) == (alias, false)
  {
  }

  /** One step of the `GetGKHome` loop: the separator, when one is due, and the next part extend the join. */
  lemma JoinStep(xs: seq<string>, i: nat, sep: char)
    requires i < |xs|
    ensures Join(xs[..i], sep) + (if 0 < i then [sep] else "") + xs[i] == Join(xs[..i + 1], sep)
  {
    assert xs[..i + 1] == xs[..i] + [xs[i]];
    if i > 0 {
      JoinSnoc(xs[..i], xs[i], sep);
    }
  }

  /** Reading the home text back through `ReloadHome` (with no interface table) keeps the list. */
  lemma ReloadHomeKeepsList(home: seq<string>, defAddr: Address)
    ensures var h := HomeList(home, None, defAddr);
      HomeList(Tokenise(HomeText(h), HomeSeparators, false), None, defAddr) == h
  {
    HomeListStable(home, None, defAddr);
  }
}
