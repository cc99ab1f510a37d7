# The GnuGk Toolkit rule engine, in Dafny

This project models the rule engine of the GNU Gatekeeper's `Toolkit`
(`Toolkit.cxx`, `Toolkit.h`). The engine is the set of configuration-driven
helpers the gatekeeper uses to decide how to handle a call:

- **`RewriteData` / `RewriteTool`**: the dialled-number rewrite.
  - It removes an optional trailing character.
  - It skips the rules unless the number starts with the fast-match prefix.
  - Otherwise it tries the prefix rules of `[RasSrv::RewriteE164]`, greatest key first. A `!` key inverts the match. When the first rule that fires is a plain one, its target (or one target picked from several) replaces the prefix it matched; when it is a `!` rule, the target is put in front of the whole number.
- **`GWRewriteTool`**: per-gateway `in=`/`out=` rules from `[RasSrv::GWRewriteE164]`. They are parsed into reverse-sorted lists, and the first rule that fires rewrites the number.
- **`GetNetworkFromString`, `ProxyCriterion`, `RouteTable`**: network strings (`ALL`, a host, `a/n`, `a/m.m.m.m`), the "does this call need the proxy" test, and the choice of the local address towards a peer.
- **`SetGKHome` / `GetGKHome`**: the in-place clean-up of the home interface list.
- **Small helpers**: `AsBool`, `HashCStr`, `GetInternalExtensionCode` and the accounting session counter.

The modules follow the source:

| module | file | models |
|---|---|---|
| `PStrings` | pstrings.dfy | the PTLib string operations used: prefix test, `Mid`, `*=`, `Tokenise` in both modes |
| `Addresses` | addresses.dfy | IPv4 addresses as four octets, dotted-quad text, `AsBool`, `GetNetworkFromString` |
| `OrderedMap` | ordered_map.dfy | `std::map<PString, PString>` as a sorted association list |
| `Rewriting` | rewriting.dfy | `RewriteData` (a class over arrays) and `RewriteTool` (a class) |
| `GWRewrite` | gw_rewrite.dfy | `GWRewriteTool` (a class holding a map) |
| `Proxy` | proxy.dfy | `ProxyCriterion` (a class over an array) |
| `Routes` | routes.dfy | route entries, `RouteTable::CreateTable`, `InitTable`, `GetLocalAddress`, the virtual table |
| `GKHome` | gk_home.dfy | the home list: specification functions and the compaction loops of `SetGKHome` |
| `Hashing` | hash.dfy | `HashCStr` |
| `ToolkitCore` | toolkit.dfy | `Toolkit` itself: extension codes, alias rewriting, the configuration reload, session ids |

The code that loops or updates state is written as methods with loops and
invariants, or as classes with fields:

- the rule loops, and the count-down fill of the rule arrays;
- the `LoadConfig` methods;
- the compaction of the home vector;
- the hash loop;
- the session counter.

Each method is proved equal to a specification function, and the
properties the source promises are proved about those functions as lemmas.

Some things become parameters:

- **The configuration file.** The settings `ReloadConfig` reads are a `Settings` value. Each section is the sequence of its key/value pairs.
- **The operating system.** What it reports is a `Host` value: the host address, the interface table, the route table and the default gateway. A table that cannot be read is `None`.
- **`rand()`.** It becomes a `pick` number.
- **`time(NULL)`.** It becomes the constructor's `now`.

## Model

| member | source | states |
|---|---|---|
| Addresses.PrefixMask | Toolkit.cxx:806-807 | for `n` in 0..32, bit `i` of the mask (first octet first) is set exactly when `i < n` |
| Addresses.CidrMask | Toolkit.cxx:804-807 | the intended `/n` mask: the first `n` bits for 0..32, all ones from 32 up, empty at 0 and below |
| Addresses.HostRouteMaskAsWritten | Toolkit.cxx:806-807 | with the shift as written (count taken mod 32), `/32` gives the mask 0.0.0.0, under which every address is in the network |
| Addresses.HostRouteMask | Toolkit.cxx:806-807 | the intended `/32` mask is all ones, and an address matches it only when it is the network address |
| Addresses.AsIntegerOfDecimal | Toolkit.cxx:806 | `AsInteger` reads the decimal text of `n` back as `n` |
| Addresses.ParseAddressText | Toolkit.cxx:697 | reading back the dotted-quad text of an address gives the address |
| Addresses.AsBoolMeaning | Toolkit.cxx:787-793 | `AsBool` is true exactly for a non-empty value whose first character is one of `tTyYaA1` |
| Addresses.AsBool | Toolkit.cxx:787-793 | the definition: a non-empty value whose first character is one of `tTyYaA1`; its meaning is proved in AsBoolMeaning |
| Addresses.ParseAddress | Toolkit.cxx:812 | the definition of `PIPSocket::Address(text)` on dotted quads (see Left out); the text of an address reads back as it (ParseAddressText) |
| Addresses.AsInteger | Toolkit.cxx:806 | the definition of `strtol` in base 10: white space, an optional sign, the leading digits; decimal text reads back as its number (AsIntegerOfDecimal) |
| Addresses.GetNetworkFromString | Toolkit.cxx:795-813 | network AND mask is the network; `ALL` in any case gives 0.0.0.0/0.0.0.0; text without `/` gives the address under an all-ones mask (the `a/n` and `a/m.m.m.m` forms: SlashNetwork, DottedMaskString) |
| Addresses.GetNetworkFromStringAsWritten | Toolkit.cxx:795-813 | the same computation with the shift as written; network AND mask is still the network, `ALL` and a bare address are unaffected (the `a/m.m.m.m` form: DottedMaskString) |
| Addresses.NetworkFacts | Toolkit.cxx:795-813 | for any mask of `/n`: network AND mask is the network, `ALL` in any case is 0.0.0.0/0.0.0.0, text without `/` is a host under an all-ones mask |
| Addresses.TokensOfSlash | Toolkit.cxx:801 | `t/n`, neither part holding a slash, splits into `[t, n]` and is not `ALL` |
| Addresses.SlashNetwork | Toolkit.cxx:801-812 | for `t/n` with no dot in `n`, the mask is the CIDR mask of `AsInteger(n)` and the network is the address of `t` under it |
| Addresses.SlashMask | Toolkit.cxx:808-812 | `t/m.m.m.m` with a dotted mask gives the mask `m` read as an address and the network `t` AND `m`, whatever the `/n` mask |
| Addresses.DottedMaskString | Toolkit.cxx:804-812 | for `GetNetworkFromString` and its as-written form alike, the dotted-mask form gives (`t` AND `m`, `m`): the shift is not involved |
| Addresses.HostRouteStringAsWritten | Toolkit.cxx:801-812 | as written, the text `a/32` of any address gives network and mask 0.0.0.0 |
| Addresses.HostRouteString | Toolkit.cxx:801-812 | with the intended mask, `a/32` gives the network `a` under an all-ones mask |
| Addresses.HostString | Toolkit.cxx:801-803 | a bare dotted quad is a single token between separators that are neither digits nor dots, and reads as itself under an all-ones mask |
| PStrings.TokeniseOfJoin | Toolkit.cxx:613 | tokenising (runs of separators collapsed) a join of non-empty, separator-free parts gives back exactly those parts |
| OrderedMap.InsertAscending | Toolkit.cxx:210 | `rules[key] = value` keeps the map in strictly ascending key order |
| OrderedMap.InsertToMap | Toolkit.cxx:467 | `m[k] = v` maps `k` to `v` and leaves every other key as it was |
| OrderedMap.ReverseDescending | Toolkit.cxx:477-480 | a reverse iteration over the map visits its keys in strictly descending order |
| OrderedMap.FromPairsMap | Toolkit.cxx:466-472 | after assigning a sequence of pairs, the map holds for each key the value of its last assignment, and no other key |
| OrderedMap.LastValueFound | Toolkit.cxx:466-472 | a key has a last assigned value exactly when some pair has that key |
| Rewriting.ReplacePlain | Toolkit.cxx:262-282 | a firing plain rule matched its key as a prefix, and the result is the target followed by the rest of the number |
| Rewriting.ReplaceInverted | Toolkit.cxx:262-282 | a firing `!` rule fires only when its pattern is not a prefix, and the result is the target followed by the whole number |
| Rewriting.RulePairsValue | Toolkit.cxx:207-211 | filtering drops every key that is empty or starts with neither a digit nor `!`, and keeps the last value of every other key |
| Rewriting.CollectRules | Toolkit.cxx:205-212 | the rule map is in ascending key order and holds only well-formed keys |
| Rewriting.CollectRulesMap | Toolkit.cxx:205-212 | the rule map holds a key exactly when it is well formed and occurs in the section, with the value of its last occurrence |
| Rewriting.RewriteData.RulesInOrder | Toolkit.cxx:217-223 | the table holds the rule map's entries, greatest key first, each with its own value and tokenised targets |
| Rewriting.RewriteData.constructor | Toolkit.cxx:199-226 | the arrays are well formed and were filled from the rule map of the section |
| Rewriting.RewriteData.FillReversed | Toolkit.cxx:217-223 | position `p` holds entry `n-1-p` of the map, with its value and that value tokenised on `,:;&\|` tab and space |
| Rewriting.RewriteData.Key | Toolkit.h:106 | `Key(i)` is a well-formed key of the rule map and is greater than every later key |
| Rewriting.RewriteData.Value | Toolkit.h:107 | `Value(i)` is the value the rule map holds for `Key(i)` |
| Rewriting.RewriteData.Values | Toolkit.h:108 | `Values(i)` is `Value(i)` tokenised into alternative targets |
| Rewriting.FirstFiring | Toolkit.cxx:256-264 | the index of the first rule that fires: no earlier rule fires, and it fires unless it is past the end |
| Rewriting.RewriteTool.LoadConfig | Toolkit.cxx:234-240 | the fast-match prefix, the first character of `RemoveTrailingChar` (NUL when empty) and a new table from the section |
| Rewriting.RewriteTool.constructor | Toolkit.h:118 | `m_Rewrite(0)`: no rule table yet |
| Rewriting.RewriteTool.RewritePString | Toolkit.cxx:242-291 | the number and the change flag are those of `Rewritten`: strip, gate, first firing rule |
| Rewriting.Rewritten | Toolkit.cxx:242-291 | the definition of one rewrite: strip, the fast-match gate, the first firing rule; its properties are FastmatchGate, TrailingCharOnly, FirstRuleWins, UnchangedMeansSame and LongestPrefixWins |
| Rewriting.StripTrailing | Toolkit.cxx:247-250 | the definition: the configured trailing character goes when the number is longer than one character, with a change reported |
| Rewriting.Target | Toolkit.cxx:271-281 | the definition: alternative `pick % n` when there are several, the raw value otherwise; TargetIsAlternative proves it is one of them |
| Rewriting.RewriteTool.FirstFiringRule | Toolkit.cxx:256-263 | the index of the first rule whose key fires on the number (or the rule count when none does), with that key's `!` flag and the length of its pattern |
| Rewriting.FastmatchGate | Toolkit.cxx:252-253 | when the stripped number does not start with the fast-match prefix, no rule is applied |
| Rewriting.TrailingCharOnly | Toolkit.cxx:247-250 | when no rule applies, the change flag is set exactly when the number is longer than one character and ends in the trailing character, which is then the only thing removed |
| Rewriting.FirstRuleWins | Toolkit.cxx:256-287 | the first rule that fires decides: a plain rule replaces exactly its key by the target and keeps the suffix, a `!` rule prepends the target to the whole number, and a change is reported |
| Rewriting.TargetIsAlternative | Toolkit.cxx:271-281 | with several targets the one used is one of them; otherwise it is the raw value |
| Rewriting.UnchangedMeansSame | Toolkit.cxx:242-291 | a rewrite that reports no change leaves the number exactly as it was |
| Rewriting.RuleOrderDescending | Toolkit.cxx:212-223 | the rules are tried in strictly descending key order |
| Rewriting.LongestPrefixWins | Toolkit.cxx:256-264 | the plain rule that fires has the longest key among all plain keys that start the number |
| Rewriting.InvertedRulesLast | Toolkit.cxx:209-223 | since `!` sorts below every digit, a `!` rule fires only when no digit rule does |
| Rewriting.RuleOrderKeys | Toolkit.cxx:209 | every key in the table is non-empty and starts with a digit or `!` |
| GWRewrite.GatewayTable | Toolkit.cxx:437-496 | the dictionary has exactly the gateways named in the section as keys |
| GWRewrite.GatewayTableValue | Toolkit.cxx:441-494 | every gateway named in the section maps to the entry `GatewayEntry` builds from that gateway's own value (the last one, should it repeat) |
| GWRewrite.DirectionPairs | Toolkit.cxx:456-474 | the (from, to) pairs of the lines of one direction with at least three fields, in order, never more than the lines |
| GWRewrite.GatewayEntry | Toolkit.cxx:450-490 | the definition of one gateway's entry: each direction's last value per key, greatest key first; GatewayRulesDescending and GatewayRuleValue prove it |
| GWRewrite.GWRewritten | Toolkit.cxx:304-386 | the definition: the first rule of the direction that fires rewrites the number, and none leaves it unchanged |
| GWRewrite.GWRewriteTool.LoadConfig | Toolkit.cxx:418-500 | the old dictionary is replaced by `GatewayTable` of the section: one entry per gateway, each built from that gateway's own value (GatewayTableValue) |
| GWRewrite.GWRewriteTool.constructor | Toolkit.cxx:431-435 | the dictionary starts empty, the state `LoadConfig` clears back to before filling it |
| GWRewrite.GWRewriteTool.ParseGateway | Toolkit.cxx:450-490 | the entry one gateway's value gives: its `in` and `out` rules, each in reverse key order, as `GatewayEntry` describes |
| GWRewrite.ReverseCopy | Toolkit.cxx:476-484 | the vector holds the map's entries in reverse order |
| GWRewrite.GWRewriteTool.RewritePString | Toolkit.cxx:304-386 | an unknown gateway gives false and leaves the number alone; a known one gives true, even when no rule fires, and the number rewritten by the rules of the chosen direction |
| GWRewrite.GatewayRulesDescending | Toolkit.cxx:476-484 | both rule lists of a gateway are in strictly descending key order |
| GWRewrite.GatewayRuleValue | Toolkit.cxx:455-474 | a gateway has the rule `k = v` in a direction exactly when `v` is the value of the last line of that direction with key `k` |
| GWRewrite.ShortLineIgnored | Toolkit.cxx:458-462 | a line with fewer than three `=`-separated fields adds no rule |
| Proxy.ProxyCriterion.constructor | Toolkit.h:82 | no table; the criterion reads as "on, no internal networks" |
| Proxy.ProxyCriterion.ClearTable | Toolkit.cxx:175-180 | the size is 0 and the table is gone |
| Proxy.ProxyCriterion.LoadConfig | Toolkit.cxx:149-173 | the fields hold the configuration the two settings describe: off (size -1), or on with one pair per listed network |
| Proxy.ProxyCriterion.FillTable | Toolkit.cxx:166-172 | a new array of twice the number of networks, network `j` at `j` and its mask at `size + j` |
| Proxy.ProxyCriterion.IsInternal | Toolkit.cxx:187-193 | true exactly when the address under some network's mask equals that network |
| Proxy.ProxyCriterion.Required | Toolkit.cxx:182-185 | the answer `ProxyRequired` gives for the configuration the fields hold |
| Proxy.ConfigOf | Toolkit.cxx:149-173 | the definition of what `LoadConfig` leaves: off unless `Enable` reads as true, else one network per token of `InternalNetwork`; proved about in RequiredCases, NoInternalNetworks, AllNetwork and SingleHostInternal |
| Proxy.ProxyRequired | Toolkit.cxx:182-185 | the definition of `Required` on a configuration; its cases are RequiredCases |
| Proxy.RequiredCases | Toolkit.cxx:182-185 | off: never; on without networks: always; otherwise exactly when one endpoint is internal and the other is not; symmetric |
| Proxy.DisabledUnlessEnabled | Toolkit.cxx:152-156 | an `Enable` value that reads as false means no call needs the proxy |
| Proxy.NoInternalNetworks | Toolkit.cxx:160-164 | switched on with an empty `InternalNetwork`, the criterion is "on, no networks" |
| Proxy.AllNetwork | Toolkit.cxx:160-169 | with the proxy on, `InternalNetwork=ALL` is the single network 0.0.0.0/0.0.0.0 |
| Proxy.AllIsInternal | Toolkit.cxx:797-799 | `InternalNetwork=ALL` makes every address internal, so no call needs the proxy |
| Proxy.NetworkContainsItself | Toolkit.cxx:812 | a network always contains its own network address |
| Proxy.SingleNetwork | Toolkit.cxx:160-169 | a setting that is one token describes one network |
| Proxy.SingleHostInternal | Toolkit.cxx:160-169 | a bare address as the only internal network makes exactly that host internal |
| Proxy.HostNetwork | Toolkit.cxx:190 | under an all-ones mask a network holds its own address only |
| Routes.EntryFromString | Toolkit.cxx:34-40 | the entry's network and mask are those of `GetNetworkFromString`, the network is closed under the mask, and the destination is the address before the first `/` |
| Routes.EntryDestination | Toolkit.cxx:38 | for `t/x` the destination is `t`, and for a text without `/` it is the text itself |
| Routes.EntryFromStringMatches | Toolkit.cxx:62-65 | such an entry matches its own destination and every address of its network |
| Routes.Compare | Toolkit.cxx:62-65 | the definition: the address is the destination or lies in the entry's network; FirstMatchingEntry and EntryFromStringMatches are stated with it |
| Routes.FirstMatchingInterface | Toolkit.cxx:48-54 | the first interface whose address the route matches, or the end |
| Routes.FirstNamedInterface | Toolkit.cxx:55-59 | the first interface named like the route's interface, or the end |
| Routes.EntryFromRoute | Toolkit.cxx:42-60 | the destination becomes the first matching interface address, else that of the first interface of the route's name, else stays |
| Routes.RouteOntoInterface | Toolkit.cxx:48-54 | a route whose network holds the address of interface `j` gets the address of an interface at or before `j` |
| Routes.CreatedEntries | Toolkit.cxx:122-129 | every entry has a netmask other than 0.0.0.0 and is built from such a system route |
| Routes.CreatedEntriesComplete | Toolkit.cxx:124-129 | every system route with a netmask other than 0.0.0.0 has its entry in the table |
| Routes.CreateTable | Toolkit.cxx:108-131 | no table when either system table cannot be read, otherwise the created entries |
| Routes.RealEntries | Toolkit.cxx:110-120 | there is a table exactly when both system tables can be read |
| Routes.FirstMatchingEntry | Toolkit.cxx:103-104 | `find_if` with `Compare`: no earlier entry matches, and the one found does |
| Routes.LocalAddressFirstMatch | Toolkit.cxx:101-106 | the local address is the destination of the first entry that matches the peer |
| Routes.LocalAddressDefault | Toolkit.cxx:101-106 | with no matching entry the default address is used |
| Routes.GetLocalAddress | Toolkit.cxx:101-106 | the local address towards a peer is the table's default address or the destination of an entry that matches the peer |
| Routes.InitTable | Toolkit.cxx:68-88 | the table holds what was created, and the default address is the host address or the destination of an entry matching the default gateway |
| Routes.VirtualEntries | Toolkit.cxx:133-146 | there is no virtual table exactly when `NetworkInterfaces` is empty |
| Routes.VirtualEntriesShape | Toolkit.cxx:138-144 | a non-empty setting gives at least one entry, one per listed network, in order |
| Routes.GetRouteTable | Toolkit.cxx:522-525 | the real table, or the virtual one when it is not empty |
| Routes.VirtualTableChosen | Toolkit.cxx:522-525 | with `NetworkInterfaces` set, the default choice is the virtual table built from it, and asking for the real one gives the real one |
| GKHome.OnInterfaces | Toolkit.cxx:718-727 | an address is kept exactly when it is listed and is an interface address |
| GKHome.WithoutAny | Toolkit.cxx:736-741 | an address is kept exactly when it is listed and is not 0.0.0.0 |
| GKHome.Dedup | Toolkit.cxx:745-752 | the same addresses, none twice |
| GKHome.IndexOf | Toolkit.cxx:756 | `find`: the first position holding the address |
| GKHome.PutFirstFacts | Toolkit.cxx:756-758 | the swap keeps the length and every address as often as before, puts the default address first when it is listed, and keeps a list free of duplicates |
| GKHome.NoneOnInterfaces | Toolkit.cxx:718-727 | when no listed address is an interface address, nothing is kept |
| GKHome.HomeListDistinct | Toolkit.cxx:744-758 | the home list never holds an address twice |
| GKHome.HomeListDefaultFirst | Toolkit.cxx:755-758 | when the default address is a home address, it comes first |
| GKHome.HomeListMembers | Toolkit.cxx:704-759 | the home list holds exactly the addresses that pass the interface checks |
| GKHome.HomeListOnInterfaces | Toolkit.cxx:713-742 | with an interface table: the listed interface addresses other than 0.0.0.0, or all interface addresses other than 0.0.0.0 when none is listed |
| GKHome.HomeListWithoutInterfaces | Toolkit.cxx:708-711 | without an interface table, every listed address stays |
| GKHome.HomeTextRoundTrip | Toolkit.cxx:691-702 | the text `GetGKHome` prints, read back as a `Home` setting, names the same addresses in the same order |
| GKHome.DedupOfDistinct | Toolkit.cxx:745-752 | a list without duplicates comes out of the duplicate removal unchanged |
| GKHome.OnInterfacesOfInterfaces | Toolkit.cxx:718-727 | a list of interface addresses comes out of the interface check unchanged |
| GKHome.WithoutAnyOfNone | Toolkit.cxx:736-741 | a list without 0.0.0.0 comes out of its removal unchanged |
| GKHome.PutFirstOfFront | Toolkit.cxx:756-758 | a list that already starts with the default address, or lacks it, is left alone by the swap |
| GKHome.ValidatedHomeList | Toolkit.cxx:713-742 | a home list passes the interface checks of its own table unchanged, unless they left it empty |
| GKHome.HomeListStable | Toolkit.cxx:704-759 | setting the home list again from the text `GetGKHome` prints leaves it as it is, unless the checks left it empty |
| GKHome.ShiftDownCopy | Toolkit.cxx:724 | `copy(begin+n+1, begin+size, begin+n)` position by position: entries before `n` stay, each position from `n` to `size-2` takes the entry after it, and the tail from `size-1` on is unchanged |
| GKHome.FindAddress | Toolkit.cxx:719-721 | the index of the address in the table, or the end exactly when it is absent |
| GKHome.DropOffInterfaces | Toolkit.cxx:718-727 | the first `newSize` entries are the first `size` entries that are interface addresses, in order |
| GKHome.DropAny | Toolkit.cxx:736-741 | the first `newSize` entries are the first `size` entries other than 0.0.0.0, in order |
| GKHome.DropDuplicates | Toolkit.cxx:745-752 | the first `newSize` entries are the first occurrences among the first `size`, in order |
| GKHome.PushAll | Toolkit.cxx:709-711 | the vector holds the address of every entry of the setting |
| GKHome.CheckInterfaces | Toolkit.cxx:713-742 | the logical contents are the listed interface addresses (all interface addresses when none is left) without 0.0.0.0 |
| GKHome.PutDefaultFirst | Toolkit.cxx:756-758 | the result is the swap of the front with the first occurrence of the default address |
| GKHome.HomeList | Toolkit.cxx:704-759 | the definition of the list `SetGKHome` leaves; HomeListDistinct, HomeListDefaultFirst, HomeListMembers and HomeListStable prove what it promises |
| Hashing.HashStep | Toolkit.h:283-285 | after a character is folded in, the bits under 0xf0000000 are clear |
| Hashing.MixClearsHighNibble | Toolkit.h:284-285 | folding back and clearing leaves the bits under 0xf0000000 clear |
| Hashing.HashCStr | Toolkit.h:278-288 | the loop computes the hash of the characters before the first NUL, and the bits under 0xf0000000 are clear |
| Hashing.Hash | Toolkit.h:279-288 | the hash of the characters before the first NUL never has a bit of `0xf0000000` set |
| Hashing.HashEmpty | Toolkit.h:281-282 | the empty string, and any string starting with NUL, hashes to 0 |
| Hashing.HashStopsAtNul | Toolkit.h:282 | what follows the first NUL does not affect the hash |
| ToolkitCore.GetInternalExtensionCode | Toolkit.cxx:761-778 | failover RAS exactly for country 255, extension 255, manufacturer 4242; unknown otherwise; always below the user base |
| ToolkitCore.GetInternalExtensionCodeOf | Toolkit.cxx:780-785 | failover RAS exactly for the triple (255, 255, 4242), unknown for every other triple |
| ToolkitCore.ExtensionCodes | Toolkit.h:203-213 | (255, 255, 4242) is failover RAS, and every other triple is unknown |
| ToolkitCore.RewrittenAlias | Toolkit.cxx:636-648 | the tag is kept; an alias reported unchanged is unchanged; an alias that is not dialed digits gives false |
| ToolkitCore.RewrittenAliasNumber | Toolkit.cxx:641-645 | a dialed-digits alias comes out with its number rewritten as `RewritePString` rewrites it, with the same flag |
| ToolkitCore.AliasChangeReported | Toolkit.h:129 | an alias that was changed is reported as changed |
| ToolkitCore.OtherAliasesUntouched | Toolkit.cxx:638-639 | an alias that is not dialed digits is never rewritten by either tool |
| ToolkitCore.GWRewrittenAlias | Toolkit.cxx:658-675 | the tag is kept; the flag is true exactly for a dialed-digits alias and a known gateway; unchanged when false |
| ToolkitCore.RewrittenAliases | Toolkit.cxx:650-656 | every alias of the list is rewritten on its own, with its own pick |
| ToolkitCore.RewrittenAliasesChanged | Toolkit.cxx:650-656 | the list reports a change exactly when one of its aliases does |
| ToolkitCore.GWRewrittenAliases | Toolkit.cxx:677-688 | every alias of the list is rewritten on its own |
| ToolkitCore.GWRewrittenAliasesChanged | Toolkit.cxx:677-688 | the list reports a change exactly when the gateway is known and some alias is dialed digits |
| ToolkitCore.Toolkit.constructor | Toolkit.cxx:505-512 | counter 0, base the start time, no session id issued, tables, home list and gatekeeper name empty |
| ToolkitCore.Toolkit.ProxyRequired | Toolkit.h:96-97 | the answer of the proxy criterion |
| ToolkitCore.Toolkit.RewritePString | Toolkit.h:133 | the answer of the rewrite tool |
| ToolkitCore.Toolkit.GWRewritePString | Toolkit.cxx:668 | the answer of the per-gateway rewrite tool |
| ToolkitCore.Toolkit.RewriteE164 | Toolkit.cxx:636-648 | the alias and flag of `RewrittenAlias` under the loaded rules |
| ToolkitCore.Toolkit.RewriteE164Array | Toolkit.cxx:650-656 | the array afterwards, and the flag, are those of `RewrittenAliases` on the array before |
| ToolkitCore.Toolkit.RewriteAt | Toolkit.cxx:653-654 | one step of the loop: the alias at `n` becomes its rewritten form, with its flag; every other alias is unchanged |
| ToolkitCore.Toolkit.GWRewriteE164 | Toolkit.cxx:658-675 | the alias and flag of `GWRewrittenAlias` under the loaded dictionary |
| ToolkitCore.Toolkit.GWRewriteE164Array | Toolkit.cxx:677-688 | the array afterwards, and the flag, are those of `GWRewrittenAliases` on the array before |
| ToolkitCore.Toolkit.GWRewriteAt | Toolkit.cxx:683-684 | one step of the loop: the alias at `n` is rewritten for the gateway and direction, with its flag; every other alias is unchanged |
| ToolkitCore.Toolkit.GetRouteTable | Toolkit.cxx:522-525 | the table `Routes.GetRouteTable` chooses |
| ToolkitCore.Toolkit.SetGKHome | Toolkit.cxx:704-759 | the home list becomes `HomeList` of the setting, the interface table and the default address; nothing else changes |
| ToolkitCore.Toolkit.GetGKHome | Toolkit.cxx:691-702 | the list, and the texts of its addresses joined by commas |
| ToolkitCore.Toolkit.ReloadHome | Toolkit.cxx:611-613 | the home list is set again exactly when it is empty or `Home` is non-empty |
| ToolkitCore.ReloadHomeKeepsList | Toolkit.cxx:611-613 | without an interface table, setting `Home` to the text `GetGKHome` prints keeps the list |
| ToolkitCore.Toolkit.ReloadConfig | Toolkit.cxx:599-617 | both route tables are built again, the proxy criterion and both rewrite tools hold the new settings, the home list follows the rule above, and the gatekeeper name is the `Name` setting or `GNU Gatekeeper` when it is absent; the session counter is untouched |
| ToolkitCore.Toolkit.ReloadRouteTables | Toolkit.cxx:605-606 | both route tables are built again from the interfaces; the home list, the issued identifiers and the counters are untouched |
| ToolkitCore.Toolkit.LoadTools | Toolkit.cxx:607-609 | the proxy criterion, the rewrite tool and the per-gateway rewrite tool hold the new settings |
| ToolkitCore.Toolkit.GenerateAcctSessionId | Toolkit.cxx:828-832 | the counter goes up by one under a fixed base, and the id (base, counter) was never handed out before |

## Left out

- `ProxyChannel.h` and `gkacct.h`: they hold declarations only. The behaviour they declare is not part of this model.
- Reading the configuration file (`CreateConfig`, `SetConfig`, `Config`, `m_ConfigDirty`): file I/O. The settings are inputs.
- `PIPSocket` discovery: the host address, interface table, route table and default gateway are inputs. The `malloc`/placement-new storage of route entries becomes a sequence.
- `RouteTable::ClearTable`: no entry storage is modelled, and `IsEmpty` is "no table". `ClearTable` resets `rtable_begin` but not `rtable_end`. After a failed `CreateTable`, a lookup would run from a null pointer to a stale end. The model has no end pointer, so it reads such a table as empty.
- `MatchRegex` and `CypherDecode`: calls into PTLib's regular expressions and TEA cipher.
- `PTRACE` logging, `GWRewriteTool::PrintData`, and the mutex in `GenerateAcctSessionId`.
- `srand`/`rand()`: the random choice is the `pick` input, and `pick % |targets|` is the choice.
- ToolkitCore.Toolkit.GenerateAcctSessionId: the `%08x%08x` text of the id is not modelled; the id is the pair (base, counter). The `long` counter has no overflow in the model.
- ToolkitCore.RewrittenAlias: `H323GetAliasAddressString` / `H323SetAliasAddress` are foreign calls. An alias is a tag and a string, and setting the new number keeps the tag.
- `GWRewritePString` and `m_GWRewrite` are used in `Toolkit.cxx` but not declared in `Toolkit.h`. The model takes them to be a `GWRewriteTool` member that returns the tool's answer.
- Proxy.ProxyCriterion.constructor: the source leaves `size` uninitialised until `LoadConfig`. The model sets it to 0.
- `RemoveTrailingChar` defaults to a space when the setting is absent. The model takes the value as given: a missing setting is to be passed in as `" "`.
- `EmergencyAccept` and `BindAll`: these fields are declared in `Toolkit.h` but no modelled code reads or writes them.
- Hashing.HashCStr: `unsigned long` is taken as 64 bits (LP64), and the characters are bytes. A 32-bit `long` is not modelled.
- GKHome.HomeListStable: it holds only when the interface checks leave the list non-empty, or when there is no interface table. An interface table whose only listed address is 0.0.0.0 empties the list, and then `GetGKHome` prints "".
- Addresses.ParseAddress: `PIPSocket::Address(text)` is PTLib code, which is not part of this model. The model reads exactly four dot-separated decimal parts of one to three digits, each at most 255; any other text is 0.0.0.0, and no host name is resolved. A zero-padded part such as `010` is read as decimal (10); a C-library parser in the style of `inet_addr` would read it as octal (8) and would also accept forms with one to three parts. Neither is modelled.
- Addresses.AsInteger: `strtol` overflow is not modelled; the value is the unbounded decimal. White space is C `isspace` in the "C" locale; other locales are not modelled.
- Proxy.NetworksFrom, Proxy.ConfigOf, Proxy.ProxyCriterion.LoadConfig, Proxy.ProxyCriterion.Required, Routes.EntryFromString, Routes.VirtualEntries: these use the intended `/n` mask (`GetNetworkFromString`, built on `CidrMask`), not the shift as written at `Toolkit.cxx:806`. So `InternalNetwork=10.0.0.1/32` makes only 10.0.0.1 internal here, where the code as written makes every address internal, and a prefix below 0 or above 32 gives the empty or the all-ones mask rather than a shift by that count. The shift as written is modelled only in `Addresses.CidrMaskAsWritten`, `Addresses.GetNetworkFromStringAsWritten` and the lemmas about them (see Findings).

## Findings

| source | as written | input that shows it | evidently intended | confidence | as-written member | corrected member |
|---|---|---|---|---|---|---|
| Toolkit.cxx:806 | `DWORD(~0) >> net[1].AsInteger()` shifts a 32-bit value by the prefix length; a shift by 32 is undefined in C, and x86 takes the count mod 32 | `InternalNetwork=10.0.0.1/32` (or a `NetworkInterfaces` entry `a/32`) gives mask 0.0.0.0 and network 0.0.0.0, so every address counts as internal | `/32` is a host route: mask 255.255.255.255, matching that address only | not executed | Addresses.HostRouteStringAsWritten | Addresses.HostRouteString |
