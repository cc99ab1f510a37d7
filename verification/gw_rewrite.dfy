/**
 * `Toolkit::GWRewriteTool`: per-gateway rewrite rules read from the
 * `[RasSrv::GWRewriteE164]` section. Each setting is a gateway name whose
 * value is a `;`-separated list of lines `in=<key>=<value>` or
 * `out=<key>=<value>`; the rules of each direction are kept greatest key
 * first, and a number is rewritten with the first rule that fires, in the
 * rule language of `Rewriting` (a single target, no fast-match prefix, no
 * trailing character).
 */
module GWRewrite {
  import opened PStrings
  import opened OrderedMap
  import opened Rewriting

  /** `GWRewriteEntry::m_entry_data`: the inbound rules and the outbound rules. */
  datatype GWRewriteEntry = GWRewriteEntry(inRules: Entries, outRules: Entries)

  /**
   * The `(key, value)` pairs of the lines for `direction`, in order: a line
   * split on `=` needs at least three fields, and its first field must be
   * the direction exactly.
   */
  function DirectionPairs(lines: seq<string>, direction: string): (ps: seq<(string, string)>)
    ensures |ps| <= |lines|
  {
    if lines == [] then []
    else
      var ps := DirectionPairs(lines[..|lines| - 1], direction);
      var f := Tokenise(lines[|lines| - 1], "=", true);
      if |f| >= 3 && f[0] == direction then ps + [(f[1], f[2])] else ps
  }

  /** The entry `LoadConfig` builds from one gateway's setting. */
  function GatewayEntry(value: string): GWRewriteEntry {
    var lines := Tokenise(value, ";", true);
    GWRewriteEntry(Reverse(FromPairs(DirectionPairs(lines, "in"))),
                   Reverse(FromPairs(DirectionPairs(lines, "out"))))
  }

  /** The dictionary `LoadConfig` builds from the section's pairs. */
  function GatewayTable(cfgs: seq<(string, string)>): (t: map<string, GWRewriteEntry>)
    ensures t.Keys == set p | p in cfgs :: p.0
  {
    if cfgs == [] then map[]
    else
      var init := cfgs[..|cfgs| - 1];
      var p := cfgs[|cfgs| - 1];
      assert cfgs == init + [p];
      GatewayTable(init)[p.0 := GatewayEntry(p.1)]
  }

  /** Each configured gateway maps to the entry built from its own (last) value. */
  lemma {:induction false} GatewayTableValue(cfgs: seq<(string, string)>, k: string)
    requires LastValue(cfgs, k).Some?
    ensures k in GatewayTable(cfgs) && GatewayTable(cfgs)[k] == GatewayEntry(LastValue(cfgs, k).value)
  {
    if cfgs[|cfgs| - 1].0 != k {
      GatewayTableValue(cfgs[..|cfgs| - 1], k);
    }
  }

  /** The rules of one direction, seen as single-target rules. */
  function AsRules(m: Entries): (rules: seq<Rule>)
    ensures |rules| == |m|
    ensures forall i :: 0 <= i < |m| ==> rules[i] == Rule(m[i].0, m[i].1, [])
  {
    seq(|m|, i requires 0 <= i < |m| => Rule(m[i].0, m[i].1, []))
  }

  /** What the rules of `direction` (`true` is inbound) make of `data`. */
  function GWRewritten(entry: GWRewriteEntry, direction: bool, data: string): string {
    var m := if direction then entry.inRules else entry.outRules;
    var i := FirstFiring(AsRules(m), data);
    if i == |m| then data else Replace(m[i].0, m[i].1, data)
  }

  class GWRewriteTool {
    /** `m_GWRewrite`: gateway name to its rules. */
    var gwRewrite: map<string, GWRewriteEntry>

    constructor ()
      ensures gwRewrite == map[]
    {
      gwRewrite := map[];
    }

    /** `GWRewriteTool::LoadConfig`, with the section's pairs as `cfgs`. */
    method LoadConfig(cfgs: seq<(string, string)>)
      modifies this
      ensures gwRewrite == GatewayTable(cfgs)
    {
      // the new table replaces the old one entirely
      gwRewrite := map[];
      for i := 0 to |cfgs|
        invariant gwRewrite == GatewayTable(cfgs[..i])
      {
        var key := cfgs[i].0;
        var entry := ParseGateway(cfgs[i].1);
        assert cfgs[..i + 1][..i] == cfgs[..i];
        gwRewrite := gwRewrite[key := entry];
      }
      assert cfgs[..|cfgs|] == cfgs;
    }

    /** The body of the `LoadConfig` loop: one gateway's lines read into its two rule lists. */
    static method ParseGateway(value: string) returns (entry: GWRewriteEntry)
      ensures entry == GatewayEntry(value)
    {
      var lines := Tokenise(value, ";", true);
      var inStrings: Entries := [];
      var outStrings: Entries := [];
      for j := 0 to |lines|
        invariant inStrings == FromPairs(DirectionPairs(lines[..j], "in"))
        invariant outStrings == FromPairs(DirectionPairs(lines[..j], "out"))
      {
        assert lines[..j + 1][..j] == lines[..j];
        ghost var ins := DirectionPairs(lines[..j], "in");
        ghost var outs := DirectionPairs(lines[..j], "out");
        var tokenisedLine := Tokenise(lines[j], "=", true);
        if |tokenisedLine| < 3 {
          continue;
        }
        var rule := (tokenisedLine[1], tokenisedLine[2]);
        if tokenisedLine[0] == "in" {
          assert (ins + [rule])[..|ins|] == ins;
          inStrings := Insert(inStrings, rule.0, rule.1);
        }
        if tokenisedLine[0] == "out" {
          assert (outs + [rule])[..|outs|] == outs;
          outStrings := Insert(outStrings, rule.0, rule.1);
        }
      }
      assert lines[..|lines|] == lines;
      var sortedIn := ReverseCopy(inStrings);
      var sortedOut := ReverseCopy(outStrings);
      entry := GWRewriteEntry(sortedIn, sortedOut);
    }

    /**
     * `GWRewriteTool::RewritePString`: `found` is false, and `data` is left
     * alone, for an unknown gateway; otherwise the rules of the direction
     * rewrite `data` into `result`.
     */
    method RewritePString(gw: string, direction: bool, data: string) returns (found: bool, result: string)
      ensures found <==> gw in gwRewrite
      ensures !found ==> result == data
      ensures found ==> result == GWRewritten(gwRewrite[gw], direction, data)
    {
      result := data;
      // an unknown gateway: nothing is rewritten
      if gw !in gwRewrite {
        return false, result;
      }
      var entry := gwRewrite[gw];
      var rules := if direction then entry.inRules else entry.outRules;
      var i := 0;
      while i < |rules|
        invariant 0 <= i <= |rules| && result == data
        invariant forall j :: 0 <= j < i ==> !Fires(rules[j].0, data)
      {
        var key := rules[i].0;
        var inverted := false;
        // a `!` key fires when the number does not start with the rest of the key
        if |key| != 0 && key[0] == '!' {
          inverted := true;
          key := key[1..];
        }
        // a plain key fires on a number that starts with it
        if IsPrefix(key, data) != inverted {
          assert FirstFiring(AsRules(rules), data) == i;
          var striplen := if inverted then 0 else |key|;
          result := rules[i].1 + Mid(data, striplen);
          break;
        }
        i := i + 1;
      }
      return true, result;
    }
  }

  /** The reverse iteration that fills a sorted vector from a `std::map`. */
  method ReverseCopy(m: Entries) returns (sorted: Entries)
    ensures sorted == Reverse(m)
  {
    sorted := [];
    var it := |m|;
    while it > 0
      invariant 0 <= it <= |m| && |sorted| == |m| - it
      invariant forall p :: 0 <= p < |sorted| ==> sorted[p] == m[|m| - 1 - p]
    {
      it := it - 1;
      sorted := sorted + [m[it]];
    }
  }

  // ---- what the per-gateway rules promise ---------------------------------

  /** Both rule lists of a gateway are tried greatest key first. */
  lemma GatewayRulesDescending(value: string)
    ensures DescendingKeys(AsRules(GatewayEntry(value).inRules))
    ensures DescendingKeys(AsRules(GatewayEntry(value).outRules))
  {
    var lines := Tokenise(value, ";", true);
    ReverseDescending(FromPairs(DirectionPairs(lines, "in")));
    ReverseDescending(FromPairs(DirectionPairs(lines, "out")));
  }

  /**
   * A gateway has a rule for key `k` in a direction exactly when one of its
   * lines for that direction has key `k`, and the rule's value is the one
   * from the last such line.
   */
  lemma GatewayRuleValue(value: string, inbound: bool, k: string, v: string)
    ensures var entry := GatewayEntry(value);
      var m := if inbound then entry.inRules else entry.outRules;
      (k, v) in m <==>
        LastValue(DirectionPairs(Tokenise(value, ";", true), if inbound then "in" else "out"), k) == Some(v)
  {
    var lines := Tokenise(value, ";", true);
    var ps := DirectionPairs(lines, if inbound then "in" else "out");
    var sorted := FromPairs(ps);
    FromPairsMap(ps, k);
    assert forall e :: e in Reverse(sorted) <==> e in sorted by {
      forall e ensures e in Reverse(sorted) <==> e in sorted {
        if e in sorted {
          var i :| 0 <= i < |sorted| && sorted[i] == e;
          assert Reverse(sorted)[|sorted| - 1 - i] == e;
        }
      }
    }
    if (k, v) in sorted {
      ToMapMember(sorted, (k, v));
    }
    if LastValue(ps, k) == Some(v) {
      ToMapKeys(sorted);
      var e :| e in sorted && e.0 == k;
      ToMapMember(sorted, e);
    }
  }

  /** A line with fewer than three `=`-separated fields adds no rule. */
  lemma ShortLineIgnored(lines: seq<string>, line: string, direction: string)
    requires |Tokenise(line, "=", true)| < 3
    ensures DirectionPairs(lines + [line], direction) == DirectionPairs(lines, direction)
  {
    assert (lines + [line])[..|lines|] == lines;
  }
}
