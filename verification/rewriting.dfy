/**
 * The dialled-number rewrite engine of the gatekeeper: `Toolkit::RewriteData`
 * (the rule table read from the `[RasSrv::RewriteE164]` section) and
 * `Toolkit::RewriteTool` (trailing-character removal, the fast-match gate
 * and the first-matching-prefix rewrite).
 *
 * The rule language is shared with the per-gateway rules: a key is a prefix
 * to look for; a key that starts with `!` fires when the rest of it is NOT a
 * prefix. A firing plain rule replaces the matched prefix by its target and
 * keeps the suffix; a firing inverted rule puts its target in front of the
 * whole number.
 */
module Rewriting {
  import opened PStrings
  import opened OrderedMap

  // ---- the rule language --------------------------------------------------

  /** `key[0] == '!'`: the rule fires when its pattern does NOT start the number. */
  predicate IsInverted(key: string) {
    |key| > 0 && key[0] == '!'
  }

  /** The prefix a key looks for: the key without its leading `!`. */
  function Pattern(key: string): (p: string)
    ensures |p| <= |key|
  {
    if IsInverted(key) then key[1..] else key
  }

  /** `(strncmp(s, key, len) == 0) ^ inverted`. */
  predicate Fires(key: string, s: string) {
    IsPrefix(Pattern(key), s) != IsInverted(key)
  }

  /** `pre + s.Mid(inverted ? 0 : len)`: the number a firing rule produces. */
  function Replace(key: string, pre: string, s: string): string {
    pre + Mid(s, if IsInverted(key) then 0 else |Pattern(key)|)
  }

  /** A plain rule swaps the prefix it matched for the target and keeps the rest. */
  lemma ReplacePlain(key: string, pre: string, s: string)
    requires !IsInverted(key) && Fires(key, s)
    ensures s == key + s[|key|..]
    ensures Replace(key, pre, s) == pre + s[|key|..]
  {
  }

  /** An inverted rule fires only when its pattern is not a prefix, and keeps the whole number. */
  lemma ReplaceInverted(key: string, pre: string, s: string)
    requires IsInverted(key) && Fires(key, s)
    ensures !IsPrefix(key[1..], s)
    ensures Replace(key, pre, s) == pre + s
  {
  }

  // ---- RewriteData --------------------------------------------------------

  /** The characters between the alternative targets of one rule value. */
  const TargetSeparators := ",:;&|\t "

  /** `!key && (isdigit(key[0]) || key[0] == '!')`: the keys `RewriteData` keeps. */
  predicate IsRuleKey(key: string) {
    |key| > 0 && (IsDigit(key[0]) || key[0] == '!')
  }

  /** One rule: `Key(i)`, `Value(i)` and `Values(i)`. */
  datatype Rule = Rule(key: string, value: string, targets: seq<string>)

  /** The section's pairs whose key the constructor keeps, in order. */
  function RulePairs(cfgs: seq<(string, string)>): (ps: seq<(string, string)>)
    ensures forall p :: p in ps ==> IsRuleKey(p.0)
  {
    if cfgs == [] then []
    else
      var ps := RulePairs(cfgs[..|cfgs| - 1]);
      if IsRuleKey(cfgs[|cfgs| - 1].0) then ps + [cfgs[|cfgs| - 1]] else ps
  }

  /** The `std::map` of rules the constructor builds from the section's key/value pairs. */
  function CollectRules(cfgs: seq<(string, string)>): (m: Entries)
    ensures Ascending(m)
    ensures forall e :: e in m ==> IsRuleKey(e.0)
  {
    FromPairs(RulePairs(cfgs))
  }

  /** Filtering drops the malformed keys and keeps the last value of every other key. */
  lemma {:induction false} RulePairsValue(cfgs: seq<(string, string)>, k: string)
    ensures LastValue(RulePairs(cfgs), k) == if IsRuleKey(k) then LastValue(cfgs, k) else None
  {
    if cfgs != [] {
      var ps := RulePairs(cfgs[..|cfgs| - 1]);
      RulePairsValue(cfgs[..|cfgs| - 1], k);
      if IsRuleKey(cfgs[|cfgs| - 1].0) {
        assert (ps + [cfgs[|cfgs| - 1]])[..|ps|] == ps;
      }
    }
  }

  /**
   * The rule map holds exactly the well-formed keys of the section, each with
   * the value of its last occurrence.
   */
  lemma CollectRulesMap(cfgs: seq<(string, string)>, k: string)
    ensures k in ToMap(CollectRules(cfgs)) <==>
      IsRuleKey(k) && exists i :: 0 <= i < |cfgs| && cfgs[i].0 == k
    ensures k in ToMap(CollectRules(cfgs)) ==> LastValue(cfgs, k) == Some(ToMap(CollectRules(cfgs))[k])
  {
    FromPairsMap(RulePairs(cfgs), k);
    RulePairsValue(cfgs, k);
    LastValueFound(cfgs, k);
  }

  /** The rules in the order `RewriteTool` tries them: descending key order. */
  function RuleOrder(m: Entries): (rules: seq<Rule>)
    ensures |rules| == |m|
  {
    var rev := Reverse(m);
    seq(|rev|, i requires 0 <= i < |rev| =>
      Rule(rev[i].0, rev[i].1, Tokenise(rev[i].1, TargetSeparators, false)))
  }

  /**
   * `Toolkit::RewriteData`: parallel arrays of keys, values and tokenised
   * values, filled from the rule map in reverse so that `Key(0)` is the
   * greatest key.
   */
  class RewriteData {
    const keys: array<string>
    const values: array<string>
    const targets: array<seq<string>>
    const size: nat
    /** The rule map the arrays were filled from. */
    ghost const source: Entries

    ghost predicate Valid()
      reads this, keys, values, targets
    {
      && keys.Length == size && values.Length == size && targets.Length == size
      && Ascending(source) && |source| == size
      && (forall e :: e in source ==> IsRuleKey(e.0))
      && (forall i :: 0 <= i < size ==> keys[i] == source[size - 1 - i].0)
      && (forall i :: 0 <= i < size ==> values[i] == source[size - 1 - i].1)
      && (forall i :: 0 <= i < size ==> targets[i] == Tokenise(values[i], TargetSeparators, false))
    }

    /** The rules as the rewrite loop sees them. */
    ghost function Rules(): (rules: seq<Rule>)
      reads this, keys, values, targets
      requires Valid()
      ensures |rules| == size
      ensures forall i :: 0 <= i < size ==> rules[i] == Rule(keys[i], values[i], targets[i])
    {
      seq(size, i reads this, keys, values, targets requires 0 <= i < size && Valid() =>
        Rule(keys[i], values[i], targets[i]))
    }

    /** The table holds the rule map's entries, greatest key first. */
    lemma RulesInOrder()
      requires Valid()
      ensures Rules() == RuleOrder(source)
    {
    }

    /** `RewriteData(config, section)`, with the section's key/value pairs as `cfgs`. */
    constructor (cfgs: seq<(string, string)>)
      ensures Valid()
      ensures source == CollectRules(cfgs)
    {
      var rules: Entries := [];
      for i := 0 to |cfgs|
        invariant rules == CollectRules(cfgs[..i])
      {
        var key := cfgs[i].0;
        assert cfgs[..i + 1][..i] == cfgs[..i];
        ghost var ps := RulePairs(cfgs[..i]);
        if |key| > 0 && (IsDigit(key[0]) || key[0] == '!') {
          assert (ps + [cfgs[i]])[..|ps|] == ps;
          rules := Insert(rules, key, cfgs[i].1);
        }
      }
      assert cfgs[..|cfgs|] == cfgs;
      var ks, vs, ts := FillReversed(rules);
      keys, values, targets, size := ks, vs, ts, |rules|;
      source := rules;
    }

    /** The count-down loop that stores the rules with the greatest key first. */
    static method FillReversed(rules: Entries) returns (ks: array<string>, vs: array<string>, ts: array<seq<string>>)
      ensures fresh(ks) && fresh(vs) && fresh(ts)
      ensures ks.Length == |rules| && vs.Length == |rules| && ts.Length == |rules|
      ensures forall p :: 0 <= p < |rules| ==> ks[p] == rules[|rules| - 1 - p].0
      ensures forall p :: 0 <= p < |rules| ==> vs[p] == rules[|rules| - 1 - p].1
      ensures forall p :: 0 <= p < |rules| ==> ts[p] == Tokenise(vs[p], TargetSeparators, false)
    {
      var n := |rules|;
      ks := new string[n];
      vs := new string[n];
      ts := new seq<string>[n];
      // position p gets the entry n - 1 - p: greatest key first
      var i, iter := n, 0;
      while i > 0
        invariant 0 <= i <= n && iter == n - i
        invariant forall p :: i <= p < n ==> ks[p] == rules[n - 1 - p].0
        invariant forall p :: i <= p < n ==> vs[p] == rules[n - 1 - p].1
        invariant forall p :: i <= p < n ==> ts[p] == Tokenise(vs[p], TargetSeparators, false)
      {
        i := i - 1;
        ks[i] := rules[iter].0;
        vs[i] := rules[iter].1;
        ts[i] := Tokenise(rules[iter].1, TargetSeparators, false);
        iter := iter + 1;
      }
    }

    /** `Key(i)`: the `i`-th greatest key, one the table keeps. */
    function Key(i: nat): (k: string)
      reads this, keys, values, targets
      requires Valid() && i < size
      ensures IsRuleKey(k) && k in ToMap(source)
      ensures forall j :: i < j < size ==> Less(keys[j], k)
    {
      ToMapAt(source, size - 1 - i);
      assert source[size - 1 - i] in source;
      keys[i]
    }

    /** `Value(i)`: the value the rule map holds for `Key(i)`. */
    function Value(i: nat): (v: string)
      reads this, keys, values, targets
      requires Valid() && i < size
      ensures keys[i] in ToMap(source) && v == ToMap(source)[keys[i]]
    {
      ToMapAt(source, size - 1 - i);
      values[i]
    }

    /** `Values(i)`: the alternative targets of `Value(i)`. */
    function Values(i: nat): (ts: seq<string>)
      reads this, keys, values, targets
      requires Valid() && i < size
      ensures ts == Tokenise(values[i], TargetSeparators, false)
    {
      targets[i]
    }
  }

  // ---- RewriteTool --------------------------------------------------------

  /** `if (s.GetLength() > 1 && s[s.GetLength() - 1] == m_TrailingChar)`: drop it. */
  function StripTrailing(s: string, c: char): (string, bool) {
    if |s| > 1 && s[|s| - 1] == c then (s[..|s| - 1], true) else (s, false)
  }

  /** The target a firing rule puts in front: one token picked by `pick` when there are several, else the raw value. */
  function Target(rule: Rule, pick: nat): string {
    if |rule.targets| > 1 then rule.targets[pick % |rule.targets|] else rule.value
  }

  /** The index of the first rule that fires on `s`, or `|rules|` when none does. */
  function FirstFiring(rules: seq<Rule>, s: string): (i: nat)
    ensures i <= |rules|
    ensures forall j :: 0 <= j < i ==> !Fires(rules[j].key, s)
    ensures i < |rules| ==> Fires(rules[i].key, s)
  {
    if rules == [] then 0
    else if Fires(rules[0].key, s) then 0
    else 1 + FirstFiring(rules[1..], s)
  }

  /**
   * What `RewriteTool::RewritePString` does to `s` and whether it reports a
   * change: strip the trailing character, stop unless the number starts
   * with the fast-match prefix, then rewrite with the first rule that fires.
   */
  function Rewritten(fastmatch: string, trailing: char, rules: seq<Rule>, s: string, pick: nat): (string, bool) {
    var (t, stripped) := StripTrailing(s, trailing);
    if !IsPrefix(fastmatch, t) then (t, stripped)
    else
      var i := FirstFiring(rules, t);
      if i == |rules| then (t, stripped)
      else (Replace(rules[i].key, Target(rules[i], pick), t), true)
  }

  /**
   * `Toolkit::RewriteTool`: the fast-match prefix, the trailing character to
   * remove and the rule table (none until the configuration is loaded).
   */
  class RewriteTool {
    var fastmatch: string
    var trailingChar: char
    var data: RewriteData?

    ghost function Repr(): set<object>
      reads this
    {
      if data == null then {this} else {this, data, data.keys, data.values, data.targets}
    }

    /** The configuration has been loaded and the rule table is well formed. */
    ghost predicate Loaded()
      reads Repr()
    {
      data != null && data.Valid()
    }

    /** `RewriteTool() : m_Rewrite(0)`. */
    constructor ()
      ensures data == null
    {
      fastmatch, trailingChar, data := "", ' ', null;
    }

    /**
     * `RewriteTool::LoadConfig`: `Fastmatch` and the first character of
     * `RemoveTrailingChar` (NUL when that setting is empty), and a new rule
     * table from the section's pairs.
     */
    method LoadConfig(fastmatchSetting: string, trailingSetting: string, cfgs: seq<(string, string)>)
      modifies this
      ensures Loaded() && fresh(data)
      ensures fastmatch == fastmatchSetting
      ensures trailingChar == if trailingSetting == "" then '\0' else trailingSetting[0]
      ensures data.source == CollectRules(cfgs)
    {
      fastmatch := fastmatchSetting;
      trailingChar := if trailingSetting == "" then '\0' else trailingSetting[0];
      data := new RewriteData(cfgs);
    }

    /**
     * `RewriteTool::RewritePString`: rewrites `s` (into `t`) and reports
     * whether anything changed; `pick` stands for the `rand()` that chooses
     * among several targets.
     */
    method RewritePString(s: string, pick: nat) returns (t: string, changed: bool)
      requires Loaded()
      ensures (t, changed) == Rewritten(fastmatch, trailingChar, data.Rules(), s, pick)
    {
      changed := false;
      t := s;
      // drop the configured trailing character, but never the only one
      if |t| > 1 && t[|t| - 1] == trailingChar {
        t := t[..|t| - 1];
        changed := true;
      }
      // numbers without the fast-match prefix are left to the trailing-character strip
      if !IsPrefix(fastmatch, t) {
        assert (t, changed) == StripTrailing(s, trailingChar);
        assert (t, changed) == Rewritten(fastmatch, trailingChar, data.Rules(), s, pick);
        return;
      }
      // the first rule whose key fires decides
      var i, inverted, len := FirstFiringRule(t);
      ghost var rules := data.Rules();
      assert FirstFiring(rules, t) == i by {
        var f := FirstFiring(rules, t);
        assert !(f < i) && !(i < f);
      }
      if i < data.size {
        var pre := data.values[i];
        var ts := data.targets[i];
        // several alternatives: `pick` chooses one
        if |ts| > 1 {
          pre := ts[pick % |ts|];
        }
        // a plain key is replaced by the target; a `!` target goes before the whole number
        ghost var t0 := t;
        t := pre + Mid(t, if inverted then 0 else len);
        changed := true;
        assert t == Replace(rules[i].key, Target(rules[i], pick), t0);
        FirstRuleWins(fastmatch, trailingChar, rules, s, pick, i);
      } else {
        TrailingCharOnly(fastmatch, trailingChar, rules, s, pick);
      }
    }

    /**
     * The loop of `RewritePString`: the index of the first key that fires on
     * `t` (`Size()` when none does), with that key's `inverted` flag and the
     * length of its pattern.
     */
    method FirstFiringRule(t: string) returns (i: nat, inverted: bool, len: nat)
      requires Loaded()
      ensures i <= data.size
      ensures forall j :: 0 <= j < i ==> !Fires(data.keys[j], t)
      ensures i < data.size ==> Fires(data.keys[i], t)
      ensures i < data.size ==> inverted == IsInverted(data.keys[i]) && len == |Pattern(data.keys[i])|
    {
      i, inverted, len := 0, false, 0;
      while i < data.size
        invariant 0 <= i <= data.size
        invariant forall j :: 0 <= j < i ==> !Fires(data.keys[j], t)
      {
        var key := data.keys[i];
        len := |key|;
        inverted := false;
        var pattern := key;
        if len > 0 && key[0] == '!' {
          inverted := true;
          pattern, len := key[1..], len - 1;
        }
        if IsPrefix(pattern, t) != inverted {
          return;
        }
        i := i + 1;
      }
    }
  }

  // ---- what the rewrite promises ------------------------------------------

  /** A number that does not end in the trailing character and misses the fast-match prefix comes back unchanged. */
  lemma FastmatchGate(fastmatch: string, trailing: char, rules: seq<Rule>, s: string, pick: nat)
    requires !IsPrefix(fastmatch, StripTrailing(s, trailing).0)
    ensures Rewritten(fastmatch, trailing, rules, s, pick) == StripTrailing(s, trailing)
  {
  }

  /**
   * The trailing character goes only from a number longer than one
   * character that ends in it; when no rule fires, removing it is the only
   * change reported.
   */
  lemma TrailingCharOnly(fastmatch: string, trailing: char, rules: seq<Rule>, s: string, pick: nat)
    requires !IsPrefix(fastmatch, StripTrailing(s, trailing).0) ||
      FirstFiring(rules, StripTrailing(s, trailing).0) == |rules|
    ensures var r := Rewritten(fastmatch, trailing, rules, s, pick);
      r.1 <==> |s| > 1 && s[|s| - 1] == trailing
    ensures var r := Rewritten(fastmatch, trailing, rules, s, pick);
      r.0 == if |s| > 1 && s[|s| - 1] == trailing then s[..|s| - 1] else s
  {
  }

  /**
   * The first rule that fires decides the result: a plain rule replaces
   * exactly its key by its target and keeps the suffix; an inverted rule
   * puts its target in front of the whole number. Rules after it are not
   * consulted.
   */
  lemma FirstRuleWins(fastmatch: string, trailing: char, rules: seq<Rule>, s: string, pick: nat, i: nat)
    requires IsPrefix(fastmatch, StripTrailing(s, trailing).0)
    requires i < |rules|
    requires Fires(rules[i].key, StripTrailing(s, trailing).0)
    requires forall j :: 0 <= j < i ==> !Fires(rules[j].key, StripTrailing(s, trailing).0)
    ensures var t := StripTrailing(s, trailing).0;
      Rewritten(fastmatch, trailing, rules, s, pick) == (Replace(rules[i].key, Target(rules[i], pick), t), true)
    ensures var t := StripTrailing(s, trailing).0;
      var r := Rewritten(fastmatch, trailing, rules, s, pick);
      && r.1
      && (!IsInverted(rules[i].key) ==>
            t == rules[i].key + t[|rules[i].key|..] &&
            r.0 == Target(rules[i], pick) + t[|rules[i].key|..])
      && (IsInverted(rules[i].key) ==>
            !IsPrefix(rules[i].key[1..], t) && r.0 == Target(rules[i], pick) + t)
  {
    var t := StripTrailing(s, trailing).0;
    var f := FirstFiring(rules, t);
    assert !(f < i);
    assert !(f > i);
  }

  /** With several alternative targets the chosen one is one of them; otherwise it is the raw value. */
  lemma TargetIsAlternative(rule: Rule, pick: nat)
    ensures |rule.targets| > 1 ==> Target(rule, pick) in rule.targets
    ensures |rule.targets| <= 1 ==> Target(rule, pick) == rule.value
  {
  }

  /** A rewrite either reports a change or leaves the number exactly as it was. */
  lemma UnchangedMeansSame(fastmatch: string, trailing: char, rules: seq<Rule>, s: string, pick: nat)
    ensures !Rewritten(fastmatch, trailing, rules, s, pick).1 ==>
      Rewritten(fastmatch, trailing, rules, s, pick).0 == s
  {
  }

  /** A proper prefix sorts before the longer key. */
  lemma {:induction false} PrefixIsLess(a: string, b: string)
    requires IsPrefix(a, b) && a != b
    ensures Less(a, b)
  {
    if a != [] {
      assert b[1..][..|a| - 1] == a[1..];
      PrefixIsLess(a[1..], b[1..]);
    }
  }

  /** Two prefixes of the same number are prefixes of each other. */
  lemma PrefixesNest(a: string, b: string, s: string)
    requires IsPrefix(a, s) && IsPrefix(b, s) && |a| <= |b|
    ensures IsPrefix(a, b)
  {
    assert b[..|a|] == s[..|a|];
  }

  /** Keys strictly decrease along the rules: the order in which both rewrite tools try them. */
  predicate DescendingKeys(rules: seq<Rule>) {
    forall i, j :: 0 <= i < j < |rules| ==> Less(rules[j].key, rules[i].key)
  }

  /** The rule table is tried greatest key first. */
  lemma RuleOrderDescending(m: Entries)
    requires Ascending(m)
    ensures DescendingKeys(RuleOrder(m))
  {
    ReverseDescending(m);
  }

  /**
   * Because the rules are tried in descending key order, the plain rule that
   * fires has the longest key among the plain keys that start the number.
   */
  lemma LongestPrefixWins(rules: seq<Rule>, t: string)
    requires DescendingKeys(rules)
    requires FirstFiring(rules, t) < |rules|
    requires !IsInverted(rules[FirstFiring(rules, t)].key)
    ensures var i := FirstFiring(rules, t);
      forall j :: 0 <= j < |rules| && !IsInverted(rules[j].key) && IsPrefix(rules[j].key, t) ==>
        |rules[j].key| <= |rules[i].key|
  {
    var i := FirstFiring(rules, t);
    forall j | 0 <= j < |rules| && !IsInverted(rules[j].key) && IsPrefix(rules[j].key, t)
      ensures |rules[j].key| <= |rules[i].key|
    {
      if |rules[j].key| > |rules[i].key| {
        assert Fires(rules[j].key, t);
        assert j > i;
        PrefixesNest(rules[i].key, rules[j].key, t);
        PrefixIsLess(rules[i].key, rules[j].key);
        LessTotal(rules[i].key, rules[j].key);
      }
    }
  }

  /** A key starting with `!` sorts before a key starting with a digit. */
  lemma InvertedBeforeDigit(a: string, b: string)
    requires IsInverted(a) && IsRuleKey(b) && !IsInverted(b)
    ensures Less(a, b)
  {
  }

  /**
   * `!` sorts below every digit, so in descending order every digit rule
   * comes before every inverted rule: an inverted rule fires only when no
   * digit rule does.
   */
  lemma InvertedRulesLast(rules: seq<Rule>, t: string)
    requires DescendingKeys(rules)
    requires forall j :: 0 <= j < |rules| ==> IsRuleKey(rules[j].key)
    requires FirstFiring(rules, t) < |rules|
    requires IsInverted(rules[FirstFiring(rules, t)].key)
    ensures forall j :: 0 <= j < |rules| && !IsInverted(rules[j].key) ==> !Fires(rules[j].key, t)
  {
    var i := FirstFiring(rules, t);
    forall j | 0 <= j < |rules| && !IsInverted(rules[j].key) ensures !Fires(rules[j].key, t) {
      InvertedBeforeDigit(rules[i].key, rules[j].key);
      LessTotal(rules[i].key, rules[j].key);
      assert j < i;
    }
  }

  /** Every key in the rule table is one the constructor keeps. */
  lemma RuleOrderKeys(m: Entries)
    requires forall e :: e in m ==> IsRuleKey(e.0)
    ensures forall j :: 0 <= j < |RuleOrder(m)| ==> IsRuleKey(RuleOrder(m)[j].key)
  {
    forall j | 0 <= j < |RuleOrder(m)| ensures IsRuleKey(RuleOrder(m)[j].key) {
      assert Reverse(m)[j] in m;
    }
  }
}
