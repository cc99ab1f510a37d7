/**
 * `std::map<PString, PString>` as the Toolkit uses it: an association list
 * kept in ascending key order under `PString::operator<`, where assigning
 * `rules[key] = value` inserts a new key in its place or overwrites the
 * value of an existing one, and iteration (forward or reverse) visits the
 * keys in order.
 */
module OrderedMap {
  import opened PStrings

  /** `PString::operator<`: `strcmp` order, character by character, a proper prefix first. */
  predicate Less(a: string, b: string) {
    if a == [] then b != []
    else if b == [] then false
    else a[0] < b[0] || (a[0] == b[0] && Less(a[1..], b[1..]))
  }

  lemma {:induction false} LessIrreflexive(a: string)
    ensures !Less(a, a)
  {
    if a != [] {
      LessIrreflexive(a[1..]);
    }
  }

  lemma {:induction false} LessTransitive(a: string, b: string, c: string)
    requires Less(a, b) && Less(b, c)
    ensures Less(a, c)
  {
    if a != [] && b != [] && c != [] && a[0] == b[0] == c[0] {
      LessTransitive(a[1..], b[1..], c[1..]);
    }
  }

  /** Any two different strings are ordered one way or the other, and only one way. */
  lemma {:induction false} LessTotal(a: string, b: string)
    ensures a != b ==> Less(a, b) || Less(b, a)
    ensures !(Less(a, b) && Less(b, a))
  {
    if a != [] && b != [] && a[0] == b[0] {
      LessTotal(a[1..], b[1..]);
      if a != b {
        assert a == [a[0]] + a[1..] && b == [b[0]] + b[1..];
      }
    }
  }

  type Entries = seq<(string, string)>

  /** Keys strictly increase: the order of a `std::map`. */
  predicate Ascending(m: Entries) {
    forall i, j :: 0 <= i < j < |m| ==> Less(m[i].0, m[j].0)
  }

  /** Keys strictly decrease: the order of a reverse iteration over a `std::map`. */
  predicate Descending(m: Entries) {
    forall i, j :: 0 <= i < j < |m| ==> Less(m[j].0, m[i].0)
  }

  /** The key-to-value mapping an association list stands for. */
  function ToMap(m: Entries): map<string, string> {
    if m == [] then map[] else ToMap(m[1..])[m[0].0 := m[0].1]
  }

  lemma {:induction false} ToMapKeys(m: Entries)
    ensures ToMap(m).Keys == set e | e in m :: e.0
  {
    if m != [] {
      ToMapKeys(m[1..]);
      assert (set e | e in m :: e.0) == (set e | e in m[1..] :: e.0) + {m[0].0} by {
        assert m == [m[0]] + m[1..];
      }
    }
  }

  /** In a list with distinct keys, each entry is what the mapping says for its key. */
  lemma {:induction false} ToMapAt(m: Entries, i: nat)
    requires Ascending(m) && i < |m|
    ensures m[i].0 in ToMap(m) && ToMap(m)[m[i].0] == m[i].1
  {
    if i > 0 {
      ToMapAt(m[1..], i - 1);
      assert Less(m[0].0, m[i].0);
      LessIrreflexive(m[0].0);
    }
  }

  /** `m[k] = v` on a `std::map`. */
  function Insert(m: Entries, k: string, v: string): Entries {
    if m == [] then [(k, v)]
    else if k == m[0].0 then [(k, v)] + m[1..]
    else if Less(k, m[0].0) then [(k, v)] + m
    else [m[0]] + Insert(m[1..], k, v)
  }

  /** Inserting adds the new entry and keeps only old entries besides it. */
  lemma {:induction false} InsertEntries(m: Entries, k: string, v: string)
    ensures (k, v) in Insert(m, k, v)
    ensures forall e :: e in Insert(m, k, v) ==> e == (k, v) || e in m
  {
    if m != [] && k != m[0].0 && !Less(k, m[0].0) {
      InsertEntries(m[1..], k, v);
    }
  }

  /** Inserting keeps a `std::map` in ascending key order. */
  lemma {:induction false} InsertAscending(m: Entries, k: string, v: string)
    requires Ascending(m)
    ensures Ascending(Insert(m, k, v))
  {
    if m == [] || k == m[0].0 {
    } else if Less(k, m[0].0) {
      forall j | 0 < j < |m| ensures Less(k, m[j].0) {
        LessTransitive(k, m[0].0, m[j].0);
      }
    } else {
      LessTotal(k, m[0].0);
      var rest := Insert(m[1..], k, v);
      InsertAscending(m[1..], k, v);
      InsertEntries(m[1..], k, v);
      forall j | 0 <= j < |rest| ensures Less(m[0].0, rest[j].0) {
        assert rest[j] in rest;
        if rest[j] != (k, v) {
          var p :| 0 <= p < |m[1..]| && m[1..][p] == rest[j];
          assert m[p + 1] == rest[j];
        }
      }
      var r := [m[0]] + rest;
      assert forall i, j :: 0 <= i < j < |r| ==> Less(r[i].0, r[j].0) by {
        forall i, j | 0 <= i < j < |r| ensures Less(r[i].0, r[j].0) {
          if i == 0 {
            assert r[j] == rest[j - 1];
          } else {
            assert r[i] == rest[i - 1] && r[j] == rest[j - 1];
          }
        }
      }
    }
  }

  /** Inserting maps the key to the new value and leaves every other key as it was. */
  lemma {:induction false} InsertToMap(m: Entries, k: string, v: string)
    ensures ToMap(Insert(m, k, v)) == ToMap(m)[k := v]
  {
    if m != [] && k != m[0].0 && !Less(k, m[0].0) {
      InsertToMap(m[1..], k, v);
      var r := Insert(m, k, v);
      assert r[1..] == Insert(m[1..], k, v);
    }
  }

  /** `m` read backwards, as a reverse iterator visits it. */
  function Reverse(m: Entries): (r: Entries)
    ensures |r| == |m|
    ensures forall i :: 0 <= i < |m| ==> r[i] == m[|m| - 1 - i]
  {
    if m == [] then [] else Reverse(m[1..]) + [m[0]]
  }

  /** Reverse iteration over a `std::map` visits its keys in descending order. */
  lemma ReverseDescending(m: Entries)
    requires Ascending(m)
    ensures Descending(Reverse(m))
  {
  }

  /** The mapping built by assigning `m[k] = v` for each pair in turn. */
  function FromPairs(ps: seq<(string, string)>): (m: Entries)
    ensures Ascending(m)
    ensures forall e :: e in m ==> e in ps
  {
    if ps == [] then []
    else
      var init := FromPairs(ps[..|ps| - 1]);
      var p := ps[|ps| - 1];
      InsertAscending(init, p.0, p.1);
      InsertEntries(init, p.0, p.1);
      Insert(init, p.0, p.1)
  }

  /** The value of the last pair with key `k`, scanning the pairs directly. */
  function LastValue(ps: seq<(string, string)>, k: string): Option<string> {
    if ps == [] then None
    else if ps[|ps| - 1].0 == k then Some(ps[|ps| - 1].1)
    else LastValue(ps[..|ps| - 1], k)
  }

  /** The sorted mapping agrees with the direct scan: the last assignment to a key wins. */
  lemma {:induction false} FromPairsMap(ps: seq<(string, string)>, k: string)
    ensures LastValue(ps, k) == if k in ToMap(FromPairs(ps)) then Some(ToMap(FromPairs(ps))[k]) else None
  {
    if ps != [] {
      var p := ps[|ps| - 1];
      FromPairsMap(ps[..|ps| - 1], k);
      InsertToMap(FromPairs(ps[..|ps| - 1]), p.0, p.1);
    }
  }

  /** A key occurs among the pairs exactly when the scan finds a value for it. */
  lemma {:induction false} LastValueFound(ps: seq<(string, string)>, k: string)
    ensures LastValue(ps, k).Some? <==> exists i :: 0 <= i < |ps| && ps[i].0 == k
  {
    if ps != [] {
      var init := ps[..|ps| - 1];
      LastValueFound(init, k);
      if ps[|ps| - 1].0 != k {
        if exists i :: 0 <= i < |ps| && ps[i].0 == k {
          var i :| 0 <= i < |ps| && ps[i].0 == k;
          assert init[i] == ps[i];
        }
      }
    }
  }

  /** An entry of a `std::map` holds the value the mapping has for its key. */
  lemma ToMapMember(m: Entries, e: (string, string))
    requires Ascending(m) && e in m
    ensures e.0 in ToMap(m) && ToMap(m)[e.0] == e.1
  {
    var i :| 0 <= i < |m| && m[i] == e;
    ToMapAt(m, i);
  }
}
