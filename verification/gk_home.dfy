/**
 * The gatekeeper's home interfaces (`Toolkit::SetGKHome` / `GetGKHome`).
 * The `Home` setting lists addresses; when the interface table can be read,
 * addresses that are not interfaces are dropped (all interfaces are used
 * when none is left) and so is 0.0.0.0; duplicates go, keeping the first
 * occurrence; and the default address of the route table, when listed, is
 * swapped to the front.
 *
 * The specification functions come first, then the compaction loops of
 * `SetGKHome`, which work on the vector in place with a logical size.
 */
module GKHome {
  import opened PStrings
  import opened Addresses

  /** The separators between the addresses of the `Home` setting. */
  const HomeSeparators := ",:;"

  /** `m_GKHome.push_back(home[n])` for every entry: the addresses the texts name. */
  function ParseAll(home: seq<string>): (r: seq<Address>)
    ensures |r| == |home|
    ensures forall i :: 0 <= i < |home| ==> r[i] == ParseAddress(home[i])
  {
    seq(|home|, i requires 0 <= i < |home| => ParseAddress(home[i]))
  }

  /** The addresses of `s` that are interface addresses, in order. */
  function OnInterfaces(s: seq<Address>, ifs: seq<Address>): (r: seq<Address>)
    ensures |r| <= |s|
    ensures forall x :: x in r <==> x in s && x in ifs
  {
    if s == [] then []
    else
      var init := s[..|s| - 1];
      assert s == init + [s[|s| - 1]];
      var r := OnInterfaces(init, ifs);
      if s[|s| - 1] in ifs then r + [s[|s| - 1]] else r
  }

  /** The addresses of `s` other than 0.0.0.0, in order. */
  function WithoutAny(s: seq<Address>): (r: seq<Address>)
    ensures |r| <= |s|
    ensures forall x :: x in r <==> x in s && x != INADDR_ANY
  {
    if s == [] then []
    else
      var init := s[..|s| - 1];
      assert s == init + [s[|s| - 1]];
      var r := WithoutAny(init);
      if s[|s| - 1] != INADDR_ANY then r + [s[|s| - 1]] else r
  }

  /** No address occurs twice. */
  predicate Distinct(s: seq<Address>) {
    forall i, j :: 0 <= i < j < |s| ==> s[i] != s[j]
  }

  /** The first occurrence of every address of `s`, in order. */
  function Dedup(s: seq<Address>): (r: seq<Address>)
    ensures |r| <= |s|
    ensures forall x :: x in r <==> x in s
    ensures Distinct(r)
  {
    if s == [] then []
    else
      var init := s[..|s| - 1];
      assert s == init + [s[|s| - 1]];
      var r := Dedup(init);
      if s[|s| - 1] in r then r else r + [s[|s| - 1]]
  }

  /** What survives the interface checks: none without an interface table. */
  function Validated(parsed: seq<Address>, interfaces: Option<seq<Address>>): seq<Address> {
    match interfaces
    case None => parsed
    case Some(ifs) =>
      var kept := OnInterfaces(parsed, ifs);
      WithoutAny(if kept == [] then ifs else kept)
  }

  /** The position of the first occurrence of `x`: `std::find`. */
  function IndexOf(s: seq<Address>, x: Address): (k: nat)
    requires x in s
    ensures k < |s| && s[k] == x
    ensures forall j :: 0 <= j < k ==> s[j] != x
  {
    if s[0] == x then 0 else 1 + IndexOf(s[1..], x)
  }

  /** `swap(m_GKHome[0], *find(..., x))` when `x` occurs. */
  function PutFirst(s: seq<Address>, x: Address): seq<Address> {
    if x in s then
      var k := IndexOf(s, x);
      s[0 := s[k]][k := s[0]]
    else s
  }

  /** The list `SetGKHome` leaves, given the interface table (none when it cannot be read) and the default address. */
  function HomeList(home: seq<string>, interfaces: Option<seq<Address>>, defAddr: Address): seq<Address> {
    PutFirst(Dedup(Validated(ParseAll(home), interfaces)), defAddr)
  }

  // ---- what SetGKHome promises --------------------------------------------

  /** Swapping two positions keeps every address as often as before. */
  lemma SwapMultiset(s: seq<Address>, k: nat)
    requires k < |s|
    ensures multiset(s[0 := s[k]][k := s[0]]) == multiset(s)
  {
    var t := s[0 := s[k]];
    assert multiset(t) == multiset(s) - multiset{s[0]} + multiset{s[k]};
    assert t[k] == s[k];
    assert multiset(t[k := s[0]]) == multiset(t) - multiset{s[k]} + multiset{s[0]};
  }

  /** Swapping two positions keeps a list free of duplicates. */
  lemma SwapDistinct(s: seq<Address>, k: nat)
    requires k < |s| && Distinct(s)
    ensures Distinct(s[0 := s[k]][k := s[0]])
  {
    var r := s[0 := s[k]][k := s[0]];
    forall i, j | 0 <= i < j < |r| ensures r[i] != r[j] {
      var si := if i == k then 0 else if i == 0 then k else i;
      var sj := if j == k then 0 else if j == 0 then k else j;
      assert r[i] == s[si] && r[j] == s[sj];
    }
  }

  /** The swap moves `x` to the front and keeps the same addresses, each as often as before. */
  lemma PutFirstFacts(s: seq<Address>, x: Address)
    ensures |PutFirst(s, x)| == |s|
    ensures multiset(PutFirst(s, x)) == multiset(s)
    ensures x in s ==> PutFirst(s, x)[0] == x
    ensures Distinct(s) ==> Distinct(PutFirst(s, x))
  {
    if x in s {
      var k := IndexOf(s, x);
      SwapMultiset(s, k);
      if Distinct(s) {
        SwapDistinct(s, k);
      }
    }
  }

  /** No listed address is an interface: nothing is kept. */
  lemma {:induction false} NoneOnInterfaces(s: seq<Address>, ifs: seq<Address>)
    requires forall a :: a in s ==> a !in ifs
    ensures OnInterfaces(s, ifs) == []
  {
    if s != [] {
      NoneOnInterfaces(s[..|s| - 1], ifs);
      assert s[|s| - 1] in s;
    }
  }

  /** The home list never holds an address twice. */
  lemma HomeListDistinct(home: seq<string>, interfaces: Option<seq<Address>>, defAddr: Address)
    ensures Distinct(HomeList(home, interfaces, defAddr))
  {
    PutFirstFacts(Dedup(Validated(ParseAll(home), interfaces)), defAddr);
  }

  /** When the default address is a home address, it comes first. */
  lemma HomeListDefaultFirst(home: seq<string>, interfaces: Option<seq<Address>>, defAddr: Address)
    ensures defAddr in HomeList(home, interfaces, defAddr) ==> HomeList(home, interfaces, defAddr)[0] == defAddr
  {
    var d := Dedup(Validated(ParseAll(home), interfaces));
    PutFirstFacts(d, defAddr);
    assert defAddr in PutFirst(d, defAddr) ==> defAddr in multiset(d);
  }

  /** The home list holds exactly the addresses that pass the checks. */
  lemma HomeListMembers(home: seq<string>, interfaces: Option<seq<Address>>, defAddr: Address, x: Address)
    ensures x in HomeList(home, interfaces, defAddr) <==> x in Validated(ParseAll(home), interfaces)
  {
    var d := Dedup(Validated(ParseAll(home), interfaces));
    PutFirstFacts(d, defAddr);
    assert x in HomeList(home, interfaces, defAddr) <==> x in multiset(d);
  }

  /**
   * With an interface table, a home address is a listed interface address
   * that is not 0.0.0.0, or, when no listed address is an interface, any
   * interface address but 0.0.0.0.
   */
  lemma HomeListOnInterfaces(home: seq<string>, ifs: seq<Address>, defAddr: Address, x: Address)
    ensures var listed := ParseAll(home);
      (exists a :: a in listed && a in ifs) ==>
        (x in HomeList(home, Some(ifs), defAddr) <==> x in listed && x in ifs && x != INADDR_ANY)
    ensures var listed := ParseAll(home);
      (forall a :: a in listed ==> a !in ifs) ==>
        (x in HomeList(home, Some(ifs), defAddr) <==> x in ifs && x != INADDR_ANY)
  {
    HomeListMembers(home, Some(ifs), defAddr, x);
    var kept := OnInterfaces(ParseAll(home), ifs);
    if exists a :: a in ParseAll(home) && a in ifs {
      var a :| a in ParseAll(home) && a in ifs;
      assert a in kept;
    } else {
      NoneOnInterfaces(ParseAll(home), ifs);
    }
  }

  /** Without an interface table, every listed address stays. */
  lemma HomeListWithoutInterfaces(home: seq<string>, defAddr: Address, x: Address)
    ensures x in HomeList(home, None, defAddr) <==> exists i :: 0 <= i < |home| && ParseAddress(home[i]) == x
  {
    HomeListMembers(home, None, defAddr, x);
    var listed := ParseAll(home);
    if x in listed {
      var i :| 0 <= i < |listed| && listed[i] == x;
      assert ParseAddress(home[i]) == x;
    }
  }

  /** The texts of the addresses, in order. */
  function AddressTexts(h: seq<Address>): (r: seq<string>)
    ensures |r| == |h|
    ensures forall i :: 0 <= i < |h| ==> r[i] == AddressText(h[i])
  {
    seq(|h|, i requires 0 <= i < |h| => AddressText(h[i]))
  }

  /** What `GetGKHome` returns: the addresses' texts separated by commas. */
  function HomeText(h: seq<Address>): string {
    Join(AddressTexts(h), ',')
  }

  /** Read back as a `Home` setting, the text `GetGKHome` returns names the same addresses in the same order. */
  lemma HomeTextRoundTrip(h: seq<Address>)
    ensures ParseAll(Tokenise(HomeText(h), HomeSeparators, false)) == h
  {
    var xs := AddressTexts(h);
    forall i | 0 <= i < |xs| ensures xs[i] != "" && NoneOf(xs[i], HomeSeparators) {
      AddressTextChars(h[i]);
    }
    TokeniseOfJoin(xs, ',', HomeSeparators);
    forall i | 0 <= i < |h| ensures ParseAddress(xs[i]) == h[i] {
      ParseAddressText(h[i]);
    }
  }

  /** A list without duplicates is its own deduplication. */
  lemma {:induction false} DedupOfDistinct(s: seq<Address>)
    requires Distinct(s)
    ensures Dedup(s) == s
  {
    if s != [] {
      var init := s[..|s| - 1];
      DedupOfDistinct(init);
      assert s[|s| - 1] !in init;
      assert s == init + [s[|s| - 1]];
    }
  }

  /** A list of interface addresses keeps all of them. */
  lemma {:induction false} OnInterfacesOfInterfaces(s: seq<Address>, ifs: seq<Address>)
    requires forall x :: x in s ==> x in ifs
    ensures OnInterfaces(s, ifs) == s
  {
    if s != [] {
      var init := s[..|s| - 1];
      OnInterfacesOfInterfaces(init, ifs);
      assert s[|s| - 1] in s;
      assert s == init + [s[|s| - 1]];
    }
  }

  /** A list without 0.0.0.0 keeps all its addresses. */
  lemma {:induction false} WithoutAnyOfNone(s: seq<Address>)
    requires INADDR_ANY !in s
    ensures WithoutAny(s) == s
  {
    if s != [] {
      var init := s[..|s| - 1];
      WithoutAnyOfNone(init);
      assert s == init + [s[|s| - 1]];
    }
  }

  /** A list that already starts with `x`, or lacks it, is left alone by the swap. */
  lemma PutFirstOfFront(s: seq<Address>, x: Address)
    requires x in s ==> s[0] == x
    ensures PutFirst(s, x) == s
  {
    if x in s {
      assert IndexOf(s, x) == 0;
    }
  }

  /** A home list passes the checks of its own interface table unchanged, unless they left it empty. */
  lemma ValidatedHomeList(home: seq<string>, interfaces: Option<seq<Address>>, defAddr: Address)
    requires interfaces.None? || HomeList(home, interfaces, defAddr) != []
    ensures Validated(HomeList(home, interfaces, defAddr), interfaces) == HomeList(home, interfaces, defAddr)
  {
    var h := HomeList(home, interfaces, defAddr);
    if interfaces.Some? {
      var ifs := interfaces.value;
      forall x | x in h ensures x in ifs && x != INADDR_ANY {
        HomeListOnInterfaces(home, ifs, defAddr, x);
      }
      OnInterfacesOfInterfaces(h, ifs);
      WithoutAnyOfNone(h);
    }
  }

  /**
   * Setting the home list again from the text `GetGKHome` prints leaves it
   * as it is, unless the interface checks left it empty.
   */
  lemma HomeListStable(home: seq<string>, interfaces: Option<seq<Address>>, defAddr: Address)
    requires interfaces.None? || HomeList(home, interfaces, defAddr) != []
    ensures var h := HomeList(home, interfaces, defAddr);
      HomeList(Tokenise(HomeText(h), HomeSeparators, false), interfaces, defAddr) == h
  {
    var h := HomeList(home, interfaces, defAddr);
    var t := Tokenise(HomeText(h), HomeSeparators, false);
    HomeTextRoundTrip(h);
    ValidatedHomeList(home, interfaces, defAddr);
    assert Validated(ParseAll(t), interfaces) == h;
    HomeListDistinct(home, interfaces, defAddr);
    DedupOfDistinct(h);
    HomeListDefaultFirst(home, interfaces, defAddr);
    PutFirstOfFront(h, defAddr);
  }

  // ---- the compaction loops of SetGKHome ----------------------------------

  /**
   * `copy(begin + n + 1, begin + size, begin + n)`: the elements after `n`
   * move one place down; the vector keeps its length, and its last logical
   * element stays where it was.
   */
  function ShiftDown(v: seq<Address>, n: nat, size: nat): (r: seq<Address>)
    requires n < size <= |v|
    ensures |r| == |v|
    ensures r[..size - 1] == v[..n] + v[n + 1..size]
  {
    v[..n] + v[n + 1..size] + v[size - 1..]
  }

  /** What `copy` does, position by position: before `n` nothing moves, up to `size - 1` each entry comes from the next one, and the tail stays. */
  lemma ShiftDownCopy(v: seq<Address>, n: nat, size: nat)
    requires n < size <= |v|
    ensures forall j :: 0 <= j < n ==> ShiftDown(v, n, size)[j] == v[j]
    ensures forall j :: n <= j < size - 1 ==> ShiftDown(v, n, size)[j] == v[j + 1]
    ensures ShiftDown(v, n, size)[size - 1..] == v[size - 1..]
  {
    var r := ShiftDown(v, n, size);
    assert r == v[..n] + v[n + 1..size] + v[size - 1..];
    forall j | n <= j < size - 1
      ensures r[j] == v[j + 1]
    {
      assert r[j] == v[n + 1..size][j - n];
    }
    assert |v[..n] + v[n + 1..size]| == size - 1;
  }

  /** Dropping position `n` keeps what comes before it and moves up what follows. */
  lemma ShiftDownParts(w: seq<Address>, n: nat, size: nat, v: seq<Address>, k: nat, vsize: nat)
    requires n < size <= |w| && k <= vsize <= |v| && w[n..size] == v[k..vsize]
    ensures ShiftDown(w, n, size)[..n] == w[..n]
    ensures ShiftDown(w, n, size)[n..size - 1] == v[k + 1..vsize]
  {
    var r := ShiftDown(w, n, size);
    assert r[..size - 1] == w[..n] + w[n + 1..size];
    assert r[..n] == r[..size - 1][..n];
    assert r[n..size - 1] == r[..size - 1][n..];
    assert w[n + 1..size] == w[n..size][1..];
  }

  /** Keeping position `n`: what follows it still matches. */
  lemma KeepParts(w: seq<Address>, n: nat, size: nat, v: seq<Address>, k: nat, vsize: nat)
    requires n < size <= |w| && k <= vsize <= |v| && w[n..size] == v[k..vsize]
    ensures w[n] == v[k]
    ensures w[..n + 1] == w[..n] + [w[n]]
    ensures w[n + 1..size] == v[k + 1..vsize]
  {
    assert w[n + 1..size] == w[n..size][1..];
    assert v[k + 1..vsize] == v[k..vsize][1..];
    assert w[n] == w[n..size][0];
  }

  /** One more entry is kept exactly when it is an interface address. */
  lemma OnInterfacesStep(v: seq<Address>, k: nat, ifs: seq<Address>)
    requires k < |v|
    ensures OnInterfaces(v[..k + 1], ifs) ==
      if v[k] in ifs then OnInterfaces(v[..k], ifs) + [v[k]] else OnInterfaces(v[..k], ifs)
  {
    assert v[..k + 1][..k] == v[..k];
  }

  /** One more entry is kept exactly when it is not 0.0.0.0. */
  lemma WithoutAnyStep(v: seq<Address>, k: nat)
    requires k < |v|
    ensures WithoutAny(v[..k + 1]) == if v[k] != INADDR_ANY then WithoutAny(v[..k]) + [v[k]] else WithoutAny(v[..k])
  {
    assert v[..k + 1][..k] == v[..k];
  }

  /** A step of `DropOffInterfaces` that keeps position `n`, an interface address. */
  lemma OnInterfacesKeep(w: seq<Address>, n: nat, size: nat, v: seq<Address>, k: nat, vsize: nat, ifs: seq<Address>)
    requires n < size <= |w| && k < vsize <= |v|
    requires w[..n] == OnInterfaces(v[..k], ifs) && w[n..size] == v[k..vsize]
    requires w[n] in ifs
    ensures w[..n + 1] == OnInterfaces(v[..k + 1], ifs) && w[n + 1..size] == v[k + 1..vsize]
  {
    KeepParts(w, n, size, v, k, vsize);
    OnInterfacesStep(v, k, ifs);
  }

  /** A step of `DropOffInterfaces` that removes position `n`, not an interface address. */
  lemma OnInterfacesDrop(w: seq<Address>, n: nat, size: nat, v: seq<Address>, k: nat, vsize: nat, ifs: seq<Address>)
    requires n < size <= |w| && k < vsize <= |v|
    requires w[..n] == OnInterfaces(v[..k], ifs) && w[n..size] == v[k..vsize]
    requires w[n] !in ifs
    ensures ShiftDown(w, n, size)[..n] == OnInterfaces(v[..k + 1], ifs)
    ensures ShiftDown(w, n, size)[n..size - 1] == v[k + 1..vsize]
  {
    KeepParts(w, n, size, v, k, vsize);
    OnInterfacesStep(v, k, ifs);
    ShiftDownParts(w, n, size, v, k, vsize);
  }

  /** A step of `DropAny` that keeps position `n`, not 0.0.0.0. */
  lemma WithoutAnyKeep(w: seq<Address>, n: nat, size: nat, v: seq<Address>, k: nat, vsize: nat)
    requires n < size <= |w| && k < vsize <= |v|
    requires w[..n] == WithoutAny(v[..k]) && w[n..size] == v[k..vsize]
    requires w[n] != INADDR_ANY
    ensures w[..n + 1] == WithoutAny(v[..k + 1]) && w[n + 1..size] == v[k + 1..vsize]
  {
    KeepParts(w, n, size, v, k, vsize);
    WithoutAnyStep(v, k);
  }

  /** A step of `DropAny` that removes position `n`, a 0.0.0.0. */
  lemma WithoutAnyDrop(w: seq<Address>, n: nat, size: nat, v: seq<Address>, k: nat, vsize: nat)
    requires n < size <= |w| && k < vsize <= |v|
    requires w[..n] == WithoutAny(v[..k]) && w[n..size] == v[k..vsize]
    requires w[n] == INADDR_ANY
    ensures ShiftDown(w, n, size)[..n] == WithoutAny(v[..k + 1])
    ensures ShiftDown(w, n, size)[n..size - 1] == v[k + 1..vsize]
  {
    KeepParts(w, n, size, v, k, vsize);
    WithoutAnyStep(v, k);
    ShiftDownParts(w, n, size, v, k, vsize);
  }

  /** One more entry is kept exactly when it has not been kept already. */
  lemma DedupStep(v: seq<Address>, k: nat)
    requires k < |v|
    ensures Dedup(v[..k + 1]) == if v[k] in Dedup(v[..k]) then Dedup(v[..k]) else Dedup(v[..k]) + [v[k]]
  {
    assert v[..k + 1][..k] == v[..k];
  }

  /** A step of `DropDuplicates` that keeps position `n`, a first occurrence. */
  lemma DedupKeep(w: seq<Address>, n: nat, size: nat, v: seq<Address>, k: nat, vsize: nat)
    requires n < size <= |w| && k < vsize <= |v|
    requires w[..n] == Dedup(v[..k]) && w[n..size] == v[k..vsize]
    requires w[n] !in w[..n]
    ensures w[..n + 1] == Dedup(v[..k + 1]) && w[n + 1..size] == v[k + 1..vsize]
  {
    KeepParts(w, n, size, v, k, vsize);
    DedupStep(v, k);
  }

  /** A step of `DropDuplicates` that removes position `n`, a repeat. */
  lemma DedupDrop(w: seq<Address>, n: nat, size: nat, v: seq<Address>, k: nat, vsize: nat)
    requires n < size <= |w| && k < vsize <= |v|
    requires w[..n] == Dedup(v[..k]) && w[n..size] == v[k..vsize]
    requires w[n] in w[..n]
    ensures ShiftDown(w, n, size)[..n] == Dedup(v[..k + 1])
    ensures ShiftDown(w, n, size)[n..size - 1] == v[k + 1..vsize]
  {
    KeepParts(w, n, size, v, k, vsize);
    DedupStep(v, k);
    ShiftDownParts(w, n, size, v, k, vsize);
  }

  /** The search through the interface table: the index of `x`, or `|ifs|` when it is not there. */
  method FindAddress(x: Address, ifs: seq<Address>) returns (i: nat)
    ensures i <= |ifs|
    ensures i == |ifs| <==> x !in ifs
    ensures i < |ifs| ==> ifs[i] == x
  {
    i := 0;
    while i < |ifs| && x != ifs[i]
      invariant 0 <= i <= |ifs|
      invariant forall j :: 0 <= j < i ==> ifs[j] != x
    {
      i := i + 1;
    }
  }

  /** "check if the interface is valid": the first `size` entries, keeping the interface addresses. */
  method DropOffInterfaces(v: seq<Address>, size: nat, ifs: seq<Address>) returns (w: seq<Address>, newSize: nat)
    requires size <= |v|
    ensures |w| == |v| && newSize <= size
    ensures w[..newSize] == OnInterfaces(v[..size], ifs)
  {
    w, newSize := v, size;
    var n: int := 0;
    ghost var k := 0;
    while n < newSize
      invariant 0 <= n <= newSize <= size && |w| == |v|
      invariant k == n + (size - newSize)
      invariant w[..n] == OnInterfaces(v[..k], ifs)
      invariant w[n..newSize] == v[k..size]
      decreases newSize - n
    {
      var i := FindAddress(w[n], ifs);
      if i == |ifs| {
        OnInterfacesDrop(w, n, newSize, v, k, size, ifs);
        w := ShiftDown(w, n, newSize);
        newSize, n := newSize - 1, n - 1;
      } else {
        OnInterfacesKeep(w, n, newSize, v, k, size, ifs);
      }
      n, k := n + 1, k + 1;
    }
    assert v[..k] == v[..size];
  }

  /** "remove INADDR_ANY" from the first `size` entries. */
  method DropAny(v: seq<Address>, size: nat) returns (w: seq<Address>, newSize: nat)
    requires size <= |v|
    ensures |w| == |v| && newSize <= size
    ensures w[..newSize] == WithoutAny(v[..size])
  {
    w, newSize := v, size;
    var n: int := 0;
    ghost var k := 0;
    while n < newSize
      invariant 0 <= n <= newSize <= size && |w| == |v|
      invariant k == n + (size - newSize)
      invariant w[..n] == WithoutAny(v[..k])
      invariant w[n..newSize] == v[k..size]
      decreases newSize - n
    {
      if w[n] == INADDR_ANY {
        WithoutAnyDrop(w, n, newSize, v, k, size);
        w := ShiftDown(w, n, newSize);
        newSize, n := newSize - 1, n - 1;
      } else {
        WithoutAnyKeep(w, n, newSize, v, k, size);
      }
      n, k := n + 1, k + 1;
    }
    assert v[..k] == v[..size];
  }

  /** "remove duplicate interfaces" among the first `size` entries, keeping each first occurrence. */
  method DropDuplicates(v: seq<Address>, size: nat) returns (w: seq<Address>, newSize: nat)
    requires size <= |v|
    ensures |w| == |v| && newSize <= size
    ensures w[..newSize] == Dedup(v[..size])
  {
    w, newSize := v, size;
    var n: int := 0;
    ghost var k := 0;
    while n < newSize
      invariant 0 <= n <= newSize <= size && |w| == |v|
      invariant k == n + (size - newSize)
      invariant w[..n] == Dedup(v[..k])
      invariant w[n..newSize] == v[k..size]
      decreases newSize - n
    {
      var i := FindAddress(w[n], w[..n]);
      if i < n {
        DedupDrop(w, n, newSize, v, k, size);
        w := ShiftDown(w, n, newSize);
        newSize, n := newSize - 1, n - 1;
      } else {
        DedupKeep(w, n, newSize, v, k, size);
      }
      n, k := n + 1, k + 1;
    }
    assert v[..k] == v[..size];
  }

  /** `m_GKHome.push_back(home[n])` for every entry of the setting. */
  method PushAll(home: seq<string>) returns (v: seq<Address>)
    ensures v == ParseAll(home)
  {
    v := [];
    for n := 0 to |home|
      invariant |v| == n
      invariant forall j :: 0 <= j < n ==> v[j] == ParseAddress(home[j])
    {
      v := v + [ParseAddress(home[n])];
    }
  }

  /**
   * The checks `SetGKHome` makes when the interface table can be read: keep
   * the interface addresses, fall back on all interfaces when none is left,
   * and remove 0.0.0.0.
   */
  method CheckInterfaces(v: seq<Address>, it: seq<Address>) returns (w: seq<Address>, size: nat)
    ensures size <= |w|
    ensures w[..size] == Validated(v, Some(it))
  {
    w, size := v, |v|;
    assert w[..size] == v;
    if size > 0 {
      // keep only the listed addresses that belong to an interface
      w, size := DropOffInterfaces(w, size, it);
    }
    ghost var kept := OnInterfaces(v, it);
    assert w[..size] == kept;
    if size == 0 {
      // none of them does: fall back to every interface address
      w, size := it, |it|;
      assert w[..size] == it;
    }
    // 0.0.0.0 is never a home address
    w, size := DropAny(w, size);
  }

  /** `swap(m_GKHome[0], *find(..., x))`, when `x` is found. */
  method PutDefaultFirst(v: seq<Address>, x: Address) returns (w: seq<Address>)
    ensures w == PutFirst(v, x)
  {
    w := v;
    var k := 0;
    while k < |w| && w[k] != x
      invariant 0 <= k <= |w|
      invariant forall j :: 0 <= j < k ==> w[j] != x
    {
      k := k + 1;
    }
    if k < |w| {
      ghost var f := IndexOf(w, x);
      assert !(f < k);
      assert !(f > k);
      w := w[0 := w[k]][k := w[0]];
    }
  }
}
