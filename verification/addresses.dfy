/**
 * IPv4 addresses and network/mask pairs as `Toolkit` sees them
 * (`PIPSocket::Address` and `Toolkit::GetNetworkFromString`), and the other
 * static reader of configuration values, `Toolkit::AsBool`.
 *
 * An address is kept as its four octets, first octet first, so that a
 * CIDR prefix `/n` is "the first n bits" whatever the host byte order.
 */
module Addresses {
  import opened PStrings

  /** An IPv4 address `o0.o1.o2.o3`. */
  datatype Address = Address(o0: bv8, o1: bv8, o2: bv8, o3: bv8) {
    /** `*this & m`, octet by octet. */
    function And(m: Address): Address {
      Address(o0 & m.o0, o1 & m.o1, o2 & m.o2, o3 & m.o3)
    }

    /** Octet `q` (0 is the first). */
    function Octet(q: nat): bv8
      requires q < 4
    {
      if q == 0 then o0 else if q == 1 then o1 else if q == 2 then o2 else o3
    }

    /** Bit `i` of the address, counting from the most significant bit of the first octet. */
    predicate Bit(i: nat)
      requires i < 32
    {
      OctetBit(Octet(i / 8), i % 8)
    }
  }

  /** `INADDR_ANY`, 0.0.0.0. */
  const INADDR_ANY := Address(0, 0, 0, 0)

  /** `DWORD(~0)`, 255.255.255.255. */
  const ALL_ONES := Address(0xFF, 0xFF, 0xFF, 0xFF)

  /** Bit `j` of an octet, 0 being the most significant. */
  predicate OctetBit(o: bv8, j: nat)
    requires j < 8
  {
    o & (0x80 >> j) != 0
  }

  /** The octet whose first `j` bits are set and whose other bits are clear. */
  function OctetMask(j: nat): (r: bv8)
    requires j <= 8
    ensures forall k :: 0 <= k < 8 ==> (OctetBit(r, k) <==> k < j)
  {
    if j == 0 then 0x00 else if j == 1 then 0x80 else if j == 2 then 0xC0
    else if j == 3 then 0xE0 else if j == 4 then 0xF0 else if j == 5 then 0xF8
    else if j == 6 then 0xFC else if j == 7 then 0xFE else 0xFF
  }

  function Clamp8(x: int): (r: nat)
    ensures r <= 8
  {
    if x <= 0 then 0 else if x >= 8 then 8 else x
  }

  /** The mask whose first `n` bits are set: `Host2Net(~(DWORD(~0) >> n))` for `n` in 0..32. */
  function PrefixMask(n: nat): (r: Address)
    requires n <= 32
    ensures forall i :: 0 <= i < 32 ==> (r.Bit(i) <==> i < n)
  {
    var r := Address(OctetMask(Clamp8(n)), OctetMask(Clamp8(n - 8)),
                     OctetMask(Clamp8(n - 16)), OctetMask(Clamp8(n - 24)));
    assert forall i :: 0 <= i < 32 ==> (r.Bit(i) <==> i % 8 < Clamp8(n - 8 * (i / 8)));
    r
  }

  /**
   * The netmask `Toolkit::GetNetworkFromString` computes for `/n` AS WRITTEN:
   * `DWORD(~0) >> n` shifts a 32-bit value, which C leaves undefined for
   * `n` outside 0..31; x86 processors use only the low five bits of the
   * count, so the mask has the first `n mod 32` bits set.
   */
  function CidrMaskAsWritten(n: int): Address {
    PrefixMask(n % 32)
  }

  /** The netmask `/n` evidently stands for: the first `n` bits, `n` clamped to 0..32. */
  function CidrMask(n: int): (r: Address)
    ensures 0 <= n <= 32 ==> forall i :: 0 <= i < 32 ==> (r.Bit(i) <==> i < n)
    ensures n >= 32 ==> r == ALL_ONES
    ensures n <= 0 ==> r == INADDR_ANY
  {
    if n <= 0 then INADDR_ANY else if n >= 32 then ALL_ONES else PrefixMask(n)
  }

  /** Under the source's shift, a host route `/32` gets the empty mask, which every address matches. */
  lemma HostRouteMaskAsWritten()
    ensures CidrMaskAsWritten(32) == INADDR_ANY
    ensures forall ip: Address :: ip.And(CidrMaskAsWritten(32)) == INADDR_ANY
  {
  }

  /** With the intended mask, a host route `/32` matches its own address only. */
  lemma HostRouteMask(net: Address)
    ensures CidrMask(32) == ALL_ONES
    ensures forall ip: Address :: ip.And(CidrMask(32)) == net.And(CidrMask(32)) <==> ip == net
  {
  }

  // ---- decimal text -------------------------------------------------------

  function DigitValue(c: char): nat
    requires IsDigit(c)
  {
    c as int - '0' as int
  }

  function DigitChar(d: nat): (c: char)
    requires d < 10
    ensures IsDigit(c) && DigitValue(c) == d
  {
    ('0' as int + d) as char
  }

  predicate AllDigits(s: string) {
    forall i :: 0 <= i < |s| ==> IsDigit(s[i])
  }

  /** The value of a string of decimal digits. */
  function DecimalValue(s: string): nat
    requires AllDigits(s)
  {
    if s == [] then 0 else DecimalValue(s[..|s| - 1]) * 10 + DigitValue(s[|s| - 1])
  }

  /** `n` written in decimal without leading zeros. */
  function Decimal(n: nat): (s: string)
    ensures s != [] && AllDigits(s)
    ensures n < 10 ==> |s| == 1
    ensures n < 100 ==> |s| <= 2
    ensures n < 1000 ==> |s| <= 3
  {
    if n < 10 then [DigitChar(n)] else Decimal(n / 10) + [DigitChar(n % 10)]
  }

  lemma {:induction false} DecimalValueOfDecimal(n: nat)
    ensures DecimalValue(Decimal(n)) == n
  {
    if n >= 10 {
      var s := Decimal(n);
      assert s[..|s| - 1] == Decimal(n / 10);
      DecimalValueOfDecimal(n / 10);
    }
  }

  /**
   * `PString::AsInteger()` (C `strtol` in base 10): leading white space is
   * skipped, then an optional sign, then the longest run of digits; no
   * digits give 0.
   */
  function AsInteger(s: string): int {
    if s != [] && IsSpace(s[0]) then AsInteger(s[1..])
    else if s != [] && s[0] == '-' then -(DecimalValue(LeadingDigits(s[1..])) as int)
    else if s != [] && s[0] == '+' then DecimalValue(LeadingDigits(s[1..]))
    else DecimalValue(LeadingDigits(s))
  }

  /** C `isspace` in the "C" locale: space, and tab through carriage return. */
  predicate IsSpace(c: char) {
    c == ' ' || '\t' <= c <= '\r'
  }

  /** The longest prefix of `s` made of digits. */
  function LeadingDigits(s: string): (r: string)
    ensures AllDigits(r) && IsPrefix(r, s)
  {
    if s != [] && IsDigit(s[0]) then [s[0]] + LeadingDigits(s[1..]) else ""
  }

  lemma {:induction false} LeadingDigitsOfDigits(s: string)
    requires AllDigits(s)
    ensures LeadingDigits(s) == s
  {
    if s != [] {
      LeadingDigitsOfDigits(s[1..]);
    }
  }

  /** The decimal text of a number reads back as that number. */
  lemma AsIntegerOfDecimal(n: nat)
    ensures AsInteger(Decimal(n)) == n
  {
    var s := Decimal(n);
    LeadingDigitsOfDigits(s);
    DecimalValueOfDecimal(n);
  }

  // ---- dotted-quad text ---------------------------------------------------

  /** One octet of a dotted quad: one to three digits worth at most 255. */
  predicate IsOctetText(p: string) {
    1 <= |p| <= 3 && AllDigits(p) && DecimalValue(p) <= 255
  }

  /**
   * `PIPSocket::Address(text)`: four dot-separated decimal octets; any other
   * text gives 0.0.0.0.
   */
  function ParseAddress(s: string): Address {
    var p := Fields(s, ".");
    if |p| == 4 && IsOctetText(p[0]) && IsOctetText(p[1]) && IsOctetText(p[2]) && IsOctetText(p[3])
    then Address(DecimalValue(p[0]) as bv8, DecimalValue(p[1]) as bv8,
                 DecimalValue(p[2]) as bv8, DecimalValue(p[3]) as bv8)
    else INADDR_ANY
  }

  /** The parts of `a.AsString()`: the four octets in decimal. */
  function AddressParts(a: Address): (p: seq<string>)
    ensures |p| == 4
    ensures forall i :: 0 <= i < 4 ==> p[i] != "" && AllDigits(p[i])
  {
    seq(4, q requires 0 <= q < 4 => Decimal(a.Octet(q) as int))
  }

  /** `a.AsString()`: the dotted-quad text of an address. */
  function AddressText(a: Address): string {
    Join(AddressParts(a), '.')
  }

  /** The text of an address is not empty and holds only digits and dots. */
  lemma AddressTextChars(a: Address)
    ensures AddressText(a) != []
    ensures forall i :: 0 <= i < |AddressText(a)| ==> IsDigit(AddressText(a)[i]) || AddressText(a)[i] == '.'
  {
    JoinChars(AddressParts(a), '.');
  }

  /** A join holds only the characters of its parts and the separator. */
  lemma {:induction false} JoinChars(xs: seq<string>, sep: char)
    requires xs != [] && xs[0] != ""
    requires forall i :: 0 <= i < |xs| ==> AllDigits(xs[i])
    ensures Join(xs, sep) != []
    ensures forall i :: 0 <= i < |Join(xs, sep)| ==> IsDigit(Join(xs, sep)[i]) || Join(xs, sep)[i] == sep
  {
    if |xs| > 1 {
      if xs[1..][0] == "" {
        JoinCharsTail(xs[1..], sep);
      } else {
        JoinChars(xs[1..], sep);
      }
    }
  }

  lemma {:induction false} JoinCharsTail(xs: seq<string>, sep: char)
    requires xs != []
    requires forall i :: 0 <= i < |xs| ==> AllDigits(xs[i])
    ensures forall i :: 0 <= i < |Join(xs, sep)| ==> IsDigit(Join(xs, sep)[i]) || Join(xs, sep)[i] == sep
  {
    if |xs| > 1 {
      JoinCharsTail(xs[1..], sep);
    }
  }

  lemma DigitsAvoid(s: string, seps: string)
    requires AllDigits(s)
    requires forall i :: 0 <= i < |seps| ==> !IsDigit(seps[i])
    ensures NoneOf(s, seps)
  {
  }

  lemma OctetTextOf(o: bv8)
    ensures IsOctetText(Decimal(o as int))
    ensures DecimalValue(Decimal(o as int)) as bv8 == o
  {
    DecimalValueOfDecimal(o as int);
  }

  /** The text of an address splits at its dots into its four octets. */
  lemma FieldsOfAddressText(a: Address)
    ensures Fields(AddressText(a), ".") == AddressParts(a)
  {
    var p := AddressParts(a);
    forall i | 0 <= i < |p| ensures NoneOf(p[i], ".") {
      DigitsAvoid(p[i], ".");
    }
    FieldsOfJoin(p, '.', ".");
  }

  /** Reading back the text of an address gives the address. */
  lemma ParseAddressText(a: Address)
    ensures ParseAddress(AddressText(a)) == a
  {
    FieldsOfAddressText(a);
    AddressPartsOctets(a);
    ParseOfOctets(AddressText(a), AddressParts(a), a);
  }

  /** The four parts of an address's text are octet texts worth its octets. */
  lemma AddressPartsOctets(a: Address)
    ensures var p := AddressParts(a);
      && IsOctetText(p[0]) && DecimalValue(p[0]) as bv8 == a.o0
      && IsOctetText(p[1]) && DecimalValue(p[1]) as bv8 == a.o1
      && IsOctetText(p[2]) && DecimalValue(p[2]) as bv8 == a.o2
      && IsOctetText(p[3]) && DecimalValue(p[3]) as bv8 == a.o3
  {
    OctetTextOf(a.o0);
    OctetTextOf(a.o1);
    OctetTextOf(a.o2);
    OctetTextOf(a.o3);
  }

  /** Text that splits at its dots into four octet texts worth the octets of `a` reads as `a`. */
  lemma ParseOfOctets(s: string, p: seq<string>, a: Address)
    requires Fields(s, ".") == p && |p| == 4
    requires IsOctetText(p[0]) && DecimalValue(p[0]) as bv8 == a.o0
    requires IsOctetText(p[1]) && DecimalValue(p[1]) as bv8 == a.o1
    requires IsOctetText(p[2]) && DecimalValue(p[2]) as bv8 == a.o2
    requires IsOctetText(p[3]) && DecimalValue(p[3]) as bv8 == a.o3
    ensures ParseAddress(s) == a
  {
  }

  // ---- boolean settings ---------------------------------------------------

  /** `Toolkit::AsBool`: an empty value is false; otherwise the first character decides. */
  predicate AsBool(s: string) {
    s != [] && ToLower(s[0]) in "tya1"
  }

  /** "t...", "y...", "a..." in either case and "1..." are true, every other value false. */
  lemma AsBoolMeaning(s: string)
    ensures AsBool(s) <==> s != [] && s[0] in "tTyYaA1"
  {
  }

  // ---- network strings ----------------------------------------------------

  /** `array[i]` on a `PStringArray`, which reads past the end as an empty string. */
  function At(xs: seq<string>, i: nat): string {
    if i < |xs| then xs[i] else ""
  }

  /**
   * `Toolkit::GetNetworkFromString`, with the computation of a CIDR mask as
   * a parameter: "ALL" in any case is 0.0.0.0/0.0.0.0; otherwise the text
   * before the first `/` is the address, and what follows is a prefix length
   * when it holds no `.`, a dotted mask when it does, and an all-ones mask
   * when there is no `/`. The network is the address under the mask.
   */
  function NetworkFromString(cfg: string, cidr: int -> Address): (r: (Address, Address)) {
    if EqualsIgnoreCase(cfg, "ALL") then (INADDR_ANY, INADDR_ANY)
    else
      var net := Tokenise(cfg, "/", false);
      var mask :=
        if |net| < 2 then ALL_ONES
        else if '.' !in net[1] then cidr(AsInteger(net[1]))
        else ParseAddress(net[1]);
      (ParseAddress(At(net, 0)).And(mask), mask)
  }

  /** `Toolkit::GetNetworkFromString` with the intended `/n` mask. */
  function GetNetworkFromString(cfg: string): (r: (Address, Address))
    ensures r.0.And(r.1) == r.0
    ensures EqualsIgnoreCase(cfg, "ALL") ==> r == (INADDR_ANY, INADDR_ANY)
    ensures !EqualsIgnoreCase(cfg, "ALL") && '/' !in cfg ==> r == (ParseAddress(cfg), ALL_ONES)
  {
    NetworkFacts(cfg, CidrMask);
    NetworkFromString(cfg, CidrMask)
  }

  /** `Toolkit::GetNetworkFromString` as written, with the shift of `CidrMaskAsWritten`. */
  function GetNetworkFromStringAsWritten(cfg: string): (r: (Address, Address))
    ensures r.0.And(r.1) == r.0
    ensures EqualsIgnoreCase(cfg, "ALL") ==> r == (INADDR_ANY, INADDR_ANY)
    ensures !EqualsIgnoreCase(cfg, "ALL") && '/' !in cfg ==> r == (ParseAddress(cfg), ALL_ONES)
  {
    NetworkFacts(cfg, CidrMaskAsWritten);
    NetworkFromString(cfg, CidrMaskAsWritten)
  }

  /**
   * Whatever the mask of `/n`: the network has no bits outside its mask,
   * `ALL` is 0.0.0.0/0.0.0.0, and a setting without `/` is a host.
   */
  lemma NetworkFacts(cfg: string, cidr: int -> Address)
    ensures NetworkFromString(cfg, cidr).0.And(NetworkFromString(cfg, cidr).1) == NetworkFromString(cfg, cidr).0
    ensures EqualsIgnoreCase(cfg, "ALL") ==> NetworkFromString(cfg, cidr) == (INADDR_ANY, INADDR_ANY)
    ensures !EqualsIgnoreCase(cfg, "ALL") && '/' !in cfg ==> NetworkFromString(cfg, cidr) == (ParseAddress(cfg), ALL_ONES)
  {
    if !EqualsIgnoreCase(cfg, "ALL") && '/' !in cfg && cfg != [] {
      NoSeparatorTokens(cfg, "/");
    }
  }

  /** Text without separators is its own only token. */
  lemma NoSeparatorTokens(s: string, seps: string)
    requires s != [] && forall c :: c in seps ==> c !in s
    ensures Tokenise(s, seps, false) == [s]
  {
    FieldsOfPlainPrefix(s, "", seps);
    assert s + "" == s;
  }

  /** `t/n` splits at the slash when `t` has none. */
  lemma {:induction false} TokensOfSlash(t: string, n: string)
    requires t != [] && n != [] && '/' !in t && '/' !in n
    ensures Tokenise(t + "/" + n, "/", false) == [t, n]
    ensures !EqualsIgnoreCase(t + "/" + n, "ALL")
  {
    var cfg := t + "/" + n;
    assert Join([n], '/') == n;
    assert cfg == Join([t, n], '/');
    FieldsOfJoin([t, n], '/', "/");
    DropEmptyOfNonEmpty([t]);
    assert [t, n][..1] == [t];
  }

  /**
   * A host route `a/32` as written: its mask is empty and its network
   * 0.0.0.0, so it matches every address.
   */
  lemma HostRouteStringAsWritten(a: Address)
    ensures GetNetworkFromStringAsWritten(AddressText(a) + "/32") == (INADDR_ANY, INADDR_ANY)
  {
    HostText(a);
    Slash32(AddressText(a));
  }

  /** With the intended mask, a host route `a/32` is `a` under an all-ones mask. */
  lemma HostRouteString(a: Address)
    ensures GetNetworkFromString(AddressText(a) + "/32") == (a, ALL_ONES)
  {
    HostText(a);
    Slash32(AddressText(a));
  }

  /** `t/32` for a text `t` without a slash, under either mask. */
  lemma Slash32(t: string)
    requires t != [] && '/' !in t
    ensures GetNetworkFromStringAsWritten(t + "/32") == (INADDR_ANY, INADDR_ANY)
    ensures GetNetworkFromString(t + "/32") == (ParseAddress(t), ALL_ONES)
  {
    assert AsInteger("32") == 32 by {
      assert "32" == Decimal(32);
      AsIntegerOfDecimal(32);
    }
    assert t + "/32" == t + "/" + "32";
    assert GetNetworkFromString(t + "/32") == (ParseAddress(t), ALL_ONES) by {
      SlashNetwork(t, "32", CidrMask);
      assert ParseAddress(t).And(ALL_ONES) == ParseAddress(t);
    }
    assert GetNetworkFromStringAsWritten(t + "/32") == (INADDR_ANY, INADDR_ANY) by {
      SlashNetwork(t, "32", CidrMaskAsWritten);
      HostRouteMaskAsWritten();
    }
  }

  /** The facts about `a/32` the lemma above rests on. */
  lemma HostText(a: Address)
    ensures AddressText(a) != [] && '/' !in AddressText(a)
    ensures ParseAddress(AddressText(a)) == a
  {
    AddressTextChars(a);
    ParseAddressText(a);
  }

  /** `t/n` with a prefix length `n` gives the network of `t` under the mask for `n`. */
  lemma SlashNetwork(t: string, n: string, cidr: int -> Address)
    requires t != [] && n != [] && '/' !in t && '/' !in n && '.' !in n
    ensures NetworkFromString(t + "/" + n, cidr) == (ParseAddress(t).And(cidr(AsInteger(n))), cidr(AsInteger(n)))
  {
    TokensOfSlash(t, n);
  }

  /** `t/m` with a dotted mask `m` gives the network of `t` under the address `m`, whatever the `/n` mask. */
  lemma SlashMask(t: string, m: string, cidr: int -> Address)
    requires t != [] && m != [] && '/' !in t && '/' !in m && '.' in m
    ensures NetworkFromString(t + "/" + m, cidr) == (ParseAddress(t).And(ParseAddress(m)), ParseAddress(m))
  {
    TokensOfSlash(t, m);
  }

  /** The dotted-mask form reads alike under the intended and the as-written `/n` mask. */
  lemma DottedMaskString(t: string, m: string)
    requires t != [] && m != [] && '/' !in t && '/' !in m && '.' in m
    ensures GetNetworkFromString(t + "/" + m) == (ParseAddress(t).And(ParseAddress(m)), ParseAddress(m))
    ensures GetNetworkFromStringAsWritten(t + "/" + m) == GetNetworkFromString(t + "/" + m)
  {
    SlashMask(t, m, CidrMask);
    SlashMask(t, m, CidrMaskAsWritten);
  }

  /**
   * A bare dotted quad is a host: it is its own only token between
   * separators that are neither digits nor dots, and it reads as itself
   * under an all-ones mask.
   */
  lemma HostString(a: Address, seps: string)
    requires forall c :: c in seps ==> !IsDigit(c) && c != '.'
    ensures Tokenise(AddressText(a), seps, false) == [AddressText(a)]
    ensures GetNetworkFromString(AddressText(a)) == (a, ALL_ONES)
  {
    var t := AddressText(a);
    AddressTextChars(a);
    NoSeparatorTokens(t, seps);
    assert !EqualsIgnoreCase(t, "ALL");
    assert '/' !in t;
    ParseAddressText(a);
  }
}
