/**
 * `Toolkit::HashCStr`, the ELF-style hash of a C string: every character is
 * shifted in four bits at a time, and the top four bits of the low 32, once
 * set, are folded back and cleared. `unsigned long` is 64 bits wide here
 * (LP64); the string is its bytes, ending at the first NUL.
 */
module Hashing {
  /**
   * The second half of a step: the top four bits of the low 32, when set,
   * are folded back four bits above the bottom and then cleared.
   */
  function Mix(h1: bv64): bv64 {
    var g := h1 & 0xf000_0000;
    var h2 := if g != 0 then h1 ^ (g >> 24) else h1;
    h2 & !g
  }

  /**
   * One character folded into the hash (`unsigned long` is 64 bits wide):
   * afterwards the top four bits of the low 32 are clear.
   */
  function HashStep(h: bv64, c: bv8): (r: bv64)
    ensures r & 0xf000_0000 == 0
  {
    var h1 := (h << 4) + c as bv64;
    MixClearsHighNibble(h1);
    Mix(h1)
  }

  /** The hash of the characters of `name` up to its first NUL (or its end), starting from `h`. */
  function HashFrom(h: bv64, name: seq<bv8>): (r: bv64)
    ensures h & 0xf000_0000 == 0 ==> r & 0xf000_0000 == 0
    ensures name == [] || name[0] == 0 ==> r == h
    decreases |name|
  {
    if name == [] || name[0] == 0 then h else HashFrom(HashStep(h, name[0]), name[1..])
  }

  /** The hash of a C string. */
  function Hash(name: seq<bv8>): (r: bv64)
    ensures r & 0xf000_0000 == 0
  {
    HashFrom(0, name)
  }

  /** `Toolkit::HashCStr`: the loop over the characters before the NUL. */
  method HashCStr(name: seq<bv8>) returns (h: bv64)
    ensures h == Hash(name)
    ensures h & 0xf000_0000 == 0
  {
    h := 0;
    var i := 0;
    while i < |name| && name[i] != 0
      invariant 0 <= i <= |name|
      invariant HashFrom(h, name[i..]) == Hash(name)
      invariant h & 0xf000_0000 == 0
    {
      assert name[i..][1..] == name[i + 1..];
      h := HashStep(h, name[i]);
      i := i + 1;
    }
  }

  /** Folding clears the top four bits of the low 32. */
  lemma MixClearsHighNibble(h1: bv64)
    ensures Mix(h1) & 0xf000_0000 == 0
  {
    var g := h1 & 0xf000_0000;
    assert (g >> 24) & 0xf000_0000 == 0;
    assert (h1 ^ (g >> 24)) & 0xf000_0000 == g;
  }

  /** The empty string, and any string starting with a NUL, hashes to 0. */
  lemma HashEmpty(rest: seq<bv8>)
    ensures Hash([]) == 0
    ensures Hash([0] + rest) == 0
  {
  }

  /** The hash stops at the first NUL: what follows it does not count. */
  lemma {:induction false} HashStopsAtNul(h: bv64, name: seq<bv8>, rest: seq<bv8>)
    requires forall i :: 0 <= i < |name| ==> name[i] != 0
    ensures HashFrom(h, name + [0] + rest) == HashFrom(h, name)
    decreases |name|
  {
    if name != [] {
      assert (name + [0] + rest)[1..] == name[1..] + [0] + rest;
      HashStopsAtNul(HashStep(h, name[0]), name[1..], rest);
    }
  }
}
