/**
 * The few PTLib `PString` operations the Toolkit rule engine relies on,
 * written as functions over `seq<char>`: prefix comparison (`strncmp` with
 * the length of the pattern), `Mid`, case folding, `Tokenise` in both of its
 * modes, and the joining done by hand in `Toolkit::GetGKHome`.
 */
module PStrings {

  datatype Option<T> = None | Some(value: T)

  /** `strncmp(s, p, |p|) == 0` on NUL-free strings: `p` is a prefix of `s`. */
  predicate IsPrefix(p: string, s: string) {
    |p| <= |s| && s[..|p|] == p
  }

  /** `s.Mid(start)`: the characters from `start` to the end, empty past the end. */
  function Mid(s: string, start: nat): (r: string)
    ensures start <= |s| ==> s == s[..start] + r
    ensures start >= |s| ==> r == ""
  {
    if start <= |s| then s[start..] else ""
  }

  /** C `isdigit` in the "C" locale. */
  predicate IsDigit(c: char) {
    '0' <= c <= '9'
  }

  /** C `tolower` in the "C" locale. */
  function ToLower(c: char): (r: char)
    ensures 'A' <= c <= 'Z' ==> 'a' <= r <= 'z' && r as int == c as int + 32
    ensures !('A' <= c <= 'Z') ==> r == c
  {
    if 'A' <= c <= 'Z' then (c as int + 32) as char else c
  }

  /** `a *= b`: PTLib's case-insensitive string equality. */
  predicate EqualsIgnoreCase(a: string, b: string) {
    |a| == |b| && forall i :: 0 <= i < |a| ==> ToLower(a[i]) == ToLower(b[i])
  }

  /** No character of `s` is one of `seps`. */
  predicate NoneOf(s: string, seps: string) {
    forall i :: 0 <= i < |s| ==> s[i] !in seps
  }

  /**
   * The fields of `s` between separator characters, empty fields included:
   * `n` separators give `n + 1` fields.
   */
  function Fields(s: string, seps: string): (r: seq<string>)
    ensures |r| >= 1
    ensures forall i :: 0 <= i < |r| ==> NoneOf(r[i], seps)
  {
    if s == [] then [""]
    else
      var rest := Fields(s[1..], seps);
      if s[0] in seps then [""] + rest
      else [[s[0]] + rest[0]] + rest[1..]
  }

  /** The non-empty strings of `xs`, in order. */
  function DropEmpty(xs: seq<string>): (r: seq<string>)
    ensures |r| <= |xs|
    ensures forall i :: 0 <= i < |r| ==> r[i] != "" && r[i] in xs
  {
    if xs == [] then []
    else if xs[0] == "" then DropEmpty(xs[1..])
    else [xs[0]] + DropEmpty(xs[1..])
  }

  /**
   * `s.Tokenise(seps, onePerSeparator)`. An empty string has no tokens. With
   * `onePerSeparator` every separator ends a field, so empty fields survive;
   * without it leading separators are skipped and runs of separators count
   * as one, but the text after the last separator is always a token, even
   * when it is empty.
   */
  function Tokenise(s: string, seps: string, onePerSeparator: bool): (r: seq<string>)
    ensures r == [] <==> s == []
    ensures forall i :: 0 <= i < |r| ==> NoneOf(r[i], seps)
  {
    if s == [] then []
    else
      var f := Fields(s, seps);
      if onePerSeparator then f
      else DropEmpty(f[..|f| - 1]) + [f[|f| - 1]]
  }

  /** The strings of `xs` with `sep` between neighbours. */
  function Join(xs: seq<string>, sep: char): string {
    if xs == [] then ""
    else if |xs| == 1 then xs[0]
    else xs[0] + [sep] + Join(xs[1..], sep)
  }

  /** Text without separators glued in front of `t` joins the first field of `t`. */
  lemma {:induction false} FieldsOfPlainPrefix(a: string, t: string, seps: string)
    requires NoneOf(a, seps)
    ensures Fields(a + t, seps) == [a + Fields(t, seps)[0]] + Fields(t, seps)[1..]
  {
    if a != [] {
      assert (a + t)[1..] == a[1..] + t;
      FieldsOfPlainPrefix(a[1..], t, seps);
      assert [a[0]] + (a[1..] + Fields(t, seps)[0]) == a + Fields(t, seps)[0];
    } else {
      var f := Fields(t, seps);
      assert a + t == t && a + f[0] == f[0];
      assert f == [f[0]] + f[1..];
    }
  }

  /**
   * Splitting a join on its separator gives the parts back, provided no
   * part contains a separator.
   */
  lemma {:induction false} FieldsOfJoin(xs: seq<string>, sep: char, seps: string)
    requires xs != []
    requires sep in seps
    requires forall i :: 0 <= i < |xs| ==> NoneOf(xs[i], seps)
    ensures Fields(Join(xs, sep), seps) == xs
  {
    if |xs| == 1 {
      FieldsOfPlainPrefix(xs[0], "", seps);
      assert xs[0] + "" == xs[0];
    } else {
      var rest := Join(xs[1..], sep);
      FieldsOfJoin(xs[1..], sep, seps);
      assert Join(xs, sep) == xs[0] + ([sep] + rest);
      FieldsOfPlainPrefix(xs[0], [sep] + rest, seps);
      assert ([sep] + rest)[1..] == rest;
      assert Fields([sep] + rest, seps) == [""] + xs[1..];
      assert xs[0] + "" == xs[0];
    }
  }

  lemma {:induction false} DropEmptyOfNonEmpty(xs: seq<string>)
    requires forall i :: 0 <= i < |xs| ==> xs[i] != ""
    ensures DropEmpty(xs) == xs
  {
    if xs != [] {
      DropEmptyOfNonEmpty(xs[1..]);
    }
  }

  /**
   * Tokenising (in collapsing mode) a join of non-empty, separator-free
   * parts gives the parts back; the empty list joins to the empty string,
   * which has no tokens.
   */
  lemma TokeniseOfJoin(xs: seq<string>, sep: char, seps: string)
    requires sep in seps
    requires forall i :: 0 <= i < |xs| ==> xs[i] != "" && NoneOf(xs[i], seps)
    ensures Tokenise(Join(xs, sep), seps, false) == xs
  {
    if xs != [] {
      FieldsOfJoin(xs, sep, seps);
      DropEmptyOfNonEmpty(xs[..|xs| - 1]);
      assert xs[..|xs| - 1] + [xs[|xs| - 1]] == xs;
    }
  }

  /** Joining one more part appends the separator and the part. */
  lemma {:induction false} JoinSnoc(xs: seq<string>, x: string, sep: char)
    requires xs != []
    ensures Join(xs + [x], sep) == Join(xs, sep) + [sep] + x
  {
    if |xs| > 1 {
      assert (xs + [x])[1..] == xs[1..] + [x];
      JoinSnoc(xs[1..], x, sep);
    }
  }
}
