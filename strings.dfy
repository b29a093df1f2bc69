/**
 * Character and string operations shared by the query shell, the request
 * framer and the request router: the "C" locale's isspace and tolower, the
 * std::string searches (find, rfind), boost's trim / split / to_lower and
 * std::to_string.
 */
module Strings {

  datatype Option<T> = None | Some(value: T)

  /** isspace in the "C" locale: space, \t, \n, \v, \f and \r. */
  predicate IsSpace(c: char) {
    c == ' ' || c == '\t' || c == '\n' || c == '\r' || c as int == 11 || c as int == 12
  }

  predicate NoSpace(s: string) {
    forall i :: 0 <= i < |s| ==> !IsSpace(s[i])
  }

  predicate AllSpace(s: string) {
    forall i :: 0 <= i < |s| ==> IsSpace(s[i])
  }

  predicate IsUpper(c: char) {
    'A' <= c <= 'Z'
  }

  /** tolower in the "C" locale: only 'A'..'Z' change. */
  function LowerChar(c: char): char {
    if IsUpper(c) then (c as int + 32) as char else c
  }

  /** The string with every character mapped through LowerChar (boost::to_lower). */
  function Lower(s: string): string {
    if s == [] then [] else [LowerChar(s[0])] + Lower(s[1..])
  }

  lemma {:induction false} LowerPointwise(s: string)
    ensures |Lower(s)| == |s|
    ensures forall i :: 0 <= i < |s| ==> Lower(s)[i] == LowerChar(s[i])
  {
    if s != [] {
      LowerPointwise(s[1..]);
    }
  }

  /** Lowercasing leaves no upper-case letter behind and keeps every non-letter. */
  lemma {:induction false} LowerHasNoUpper(s: string)
    ensures |Lower(s)| == |s|
    ensures forall i :: 0 <= i < |Lower(s)| ==> !IsUpper(Lower(s)[i])
    ensures forall i :: 0 <= i < |s| && !IsUpper(s[i]) ==> Lower(s)[i] == s[i]
  {
    LowerPointwise(s);
  }

  /** Lowercasing twice is lowercasing once. */
  lemma {:induction false} LowerIdempotent(s: string)
    ensures Lower(Lower(s)) == Lower(s)
  {
    if s != [] {
      LowerIdempotent(s[1..]);
    }
  }

  /** Lowercasing never turns a space into a non-space or back. */
  lemma {:induction false} LowerKeepsSpaces(s: string)
    ensures |Lower(s)| == |s|
    ensures forall i :: 0 <= i < |s| ==> (IsSpace(Lower(s)[i]) <==> IsSpace(s[i]))
  {
    LowerPointwise(s);
  }

  // ---------------------------------------------------------------------------
  // Searching

  predicate HasPrefix(s: string, p: string) {
    |p| <= |s| && s[..|p|] == p
  }

  /** std::string::find(t) != npos. */
  predicate Contains(s: string, t: string) {
    exists i | 0 <= i <= |s| - |t| :: OccursAt(s, t, i)
  }

  predicate OccursAt(s: string, t: string, i: nat) {
    i + |t| <= |s| && s[i..i + |t|] == t
  }

  /** std::string::find(t, from): the first index at or after `from` where t occurs. */
  function FindFrom(s: string, t: string, from: nat): (r: Option<nat>)
    ensures r.Some? ==> from <= r.value && OccursAt(s, t, r.value)
    ensures forall k: nat :: from <= k && (r.None? || k < r.value) ==> !OccursAt(s, t, k)
    decreases |s| - from
  {
    if from + |t| > |s| then None
    else if s[from..from + |t|] == t then Some(from)
    else FindFrom(s, t, from + 1)
  }

  /** std::string::find(t): the first occurrence of t, if any. */
  function Find(s: string, t: string): (r: Option<nat>)
    ensures r.Some? <==> Contains(s, t)
    ensures r.Some? ==> OccursAt(s, t, r.value) && forall k: nat :: k < r.value ==> !OccursAt(s, t, k)
  {
    FindFrom(s, t, 0)
  }

  /** std::string::find(c): the first index holding c. */
  function IndexOf(s: string, c: char): (r: Option<nat>)
    ensures r.None? <==> c !in s
    ensures r.Some? ==> r.value < |s| && s[r.value] == c && c !in s[..r.value]
  {
    if s == [] then None
    else if s[0] == c then Some(0)
    else match IndexOf(s[1..], c)
      case None => None
      case Some(k) =>
        assert s[..k + 1] == [s[0]] + s[1..][..k];
        Some(k + 1)
  }

  /** std::string::rfind(c): the last index holding c. */
  function LastIndexOf(s: string, c: char): (r: Option<nat>)
    ensures r.None? <==> c !in s
    ensures r.Some? ==> r.value < |s| && s[r.value] == c && c !in s[r.value + 1..]
  {
    if s == [] then None
    else if s[|s| - 1] == c then Some(|s| - 1)
    else
      var r := LastIndexOf(s[..|s| - 1], c);
      assert r.Some? ==> s[r.value + 1..] == s[..|s| - 1][r.value + 1..] + [s[|s| - 1]];
      assert r.None? ==> s == s[..|s| - 1] + [s[|s| - 1]];
      r
  }

  // ---------------------------------------------------------------------------
  // boost::trim

  /** The length of the run of white space at the start of s. */
  function LeadingSpaces(s: string): (n: nat)
    ensures n <= |s| && AllSpace(s[..n]) && (n == |s| || !IsSpace(s[n]))
  {
    if s != [] && IsSpace(s[0]) then
      var m := LeadingSpaces(s[1..]);
      assert s[..m + 1] == [s[0]] + s[1..][..m];
      m + 1
    else 0
  }

  /** The length of the run of white space at the end of s. */
  function TrailingSpaces(s: string): (n: nat)
    ensures n <= |s| && AllSpace(s[|s| - n..]) && (n == |s| || !IsSpace(s[|s| - n - 1]))
  {
    if s != [] && IsSpace(s[|s| - 1]) then
      var t := s[..|s| - 1];
      var m := TrailingSpaces(t);
      assert s[|s| - (m + 1)..] == t[|t| - m..] + [s[|s| - 1]];
      assert m < |t| ==> s[|s| - m - 2] == t[|t| - m - 1];
      m + 1
    else 0
  }

  /** boost::trim_left: drops the leading white space. */
  function TrimLeft(s: string): string {
    s[LeadingSpaces(s)..]
  }

  /** boost::trim_right: drops the trailing white space. */
  function TrimRight(s: string): string {
    s[..|s| - TrailingSpaces(s)]
  }

  function Trim(s: string): string {
    TrimRight(TrimLeft(s))
  }

  /**
   * Trim removes exactly the run of leading and the run of trailing white
   * space: what it keeps is a slice of the input, everything cut off is
   * white space, and the result neither starts nor ends with white space.
   */
  lemma {:induction false} TrimSpec(s: string)
    ensures exists i, j :: 0 <= i <= j <= |s| && Trim(s) == s[i..j] && AllSpace(s[..i]) && AllSpace(s[j..])
    ensures Trim(s) == [] || (!IsSpace(Trim(s)[0]) && !IsSpace(Trim(s)[|Trim(s)| - 1]))
  {
    var i := LeadingSpaces(s);
    var t := s[i..];
    var n := TrailingSpaces(t);
    assert Trim(s) == s[i..|s| - n];
    assert s[|s| - n..] == t[|t| - n..];
    if i < |s| - n {
      assert t[|t| - n - 1] == s[|s| - n - 1];
    }
  }

  /** A string that neither starts nor ends with white space is its own trim. */
  lemma {:induction false} TrimFixed(s: string)
    requires s == [] || (!IsSpace(s[0]) && !IsSpace(s[|s| - 1]))
    ensures Trim(s) == s
  {
    assert s[0..] == s;
  }

  // ---------------------------------------------------------------------------
  // boost::split (without token compression) and its inverse

  /**
   * The fields between delimiter characters: n delimiters give n + 1 fields,
   * so adjacent delimiters give an empty field between them.
   */
  function Split(s: string, delims: set<char>): (fields: seq<string>)
    ensures |fields| >= 1
  {
    if s == [] then [[]]
    else
      var rest := Split(s[1..], delims);
      if s[0] in delims then [[]] + rest else [[s[0]] + rest[0]] + rest[1..]
  }

  function Join(fields: seq<string>, sep: char): string {
    if fields == [] then []
    else if |fields| == 1 then fields[0]
    else fields[0] + [sep] + Join(fields[1..], sep)
  }

  predicate FreeOf(s: string, delims: set<char>) {
    forall i :: 0 <= i < |s| ==> s[i] !in delims
  }

  /** No field contains a delimiter. */
  lemma {:induction false} SplitFieldsFree(s: string, delims: set<char>)
    ensures forall k :: 0 <= k < |Split(s, delims)| ==> FreeOf(Split(s, delims)[k], delims)
  {
    if s != [] {
      SplitFieldsFree(s[1..], delims);
    }
  }

  /** Splitting on one character and joining with it gives the input back. */
  lemma {:induction false} JoinSplit(s: string, sep: char)
    ensures Join(Split(s, {sep}), sep) == s
  {
    if s != [] {
      var rest := Split(s[1..], {sep});
      JoinSplit(s[1..], sep);
      if s[0] == sep {
        JoinCons([], rest, sep);
      } else {
        JoinExtendFirst(s[0], rest, sep);
      }
    }
  }

  lemma {:induction false} JoinCons(f: string, rest: seq<string>, sep: char)
    requires rest != []
    ensures Join([f] + rest, sep) == f + [sep] + Join(rest, sep)
  {
    assert ([f] + rest)[1..] == rest;
  }

  /** Prefixing the first field with c prefixes the joined string with c. */
  lemma {:induction false} JoinExtendFirst(c: char, fields: seq<string>, sep: char)
    requires fields != []
    ensures Join([[c] + fields[0]] + fields[1..], sep) == [c] + Join(fields, sep)
  {
    if |fields| > 1 {
      JoinCons([c] + fields[0], fields[1..], sep);
    }
  }

  /** A field free of delimiters followed by a delimiter is split off as the first field. */
  lemma {:induction false} SplitLeadingField(a: string, sep: char, rest: string)
    requires FreeOf(a, {sep})
    ensures Split(a + [sep] + rest, {sep}) == [a] + Split(rest, {sep})
  {
    if a == [] {
      assert ([] + [sep] + rest)[1..] == rest;
    } else {
      assert (a + [sep] + rest)[1..] == a[1..] + [sep] + rest;
      SplitLeadingField(a[1..], sep, rest);
      assert [a[0]] + a[1..] == a;
    }
  }

  /** A string free of delimiters is a single field. */
  lemma {:induction false} SplitNoDelimiter(a: string, delims: set<char>)
    requires FreeOf(a, delims)
    ensures Split(a, delims) == [a]
  {
    if a != [] {
      SplitNoDelimiter(a[1..], delims);
      assert [a[0]] + a[1..] == a;
    }
  }

  // ---------------------------------------------------------------------------
  // boost::split with token_compress_on: runs of the separator count as one

  /** Collapses every run of `sep` into a single `sep`. */
  function Squeeze(s: string, sep: char): string {
    if s == [] then []
    else if |s| >= 2 && s[0] == sep && s[1] == sep then Squeeze(s[1..], sep)
    else [s[0]] + Squeeze(s[1..], sep)
  }

  function SplitCompressed(s: string, sep: char): seq<string> {
    Split(Squeeze(s, sep), {sep})
  }

  /** No two adjacent separators. */
  predicate Sparse(s: string, sep: char) {
    forall i :: 0 <= i < |s| - 1 ==> !(s[i] == sep && s[i + 1] == sep)
  }

  lemma {:induction false} SqueezeShape(s: string, sep: char)
    ensures Sparse(Squeeze(s, sep), sep)
    ensures s != [] ==> Squeeze(s, sep) != [] && Squeeze(s, sep)[0] == s[0]
    ensures s != [] ==> Squeeze(s, sep)[|Squeeze(s, sep)| - 1] == s[|s| - 1]
  {
    if s != [] {
      SqueezeShape(s[1..], sep);
    }
  }

  /**
   * Splitting a string without adjacent, leading or trailing separators
   * gives only non-empty fields.
   */
  lemma {:induction false} SplitSparseNonEmpty(s: string, sep: char)
    requires s != [] && s[0] != sep && s[|s| - 1] != sep && Sparse(s, sep)
    ensures forall k :: 0 <= k < |Split(s, {sep})| ==> Split(s, {sep})[k] != []
  {
    var rest := Split(s[1..], {sep});
    if |s| > 1 {
      if s[1] == sep {
        assert s[2..] == s[1..][1..];
        SplitSparseNonEmpty(s[2..], sep);
        assert rest == [[]] + Split(s[2..], {sep});
      } else {
        SplitSparseNonEmpty(s[1..], sep);
      }
    }
  }

  /**
   * boost::split with token compression on a trimmed, non-empty string gives
   * non-empty fields free of the separator.
   */
  lemma {:induction false} SplitCompressedFields(s: string, sep: char)
    requires s != [] && s[0] != sep && s[|s| - 1] != sep
    ensures forall k :: 0 <= k < |SplitCompressed(s, sep)| ==>
      SplitCompressed(s, sep)[k] != [] && FreeOf(SplitCompressed(s, sep)[k], {sep})
  {
    SqueezeShape(s, sep);
    SplitSparseNonEmpty(Squeeze(s, sep), sep);
    SplitFieldsFree(Squeeze(s, sep), {sep});
  }

  // ---------------------------------------------------------------------------
  // std::to_string

  predicate IsDigit(c: char) {
    '0' <= c <= '9'
  }

  function DigitChar(d: nat): char
    requires d < 10
  {
    ('0' as int + d) as char
  }

  /** Decimal digits of n, most significant first, without leading zeros. */
  function NatToString(n: nat): (s: string)
    ensures |s| >= 1
    ensures forall i :: 0 <= i < |s| ==> IsDigit(s[i])
    ensures s[0] == '0' ==> n == 0
  {
    if n < 10 then [DigitChar(n)] else NatToString(n / 10) + [DigitChar(n % 10)]
  }

  /** The value of a string of decimal digits. */
  function ParseNat(s: string): nat
    requires forall i :: 0 <= i < |s| ==> IsDigit(s[i])
  {
    if s == [] then 0
    else
      assert IsDigit(s[|s| - 1]);
      10 * ParseNat(s[..|s| - 1]) + (s[|s| - 1] as int - '0' as int)
  }

  /** Reading back the printed decimal gives the number. */
  lemma {:induction false} ParseNatToString(n: nat)
    ensures ParseNat(NatToString(n)) == n
  {
    if n >= 10 {
      ParseNatToString(n / 10);
      var s := NatToString(n);
      assert s[..|s| - 1] == NatToString(n / 10);
    }
  }

  function IntToString(i: int): string {
    if i < 0 then "-" + NatToString(-i) else NatToString(i)
  }
}
