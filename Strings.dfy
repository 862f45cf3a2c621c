/** The optional value returned by the integer parser. */
module Wrappers {
  datatype Option<+T> = None | Some(value: T)
}

/**
 * The library string operations the resolver relies on: lower-casing
 * (Go's strings.ToLower), splitting and joining on a separator
 * (strings.Split, strings.Join, with strings.Index underneath) and the
 * decimal parser strconv.Atoi.  Strings are sequences of characters;
 * one character stands for one Unicode code point.
 */
module Strings {
  import opened Wrappers

  // ---------------------------------------------------------------------
  // Lower-casing
  // ---------------------------------------------------------------------

  predicate IsUpper(c: char) {
    'A' <= c <= 'Z'
  }

  /** The ASCII part of Unicode lower-casing. */
  function LowerChar(c: char): char {
    if IsUpper(c) then (c as int - 'A' as int + 'a' as int) as char else c
  }

  /** A string holding no upper-case letter. */
  predicate IsLower(s: string) {
    forall i :: 0 <= i < |s| ==> !IsUpper(s[i])
  }

  /** strings.ToLower: every letter mapped to its lower-case form. */
  function Lower(s: string): (r: string)
    ensures |r| == |s| && IsLower(r)
    ensures forall i :: 0 <= i < |s| && !IsUpper(s[i]) ==> r[i] == s[i]
  {
    seq(|s|, i requires 0 <= i < |s| => LowerChar(s[i]))
  }

  /** Lower-casing leaves exactly the strings free of upper-case letters fixed. */
  lemma LowerFixesExactlyLower(s: string)
    ensures Lower(s) == s <==> IsLower(s)
  {
    if IsLower(s) {
      assert forall i :: 0 <= i < |s| ==> Lower(s)[i] == s[i];
    }
  }

  lemma LowerIdempotent(s: string)
    ensures Lower(Lower(s)) == Lower(s)
  {
    LowerFixesExactlyLower(Lower(s));
  }

  // ---------------------------------------------------------------------
  // Searching for a separator
  // ---------------------------------------------------------------------

  /** `sep` occurs in `s` starting at position `j`. */
  predicate Occurs(s: string, sep: string, j: int) {
    0 <= j && j + |sep| <= |s| && s[j..j + |sep|] == sep
  }

  predicate Contains(s: string, sep: string) {
    exists j :: 0 <= j <= |s| && Occurs(s, sep, j)
  }

  /** strings.Index from position `k` on: the first occurrence, or -1. */
  function IndexFrom(s: string, sep: string, k: nat): (r: int)
    requires |sep| > 0 && k <= |s|
    ensures r == -1 || (k <= r && Occurs(s, sep, r))
    ensures forall j :: k <= j && (r == -1 || j < r) ==> !Occurs(s, sep, j)
    decreases |s| - k
  {
    if k + |sep| > |s| then -1
    else if s[k..k + |sep|] == sep then k
    else IndexFrom(s, sep, k + 1)
  }

  /** strings.Index for a non-empty separator. */
  function Index(s: string, sep: string): (r: int)
    requires |sep| > 0
    ensures r == -1 <==> !Contains(s, sep)
    ensures r != -1 ==> Occurs(s, sep, r) && forall j :: 0 <= j < r ==> !Occurs(s, sep, j)
  {
    IndexFrom(s, sep, 0)
  }

  // ---------------------------------------------------------------------
  // Splitting and joining
  // ---------------------------------------------------------------------

  /** strings.Split with an empty separator: one string per character. */
  function Explode(s: string): (r: seq<string>)
    ensures |r| == |s|
    ensures forall i :: 0 <= i < |s| ==> r[i] == [s[i]]
  {
    seq(|s|, i requires 0 <= i < |s| => [s[i]])
  }

  /**
   * strings.Split: the pieces between consecutive non-overlapping
   * occurrences of `sep`, scanning from the left; empty pieces are kept.
   */
  function Split(s: string, sep: string): (r: seq<string>)
    ensures sep != [] ==> |r| >= 1
    ensures sep == [] ==> r == Explode(s)
    decreases |s|
  {
    if sep == [] then Explode(s)
    else
      var m := Index(s, sep);
      if m < 0 then [s] else [s[..m]] + Split(s[m + |sep|..], sep)
  }

  /** strings.Join: the pieces in order, with the separator between neighbours. */
  function Join(a: seq<string>, sep: string): (r: string)
  {
    if |a| == 0 then ""
    else if |a| == 1 then a[0]
    else a[0] + sep + Join(a[1..], sep)
  }

  lemma {:induction false} JoinExplode(s: string)
    ensures Join(Explode(s), "") == s
    decreases |s|
  {
    if |s| > 1 {
      assert Explode(s)[1..] == Explode(s[1..]);
      JoinExplode(s[1..]);
      assert s == [s[0]] + s[1..];
    }
  }

  /** Split at the first occurrence of the separator, when there is one. */
  lemma SplitStep(s: string, sep: string, m: int)
    requires sep != [] && m == Index(s, sep) && m >= 0
    ensures Split(s, sep) == [s[..m]] + Split(s[m + |sep|..], sep)
    ensures s == s[..m] + sep + s[m + |sep|..]
  {
    SliceAround(s, m, m + |sep|);
  }

  lemma SliceAround(s: string, i: nat, j: nat)
    requires i <= j <= |s|
    ensures s == s[..i] + s[i..j] + s[j..]
  {
  }

  /** Every slice of a string free of upper-case letters is free of them. */
  lemma SliceLower(s: string, i: nat, j: nat)
    requires IsLower(s) && i <= j <= |s|
    ensures IsLower(s[i..j])
  {
    assert forall k :: 0 <= k < j - i ==> s[i..j][k] == s[i + k];
  }

  /** Joining a head in front of one or more pieces. */
  lemma JoinCons(head: string, rest: seq<string>, sep: string)
    requires |rest| >= 1
    ensures Join([head] + rest, sep) == head + sep + Join(rest, sep)
  {
    assert ([head] + rest)[1..] == rest;
  }

  /** Joining the pieces of a split with the same separator gives back the string. */
  lemma {:induction false} JoinSplit(s: string, sep: string)
    ensures Join(Split(s, sep), sep) == s
    decreases |s|
  {
    if sep == [] {
      JoinExplode(s);
    } else {
      var m := Index(s, sep);
      if m >= 0 {
        var tail := s[m + |sep|..];
        SplitStep(s, sep, m);
        JoinSplit(tail, sep);
        JoinCons(s[..m], Split(tail, sep), sep);
      }
    }
  }

  /** With a non-empty separator no piece of a split contains the separator. */
  lemma {:induction false} SplitPiecesAvoidSeparator(s: string, sep: string)
    ensures sep != [] ==> forall k :: 0 <= k < |Split(s, sep)| ==> !Contains(Split(s, sep)[k], sep)
    decreases |s|
  {
    if sep != [] && Index(s, sep) >= 0 {
      var m := Index(s, sep);
      var rest := Split(s[m + |sep|..], sep);
      SplitPiecesAvoidSeparator(s[m + |sep|..], sep);
      forall j | Occurs(s[..m], sep, j) ensures false {
        assert s[..m][j..j + |sep|] == s[j..j + |sep|];
        assert Occurs(s, sep, j);
      }
      SplitStep(s, sep, m);
    }
  }

  /** Pieces of a string without upper-case letters have none either. */
  lemma {:induction false} SplitPiecesLower(s: string, sep: string)
    requires IsLower(s)
    ensures forall k :: 0 <= k < |Split(s, sep)| ==> IsLower(Split(s, sep)[k])
    decreases |s|
  {
    if sep != [] {
      var m := Index(s, sep);
      if m >= 0 {
        var rest := s[m + |sep|..];
        SliceLower(s, m + |sep|, |s|);
        SliceLower(s, 0, m);
        assert rest == s[m + |sep|..|s|] && s[..m] == s[0..m];
        SplitPiecesLower(rest, sep);
        SplitStep(s, sep, m);
        LowerPiecesCons(s[..m], Split(rest, sep));
      }
    }
  }

  lemma LowerPiecesCons(head: string, rest: seq<string>)
    requires IsLower(head) && forall k :: 0 <= k < |rest| ==> IsLower(rest[k])
    ensures forall k :: 0 <= k < |[head] + rest| ==> IsLower(([head] + rest)[k])
  {
  }

  /**
   * A split into two or more pieces means the separator occurs in the
   * string, so a string free of upper-case letters only breaks on a
   * separator free of them too.
   */
  lemma SplitBreaksOnlyOnLowerSeparator(s: string, sep: string)
    requires IsLower(s) && |Split(s, sep)| >= 2
    ensures IsLower(sep)
  {
    if sep != [] {
      var m := Index(s, sep);
      assert m >= 0;
      assert forall i :: 0 <= i < |sep| ==> sep[i] == s[m + i];
    }
  }

  /** A string that does not contain the separator is a single piece. */
  lemma SplitWithoutSeparator(s: string, sep: string)
    requires sep != [] && !Contains(s, sep)
    ensures Split(s, sep) == [s]
  {
  }

  /** Joining lower-case pieces with a lower-case separator gives a lower-case string. */
  lemma {:induction false} JoinLower(a: seq<string>, sep: string)
    requires IsLower(sep) && forall k :: 0 <= k < |a| ==> IsLower(a[k])
    ensures IsLower(Join(a, sep))
    decreases |a|
  {
    if |a| > 1 {
      JoinLower(a[1..], sep);
      var t := Join(a[1..], sep);
      assert Join(a, sep) == a[0] + sep + t;
      forall i | 0 <= i < |Join(a, sep)| ensures !IsUpper(Join(a, sep)[i]) {
        if i < |a[0]| {
          assert Join(a, sep)[i] == a[0][i];
        } else if i < |a[0]| + |sep| {
          assert Join(a, sep)[i] == sep[i - |a[0]|];
        } else {
          assert Join(a, sep)[i] == t[i - |a[0]| - |sep|];
        }
      }
    }
  }

  /** Joining two or more pieces puts the separator right after the first piece. */
  lemma JoinOccursAfterFirst(a: seq<string>, sep: string)
    requires |a| >= 2
    ensures Occurs(Join(a, sep), sep, |a[0]|)
  {
    var j := Join(a, sep);
    assert j == a[0] + sep + Join(a[1..], sep);
    assert j[|a[0]|..|a[0]| + |sep|] == sep;
  }

  // ---------------------------------------------------------------------
  // Decimal integers
  // ---------------------------------------------------------------------

  /** The range of Go's 64-bit `int`. */
  const MinInt: int := -0x8000_0000_0000_0000
  const MaxInt: int := 0x7fff_ffff_ffff_ffff

  predicate IsDigit(c: char) {
    '0' <= c <= '9'
  }

  predicate AllDigits(s: string) {
    forall i :: 0 <= i < |s| ==> IsDigit(s[i])
  }

  function DigitValue(c: char): nat
    requires IsDigit(c)
  {
    c as int - '0' as int
  }

  function DigitChar(d: nat): (c: char)
    requires d < 10
    ensures IsDigit(c) && DigitValue(c) == d
  {
    ('0' as int + d) as char
  }

  /** The value of a string of decimal digits, most significant first. */
  function DigitsValue(s: string): nat
    requires AllDigits(s)
  {
    if |s| == 0 then 0 else DigitsValue(s[..|s| - 1]) * 10 + DigitValue(s[|s| - 1])
  }

  predicate IsSign(c: char) {
    c == '-' || c == '+'
  }

  /** What strconv.Atoi accepts: one optional sign, then one or more decimal digits. */
  predicate IsNumeral(s: string) {
    |s| >= 1 && (IsDigit(s[0]) || (IsSign(s[0]) && |s| >= 2)) &&
    forall i :: 1 <= i < |s| ==> IsDigit(s[i])
  }

  /** The signed value a numeral spells. */
  function NumeralValue(s: string): int
    requires IsNumeral(s)
  {
    if IsDigit(s[0]) then DigitsValue(s)
    else
      assert forall i :: 0 <= i < |s| - 1 ==> s[1..][i] == s[i + 1];
      if s[0] == '-' then 0 - DigitsValue(s[1..]) else DigitsValue(s[1..])
  }

  /**
   * strconv.Atoi: an optional '+' or '-' followed by one or more decimal
   * digits, whose value must fit in a 64-bit `int`; anything else fails.
   */
  function Atoi(s: string): (r: Option<int>)
    ensures r.Some? <==> IsNumeral(s) && MinInt <= NumeralValue(s) <= MaxInt
    ensures r.Some? ==> r.value == NumeralValue(s)
    ensures r.Some? ==> MinInt <= r.value <= MaxInt
  {
    if |s| == 0 then None
    else
      var digits := if s[0] == '-' || s[0] == '+' then s[1..] else s;
      assert forall i :: 0 <= i < |digits| ==> digits[i] == s[i + |s| - |digits|];
      if |digits| == 0 || !AllDigits(digits) then None
      else
        var v: int := if s[0] == '-' then 0 - DigitsValue(digits) else DigitsValue(digits);
        if MinInt <= v <= MaxInt then Some(v) else None
  }

  /** strconv.Itoa for a non-negative number: its shortest decimal form. */
  function Itoa(n: nat): (r: string)
    ensures |r| >= 1 && AllDigits(r) && DigitsValue(r) == n
  {
    if n < 10 then [DigitChar(n)]
    else
      var r := Itoa(n / 10) + [DigitChar(n % 10)];
      assert r[..|r| - 1] == Itoa(n / 10);
      r
  }

  /** Atoi reads back every in-range number Itoa writes. */
  lemma AtoiItoa(n: nat)
    requires n <= MaxInt
    ensures Atoi(Itoa(n)) == Some(n)
  {
    var s := Itoa(n);
    assert IsDigit(s[0]);
  }

  /** ... and every in-range negative number written with a leading '-'. */
  lemma AtoiNegatedItoa(n: nat)
    requires n <= 0 - MinInt
    ensures Atoi("-" + Itoa(n)) == Some(0 - n)
  {
    var s := "-" + Itoa(n);
    assert s[1..] == Itoa(n);
    assert forall i :: 1 <= i < |s| ==> s[i] == Itoa(n)[i - 1];
  }
}
