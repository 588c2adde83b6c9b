/**
 * The few pieces of java.lang.String and java.lang.Integer the cluster relies on,
 * written out so that their edge cases are part of the model:
 * `trim`, `Integer.parseInt`, `Integer.toString`, `split`, `replace` and
 * `toUpperCase` (as far as it matters for recognising a command word).
 */
module JavaString {
  import opened Optional

  // ---------------------------------------------------------------- Java int

  const IntMin: int := -0x8000_0000
  const IntMax: int := 0x7fff_ffff

  predicate IsInt32(x: int) { IntMin <= x <= IntMax }

  /** Java's 32-bit `int`. */
  type Int32 = x: int | IsInt32(x)

  // ---------------------------------------------------------------- String.trim

  /** `String.trim` strips every char whose code is at most U+0020, not only spaces. */
  predicate IsBlank(c: char) { c <= ' ' }

  /** How many blanks `s` starts with. */
  function LeadingBlanks(s: string): (n: nat)
    ensures n <= |s|
    ensures forall i | 0 <= i < n :: IsBlank(s[i])
    ensures n < |s| ==> !IsBlank(s[n])
    decreases |s|
  {
    if s != [] && IsBlank(s[0]) then
      var n := 1 + LeadingBlanks(s[1..]);
      assert forall i | 1 <= i < n :: s[1..][i - 1] == s[i];
      n
    else 0
  }

  /** How many blanks `s` ends with. */
  function TrailingBlanks(s: string): (n: nat)
    ensures n <= |s|
    ensures forall i | |s| - n <= i < |s| :: IsBlank(s[i])
    ensures n < |s| ==> !IsBlank(s[|s| - 1 - n])
    decreases |s|
  {
    if s != [] && IsBlank(s[|s| - 1]) then 1 + TrailingBlanks(s[..|s| - 1]) else 0
  }

  /** The leading blanks are those the blank-count properties describe: there is one such count. */
  lemma LeadingBlanksUnique(s: string, n: nat)
    requires n <= |s| && (n < |s| ==> !IsBlank(s[n]))
    requires forall i | 0 <= i < n :: IsBlank(s[i])
    ensures LeadingBlanks(s) == n
  {
  }

  lemma TrailingBlanksUnique(s: string, n: nat)
    requires n <= |s| && (n < |s| ==> !IsBlank(s[|s| - 1 - n]))
    requires forall i | |s| - n <= i < |s| :: IsBlank(s[i])
    ensures TrailingBlanks(s) == n
  {
  }

  /**
   * `String.trim`: the slice of `s` that starts after its leading blanks and ends
   * before its trailing blanks; it neither starts nor ends with a blank.
   */
  function Trim(s: string): (r: string)
    ensures |r| <= |s|
    ensures r == [] || (!IsBlank(r[0]) && !IsBlank(r[|r| - 1]))
    ensures r == [] <==> forall i | 0 <= i < |s| :: IsBlank(s[i])
    ensures LeadingBlanks(s) + |r| <= |s| && r == s[LeadingBlanks(s)..LeadingBlanks(s) + |r|]
    ensures forall i | LeadingBlanks(s) + |r| <= i < |s| :: IsBlank(s[i])
  {
    var a := LeadingBlanks(s);
    if a == |s| then []
    else
      var b := |s| - TrailingBlanks(s);
      s[a..b]
  }

  /** A string with no blank at either end is its own trim. */
  lemma TrimOfTrimmed(s: string)
    requires s == [] || (!IsBlank(s[0]) && !IsBlank(s[|s| - 1]))
    ensures Trim(s) == s
  {
    if s != [] {
      LeadingBlanksUnique(s, 0);
      TrailingBlanksUnique(s, 0);
    }
  }

  /** Trimming twice is trimming once. */
  lemma TrimIdempotent(s: string)
    ensures Trim(Trim(s)) == Trim(s)
  {
    TrimOfTrimmed(Trim(s));
  }

  /** Appending one blank char (a line break, say) does not change the trim. */
  lemma TrimAppendBlank(s: string, c: char)
    requires IsBlank(c)
    ensures Trim(s + [c]) == Trim(s)
  {
    var sc := s + [c];
    var a := LeadingBlanks(s);
    if a == |s| {
      LeadingBlanksUnique(sc, |sc|);
    } else {
      LeadingBlanksUnique(sc, a);
      var n := TrailingBlanks(s);
      TrailingBlanksUnique(sc, n + 1);
      assert sc[a..|sc| - (n + 1)] == s[a..|s| - n];
    }
  }

  // ---------------------------------------------------------------- prefixes, suffixes

  predicate StartsWith(s: string, prefix: string) {
    |prefix| <= |s| && s[..|prefix|] == prefix
  }

  predicate EndsWith(s: string, suffix: string) {
    |suffix| <= |s| && s[|s| - |suffix|..] == suffix
  }

  // ---------------------------------------------------------------- Integer.parseInt / toString

  predicate IsDigit(c: char) { '0' <= c <= '9' }

  predicate AllDigits(s: string) { forall i | 0 <= i < |s| :: IsDigit(s[i]) }

  /** Value of a string of decimal digits, most significant first. */
  function DigitsValue(s: string): nat
    requires AllDigits(s)
    decreases |s|
  {
    if s == [] then 0 else DigitsValue(s[..|s| - 1]) * 10 + (s[|s| - 1] as int - '0' as int)
  }

  predicate HasSign(s: string) { s != [] && (s[0] == '-' || s[0] == '+') }

  /** The digits of a decimal literal: what follows an optional leading sign. */
  function Magnitude(s: string): (d: string)
    ensures |d| <= |s| && d == s[|s| - |d|..]
  {
    if HasSign(s) then s[1..] else s
  }

  /** An optional '+' or '-' followed by at least one ASCII digit. */
  predicate IsIntLiteral(s: string) { Magnitude(s) != [] && AllDigits(Magnitude(s)) }

  /** The value a decimal literal denotes: negated after '-', as is after '+' or no sign. */
  function LiteralValue(s: string): int
    requires IsIntLiteral(s)
  {
    if s[0] == '-' then -(DigitsValue(Magnitude(s)) as int) else DigitsValue(Magnitude(s))
  }

  /**
   * `Integer.parseInt(s)` in radix 10: an optional '+' or '-', then at least one
   * digit; leading zeros are accepted; a value outside the 32-bit range, an empty
   * string, a lone sign or any other char throws (here: None).
   */
  function ParseInt(s: string): (r: Option<Int32>)
    ensures r.Some? <==> IsIntLiteral(s) && IsInt32(LiteralValue(s))
    ensures r.Some? ==> r.value == LiteralValue(s)
    ensures r.Some? ==> s != [] && (IsDigit(s[0]) || s[0] == '-' || s[0] == '+')
    ensures r.Some? ==> AllDigits(s[1..])
  {
    if s == [] then None
    else
      var digits := if s[0] == '-' || s[0] == '+' then s[1..] else s;
      if digits == [] || !AllDigits(digits) then None
      else
        var v: int := if s[0] == '-' then -(DigitsValue(digits) as int) else DigitsValue(digits);
        if IsInt32(v) then Some(v) else None
  }

  function DigitChar(d: nat): (c: char)
    requires d < 10
    ensures IsDigit(c)
  {
    (d + '0' as int) as char
  }

  /** `Integer.toString` of a non-negative value: no sign, no leading zero. */
  function NatToString(n: nat): (r: string)
    ensures r != [] && AllDigits(r)
    ensures DigitsValue(r) == n
    ensures r[0] == '0' ==> n == 0
    decreases n
  {
    if n < 10 then [DigitChar(n)]
    else
      var r := NatToString(n / 10) + [DigitChar(n % 10)];
      assert r[..|r| - 1] == NatToString(n / 10);
      r
  }

  /** `Integer.toString(x)`, the decimal form `"" + x` produces. */
  function IntToString(x: int): (r: string)
    ensures r != []
    ensures forall i | 0 <= i < |r| :: IsDigit(r[i]) || (i == 0 && r[i] == '-')
  {
    if x < 0 then "-" + NatToString(-(x as int)) else NatToString(x)
  }

  /** The decimal form of every Java int parses back to it. */
  lemma ParseIntToString(x: Int32)
    ensures ParseInt(IntToString(x)) == Some(x)
  {
    var s := IntToString(x);
    if x < 0 {
      var n: nat := -(x as int);
      assert s[1..] == NatToString(n);
    } else {
      assert s == NatToString(x);
    }
  }

  lemma {:induction false} DigitsValueLeadingZero(d: string)
    requires AllDigits(d)
    ensures AllDigits("0" + d) && DigitsValue("0" + d) == DigitsValue(d)
    decreases |d|
  {
    var z := "0" + d;
    if d != [] {
      assert z[..|z| - 1] == "0" + d[..|d| - 1];
      DigitsValueLeadingZero(d[..|d| - 1]);
    }
  }

  /**
   * Leading zeros and a '+' sign do not change what a digit string parses to: "007"
   * and "+7" parse like "7", "0" + d like d.
   */
  lemma ParseIntIgnoresZeroAndPlus(d: string)
    requires d != [] && AllDigits(d)
    ensures ParseInt("0" + d) == ParseInt(d)
    ensures ParseInt("+" + d) == ParseInt(d)
  {
    DigitsValueLeadingZero(d);
    assert Magnitude("+" + d) == d;
  }

  // ---------------------------------------------------------------- indexOf, split, replace

  /** `s.indexOf(c)`, with |s| standing for "not found". */
  function IndexOf(s: string, c: char): (k: nat)
    ensures k <= |s|
    ensures k < |s| ==> s[k] == c
    ensures forall i | 0 <= i < k :: s[i] != c
    decreases |s|
  {
    if s == [] then 0
    else if s[0] == c then 0
    else
      var k := 1 + IndexOf(s[1..], c);
      assert forall i | 1 <= i < k :: s[1..][i - 1] == s[i];
      k
  }

  lemma IndexOfAfter(a: string, c: char, b: string)
    requires c !in a
    ensures IndexOf(a + [c] + b, c) == |a|
  {
    var s := a + [c] + b;
    assert forall i | 0 <= i < |a| :: s[i] == a[i];
    assert s[|a|] == c;
  }

  /**
   * `s.split(String.valueOf(sep), limit)` for a positive limit and a separator that
   * is not a regular-expression metacharacter: at most `limit` parts, the last one
   * keeping the rest of the string, empty parts kept.
   */
  function SplitLimit(s: string, sep: char, limit: nat): (parts: seq<string>)
    requires limit >= 1
    ensures 1 <= |parts| <= limit
    decreases limit
  {
    var k := IndexOf(s, sep);
    if limit == 1 || k == |s| then [s]
    else [s[..k]] + SplitLimit(s[k + 1..], sep, limit - 1)
  }

  /** Every field between separators, empty ones included. */
  function Fields(s: string, sep: char): (parts: seq<string>)
    ensures |parts| >= 1
    decreases |s|
  {
    var k := IndexOf(s, sep);
    if k == |s| then [s] else [s[..k]] + Fields(s[k + 1..], sep)
  }

  /** A separator-free string splits into itself. */
  lemma SplitWithoutSeparator(s: string, sep: char, limit: nat)
    requires limit >= 1 && sep !in s
    ensures SplitLimit(s, sep, limit) == [s] && Fields(s, sep) == [s]
  {
    assert IndexOf(s, sep) == |s|;
  }

  /** The first part ends at the first separator. */
  lemma SplitAtFirst(a: string, sep: char, b: string, limit: nat)
    requires limit >= 2 && sep !in a
    ensures SplitLimit(a + [sep] + b, sep, limit) == [a] + SplitLimit(b, sep, limit - 1)
    ensures Fields(a + [sep] + b, sep) == [a] + Fields(b, sep)
  {
    var s := a + [sep] + b;
    IndexOfAfter(a, sep, b);
    assert s[..|a|] == a && s[|a| + 1..] == b;
  }

  function DropTrailingEmpty(parts: seq<string>): (r: seq<string>)
    ensures |r| <= |parts| && r == parts[..|r|]
    ensures r == [] || r[|r| - 1] != []
  {
    if parts != [] && parts[|parts| - 1] == [] then DropTrailingEmpty(parts[..|parts| - 1]) else parts
  }

  /**
   * `s.split(String.valueOf(sep))` (limit 0): the whole string when the separator
   * does not occur, otherwise the fields with trailing empty ones removed.
   */
  function SplitAll(s: string, sep: char): seq<string> {
    if IndexOf(s, sep) == |s| then [s] else DropTrailingEmpty(Fields(s, sep))
  }

  /** `s.replace(target, "")`: every non-overlapping occurrence, left to right, removed. */
  function RemoveAll(s: string, target: string): string
    requires target != []
    decreases |s|
  {
    if StartsWith(s, target) then RemoveAll(s[|target|..], target)
    else if s == [] then []
    else [s[0]] + RemoveAll(s[1..], target)
  }

  /** Removing a suffix whose first char does not occur before it gives back the stem. */
  lemma {:induction false} RemoveAllSuffix(stem: string, target: string)
    requires target != [] && target[0] !in stem
    ensures RemoveAll(stem + target, target) == stem
    decreases |stem|
  {
    var s := stem + target;
    if stem == [] {
      assert s == target;
      assert s[|target|..] == [];
    } else {
      assert s[0] == stem[0] != target[0];
      assert !StartsWith(s, target);
      assert s[1..] == stem[1..] + target;
      RemoveAllSuffix(stem[1..], target);
    }
  }

  // ---------------------------------------------------------------- toUpperCase

  /**
   * Upper-casing of one char, as far as it can make a token equal to "SET" or
   * "GET": the ASCII letters, and U+017F (long s), which Java upper-cases to 'S'.
   * Other chars are left as they are.
   */
  function UpperChar(c: char): char {
    if 'a' <= c <= 'z' then (c as int - 32) as char
    else if c == 0x17F as char then 'S'
    else c
  }

  function UpperCase(s: string): (r: string)
    ensures |r| == |s|
    ensures forall i | 0 <= i < |s| :: r[i] == UpperChar(s[i])
  {
    seq(|s|, i requires 0 <= i < |s| => UpperChar(s[i]))
  }
}
