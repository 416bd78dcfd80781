/** Character classes and string helpers with the meaning JavaScript gives
    them: `\d`, `\s`, `\w`, `trim`, `startsWith`, decimal `toString` and
    `parseInt`. Characters are Unicode scalar values. */
module Text {
  import opened Wrappers

  /** `\d` in a JavaScript regular expression: ASCII digits only. */
  predicate IsDigit(c: char) {
    '0' <= c <= '9'
  }

  predicate AllDigits(s: string) {
    forall i :: 0 <= i < |s| ==> IsDigit(s[i])
  }

  /** `\w`: ASCII letters, digits and the underscore. */
  predicate IsWordChar(c: char) {
    ('a' <= c <= 'z') || ('A' <= c <= 'Z') || IsDigit(c) || c == '_'
  }

  /** The case folding of a case-insensitive regular expression, which
      never maps a character outside ASCII into it: only `A`-`Z` change. */
  function LowerAscii(c: char): char {
    if 'A' <= c <= 'Z' then (c as int + 32) as char else c
  }

  /** `\s`, which is also the set `String.prototype.trim` strips: the
      ECMAScript WhiteSpace and LineTerminator code points. */
  predicate IsSpace(c: char) {
    || c == ' ' || c == '\t' || c == '\n' || c == '\r'
    || c == '\U{000B}' || c == '\U{000C}' || c == '\U{00A0}' || c == '\U{1680}'
    || ('\U{2000}' <= c <= '\U{200A}')
    || c == '\U{2028}' || c == '\U{2029}' || c == '\U{202F}' || c == '\U{205F}'
    || c == '\U{3000}' || c == '\U{FEFF}'
  }

  predicate NoSpace(s: string) {
    forall i :: 0 <= i < |s| ==> !IsSpace(s[i])
  }

  predicate StartsWith(s: string, prefix: string) {
    |prefix| <= |s| && s[..|prefix|] == prefix
  }

  predicate EndsWith(s: string, suffix: string) {
    |suffix| <= |s| && s[|s| - |suffix|..] == suffix
  }

  /** A concatenation starts with its left part and ends with its right. */
  lemma ConcatAffixes(a: string, b: string)
    ensures StartsWith(a + b, a) && EndsWith(a + b, b)
  {
    assert (a + b)[..|a|] == a;
    assert (a + b)[|a + b| - |b|..] == b;
  }

  predicate Contains(s: string, c: char) {
    exists i :: 0 <= i < |s| && s[i] == c
  }

  /** Index of the first `c` in `s`, or -1 (`indexOf`). */
  function IndexOf(s: string, c: char): (r: int)
    ensures -1 <= r < |s|
    ensures r == -1 <==> !Contains(s, c)
    ensures r >= 0 ==> s[r] == c && forall k :: 0 <= k < r ==> s[k] != c
    decreases |s|
  {
    if |s| == 0 then -1
    else if s[0] == c then 0
    else
      var k := IndexOf(s[1..], c);
      assert forall j :: 0 < j < |s| ==> s[j] == s[1..][j - 1];
      if k == -1 then -1 else k + 1
  }

  /** Index of the last `c` in `s`, or -1 (`lastIndexOf`). */
  function LastIndexOf(s: string, c: char): (r: int)
    ensures -1 <= r < |s|
    ensures r == -1 <==> !Contains(s, c)
    ensures r >= 0 ==> s[r] == c && forall k :: r < k < |s| ==> s[k] != c
    decreases |s|
  {
    if |s| == 0 then -1
    else if s[|s| - 1] == c then |s| - 1
    else
      var k := LastIndexOf(s[..|s| - 1], c);
      assert forall j :: 0 <= j < |s| - 1 ==> s[j] == s[..|s| - 1][j];
      k
  }

  /** The character for a decimal digit value. */
  function DigitChar(d: nat): (c: char)
    requires d < 10
    ensures IsDigit(c)
  {
    ('0' as int + d) as char
  }

  /** The numeric value of a digit character. */
  function DigitValue(c: char): (d: nat)
    requires IsDigit(c)
    ensures d < 10
  {
    c as int - '0' as int
  }

  /** Decimal rendering of a natural number (`Number.prototype.toString`
      for a safe integer). */
  function NatToString(n: nat): (r: string)
    ensures 0 < |r| && AllDigits(r)
    ensures r[0] == '0' ==> n == 0
    decreases n
  {
    if n < 10 then [DigitChar(n)] else NatToString(n / 10) + [DigitChar(n % 10)]
  }

  /** Decimal rendering of an integer, with a leading `-` when negative. */
  function IntToString(i: int): (r: string)
    ensures 0 < |r|
    ensures i >= 0 ==> AllDigits(r)
    ensures i < 0 ==> r[0] == '-' && AllDigits(r[1..])
  {
    if i < 0 then "-" + NatToString(-i) else NatToString(i)
  }

  /** The value a string of decimal digits denotes (most significant first). */
  function DigitsValue(s: string): nat
    requires AllDigits(s)
    decreases |s|
  {
    if |s| == 0 then 0 else DigitsValue(s[..|s| - 1]) * 10 + DigitValue(s[|s| - 1])
  }

  /** Reading an integer back from text: an optional `-` followed by one or
      more digits. Anything else is not a number. */
  function ParseInt(s: string): Option<int> {
    if 0 < |s| && AllDigits(s) then Some(DigitsValue(s))
    else if 1 < |s| && s[0] == '-' && AllDigits(s[1..]) then Some(0 - (DigitsValue(s[1..]) as int))
    else None
  }

  lemma {:induction false} DigitsValueOfNatToString(n: nat)
    ensures DigitsValue(NatToString(n)) == n
    decreases n
  {
    if n >= 10 {
      var r := NatToString(n);
      DigitsValueOfNatToString(n / 10);
      assert r[..|r| - 1] == NatToString(n / 10);
      assert r[|r| - 1] == DigitChar(n % 10);
    }
  }

  /** Rendering an integer and reading it back gives the integer. */
  lemma IntToStringRoundTrip(i: int)
    ensures ParseInt(IntToString(i)) == Some(i)
  {
    var r := IntToString(i);
    if i < 0 {
      assert r[1..] == NatToString(-i);
      assert !IsDigit(r[0]);
      assert !AllDigits(r);
      DigitsValueOfNatToString(-i);
      assert ParseInt(r) == Some(0 - (DigitsValue(r[1..]) as int));
    } else {
      DigitsValueOfNatToString(i);
      assert ParseInt(r) == Some(DigitsValue(r) as int);
    }
  }

  function Pow10(k: nat): (r: nat)
    ensures r >= 1
  {
    if k == 0 then 1 else 10 * Pow10(k - 1)
  }

  lemma {:induction false} Pow10Monotone(j: nat, k: nat)
    requires j <= k
    ensures Pow10(j) <= Pow10(k)
    decreases k - j
  {
    if j < k {
      Pow10Monotone(j, k - 1);
    }
  }

  /** The decimal rendering of `n` has exactly as many digits as the
      magnitude of `n` demands. */
  lemma {:induction false} NatToStringLength(n: nat)
    ensures n < Pow10(|NatToString(n)|)
    ensures n > 0 ==> Pow10(|NatToString(n)| - 1) <= n
    decreases n
  {
    if n >= 10 {
      NatToStringLength(n / 10);
    }
  }

  // ---------------------------------------------------------------------
  // The global `parseInt(string)` with no radix argument.
  // ---------------------------------------------------------------------

  /** `s` without its leading `\s` characters. */
  function TrimStart(s: string): (r: string)
    ensures |r| <= |s| && r == s[|s| - |r|..]
    ensures forall i :: 0 <= i < |s| - |r| ==> IsSpace(s[i])
    ensures r == "" || !IsSpace(r[0])
    decreases |s|
  {
    if |s| > 0 && IsSpace(s[0]) then TrimStart(s[1..]) else s
  }

  /** `s` without its trailing `\s` characters. */
  function TrimEnd(s: string): (r: string)
    ensures |r| <= |s| && r == s[..|r|]
    ensures forall i :: |r| <= i < |s| ==> IsSpace(s[i])
    ensures r == "" || !IsSpace(r[|r| - 1])
    decreases |s|
  {
    if |s| > 0 && IsSpace(s[|s| - 1]) then TrimEnd(s[..|s| - 1]) else s
  }

  /** `r` is the slice of `s` starting at `a`, and everything of `s` before
      and after that slice is whitespace. */
  predicate SpacePaddedAt(s: string, r: string, a: nat) {
    && a + |r| <= |s| && r == s[a..a + |r|]
    && (forall i :: 0 <= i < a ==> IsSpace(s[i]))
    && (forall i :: a + |r| <= i < |s| ==> IsSpace(s[i]))
  }

  /** `String.prototype.trim`: the slice of `s` left once the whitespace at
      both ends is cut away. */
  function Trim(s: string): (r: string)
    ensures |r| <= |s|
    ensures r == "" || (!IsSpace(r[0]) && !IsSpace(r[|r| - 1]))
    ensures exists a :: SpacePaddedAt(s, r, a)
  {
    TrimPadding(s);
    TrimEnd(TrimStart(s))
  }

  /** The witness for `Trim`: the slice starts where `TrimStart` cut. */
  lemma TrimPadding(s: string)
    ensures SpacePaddedAt(s, TrimEnd(TrimStart(s)), |s| - |TrimStart(s)|)
  {
    PaddingOfCuts(s, TrimStart(s), TrimEnd(TrimStart(s)));
  }

  /** Cutting a whitespace prefix off `s` to get `t`, then a whitespace
      suffix off `t` to get `r`, leaves `r` padded in `s`. */
  lemma PaddingOfCuts(s: string, t: string, r: string)
    requires |t| <= |s| && t == s[|s| - |t|..]
    requires forall i :: 0 <= i < |s| - |t| ==> IsSpace(s[i])
    requires |r| <= |t| && r == t[..|r|]
    requires forall i :: |r| <= i < |t| ==> IsSpace(t[i])
    ensures SpacePaddedAt(s, r, |s| - |t|)
  {
    var a := |s| - |t|;
    forall i | a + |r| <= i < |s| ensures IsSpace(s[i]) {
      assert s[i] == t[i - a];
    }
  }

  /** Text with no whitespace at either end is its own trim; so trimming
      twice is trimming once. */
  lemma TrimUnpadded(s: string)
    requires s == "" || (!IsSpace(s[0]) && !IsSpace(s[|s| - 1]))
    ensures Trim(s) == s
  {
  }

  /** The value of `c` as a digit in base `radix` (10 or 16), or -1. */
  function RadixDigit(c: char, radix: nat): (d: int)
    requires radix == 10 || radix == 16
    ensures -1 <= d < radix as int
    ensures radix == 10 ==> (d >= 0 <==> IsDigit(c))
    ensures radix == 10 && IsDigit(c) ==> d == DigitValue(c) as int
  {
    if IsDigit(c) then c as int - '0' as int
    else if radix == 16 && 'a' <= c <= 'f' then c as int - 'a' as int + 10
    else if radix == 16 && 'A' <= c <= 'F' then c as int - 'A' as int + 10
    else -1
  }

  /** The length of the longest prefix of `s` made of base-`radix` digits. */
  function DigitRun(s: string, radix: nat): (n: nat)
    requires radix == 10 || radix == 16
    ensures n <= |s|
    ensures forall i :: 0 <= i < n ==> RadixDigit(s[i], radix) >= 0
    ensures n < |s| ==> RadixDigit(s[n], radix) < 0
    ensures n > 0 <==> |s| > 0 && RadixDigit(s[0], radix) >= 0
    decreases |s|
  {
    if |s| > 0 && RadixDigit(s[0], radix) >= 0 then 1 + DigitRun(s[1..], radix) else 0
  }

  /** The value of a string of base-`radix` digits, most significant first. */
  function RadixValue(s: string, radix: nat): nat
    requires radix == 10 || radix == 16
    requires forall i :: 0 <= i < |s| ==> RadixDigit(s[i], radix) >= 0
    decreases |s|
  {
    if |s| == 0 then 0
    else RadixValue(s[..|s| - 1], radix) * radix + RadixDigit(s[|s| - 1], radix)
  }

  lemma {:induction false} RadixValueDecimal(s: string)
    requires AllDigits(s)
    ensures RadixValue(s, 10) == DigitsValue(s)
    decreases |s|
  {
    if |s| > 0 {
      RadixValueDecimal(s[..|s| - 1]);
    }
  }

  /** JavaScript `parseInt(s)`: leading white space is skipped, one `+` or
      `-` is read, a `0x`/`0X` prefix switches to base 16, and the longest
      run of digits that follows is the value; with no digits the result is
      `NaN`, here `None`. The value is exact (no rounding to a double). */
  function ParseIntLenient(s: string): (r: Option<int>)
    ensures var u := Unsigned(TrimStart(s));
            && (!(|u| > 0 && IsDigit(u[0])) ==> r.None?)
            && (|u| > 0 && IsDigit(u[0]) && !HexPrefixed(u) ==> r.Some?)
            && (HexPrefixed(u) ==> (r.Some? <==> |u| > 2 && RadixDigit(u[2], 16) >= 0))
  {
    var t := TrimStart(s);
    var u := Unsigned(t);
    var magnitude := if HexPrefixed(u) then LeadingValue(u[2..], 16) else LeadingValue(u, 10);
    match magnitude
    case None => None
    case Some(v) => Some(if |t| > 0 && t[0] == '-' then -(v as int) else v as int)
  }

  /** The value of the longest run of base-`radix` digits at the head of
      `body`, or `None` when that run is empty. */
  function LeadingValue(body: string, radix: nat): (r: Option<nat>)
    requires radix == 10 || radix == 16
    ensures r.Some? <==> |body| > 0 && RadixDigit(body[0], radix) >= 0
  {
    var n := DigitRun(body, radix);
    if n == 0 then None
    else
      assert forall i :: 0 <= i < n ==> body[..n][i] == body[i];
      Some(RadixValue(body[..n], radix))
  }

  /** `t` without one leading sign character. */
  function Unsigned(t: string): (u: string)
    ensures |u| <= |t| && u == t[|t| - |u|..]
  {
    if |t| > 0 && (t[0] == '-' || t[0] == '+') then t[1..] else t
  }

  predicate HexPrefixed(u: string) {
    |u| >= 2 && u[0] == '0' && (u[1] == 'x' || u[1] == 'X')
  }

  /** `parseInt` reads back every decimal rendering. */
  lemma ParseIntLenientRoundTrip(i: int)
    ensures ParseIntLenient(IntToString(i)) == Some(i)
  {
    var r := IntToString(i);
    var m: nat := if i < 0 then -i else i;
    var d := NatToString(m);
    DigitsValueOfNatToString(m);
    LeadingValueOfDigits(d);
    if i < 0 {
      assert r == "-" + d;
      assert TrimStart(r) == r;
      assert Unsigned(r) == d;
    } else {
      assert IsDigit(r[0]);
      assert TrimStart(r) == r;
      assert Unsigned(r) == d;
    }
  }

  /** Read in base 10, a non-empty digit string is its decimal value, and
      no such string carries a hexadecimal prefix. */
  lemma LeadingValueOfDigits(d: string)
    requires 0 < |d| && AllDigits(d)
    ensures LeadingValue(d, 10) == Some(DigitsValue(d))
    ensures !HexPrefixed(d)
  {
    assert !HexPrefixed(d) by {
      if |d| >= 2 { assert IsDigit(d[1]); }
    }
    DigitRunOfDigits(d);
    assert d[..|d|] == d;
    RadixValueDecimal(d);
  }

  /** Over a string of decimal digits the digit run covers all of it. */
  lemma {:induction false} DigitRunOfDigits(s: string)
    requires AllDigits(s)
    ensures DigitRun(s, 10) == |s|
    decreases |s|
  {
    if |s| > 0 {
      DigitRunOfDigits(s[1..]);
    }
  }
}
