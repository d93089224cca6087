/**
 * The pieces of Python's string handling the parsers rely on: `str.isspace`,
 * `str.strip`, the `in` operator on strings, the two regular expressions
 * `Loc (\d+)` and `\s+\d+$`, `" ".join`, and the `{n:03d}` format.
 */
module Text {
  import opened Wrappers

  /** Python's `str.isspace()`; the regex class `\s` on `str` patterns is the same set. */
  predicate IsSpace(c: char) {
    var n := c as int;
    n == 0x20 || 0x09 <= n <= 0x0D || 0x1C <= n <= 0x1F || n == 0x85 || n == 0xA0 || n == 0x1680
    || 0x2000 <= n <= 0x200A || n == 0x2028 || n == 0x2029 || n == 0x202F || n == 0x205F || n == 0x3000
  }

  /** The ASCII digits matched by `\d` (see README for the non-ASCII ones). */
  predicate IsDigit(c: char) {
    '0' <= c <= '9'
  }

  predicate AllSpace(s: string) {
    forall i :: 0 <= i < |s| ==> IsSpace(s[i])
  }

  predicate AllDigits(s: string) {
    forall i :: 0 <= i < |s| ==> IsDigit(s[i])
  }

  /** `s.rstrip()` */
  function TrimRight(s: string): string {
    if |s| > 0 && IsSpace(s[|s| - 1]) then TrimRight(s[..|s| - 1]) else s
  }

  /** `s.lstrip()` */
  function TrimLeft(s: string): string {
    if |s| > 0 && IsSpace(s[0]) then TrimLeft(s[1..]) else s
  }

  /** `s.strip()` */
  function Strip(s: string): string {
    TrimLeft(TrimRight(s))
  }

  /** `rstrip` keeps the longest prefix that does not end in whitespace. */
  lemma {:induction false} TrimRightFacts(s: string)
    ensures var r := TrimRight(s);
      |r| <= |s| && r == s[..|r|] && (r == [] || !IsSpace(r[|r| - 1])) && AllSpace(s[|r|..])
  {
    if |s| > 0 && IsSpace(s[|s| - 1]) {
      TrimRightFacts(s[..|s| - 1]);
      var r := TrimRight(s);
      assert s[|r|..] == s[..|s| - 1][|r|..] + [s[|s| - 1]];
    }
  }

  /** `lstrip` keeps the longest suffix that does not start with whitespace. */
  lemma {:induction false} TrimLeftFacts(s: string)
    ensures var r := TrimLeft(s);
      |r| <= |s| && r == s[|s| - |r|..] && (r == [] || !IsSpace(r[0])) && AllSpace(s[..|s| - |r|])
  {
    if |s| > 0 && IsSpace(s[0]) {
      TrimLeftFacts(s[1..]);
      var r := TrimLeft(s);
      assert s[..|s| - |r|] == [s[0]] + s[1..][..|s| - 1 - |r|];
    }
  }

  /**
   * `strip` returns a slice of `s` that neither starts nor ends with
   * whitespace, with only whitespace cut away on either side; it is empty
   * exactly when `s` is all whitespace.
   */
  lemma StripFacts(s: string)
    ensures var r := Strip(s);
      && (r == [] || (!IsSpace(r[0]) && !IsSpace(r[|r| - 1])))
      && (r == [] <==> AllSpace(s))
      && exists a :: 0 <= a <= |s| - |r| && r == s[a..][..|r|] && AllSpace(s[..a]) && AllSpace(s[a..][|r|..])
  {
    var t := TrimRight(s);
    TrimRightFacts(s);
    TrimLeftFacts(t);
    var r := TrimLeft(t);
    var a := |t| - |r|;
    assert r == s[a..][..|r|];
    assert s[..a] == t[..a];
    assert s[a..][|r|..] == s[|t|..];
    if r == [] {
      assert s == t + s[|t|..];
    }
  }

  /** A string that neither starts nor ends with whitespace is its own strip. */
  lemma StripKeeps(s: string)
    requires |s| > 0 && !IsSpace(s[0]) && !IsSpace(s[|s| - 1])
    ensures Strip(s) == s
  {
  }

  /** A trailing blank, which `content += line + " "` leaves behind, does not survive `strip()`. */
  lemma StripIgnoresTrailingSpace(t: string)
    ensures Strip(t + " ") == Strip(t)
  {
    assert (t + " ")[..|t + " "| - 1] == t;
  }

  predicate StartsWith(s: string, p: string) {
    |p| <= |s| && s[..|p|] == p
  }

  /** Python's `t in s` on strings, as a scan over the offsets of `s`. */
  predicate Contains(s: string, t: string) {
    if StartsWith(s, t) then true
    else if |s| == 0 then false
    else Contains(s[1..], t)
  }

  /** `t in s` holds exactly when `t` occurs in `s` at some offset. */
  lemma {:induction false} ContainsFacts(s: string, t: string)
    ensures Contains(s, t) <==> exists i :: 0 <= i <= |s| - |t| && StartsWith(s[i..], t)
  {
    if StartsWith(s, t) {
      assert s[0..] == s;
    } else if |s| > 0 {
      ContainsFacts(s[1..], t);
      assert forall i :: 1 <= i <= |s| ==> s[i..] == s[1..][i - 1..];
    }
  }

  lemma ContainsAt(s: string, t: string, i: nat)
    requires i + |t| <= |s| && s[i..i + |t|] == t
    ensures Contains(s, t)
  {
    assert StartsWith(s[i..], t);
    ContainsFacts(s, t);
  }

  /** `t in a + t + b` */
  lemma ContainsMiddle(a: string, t: string, b: string)
    ensures Contains(a + t + b, t)
  {
    ContainsAt(a + t + b, t, |a|);
  }

  /** The maximal run of digits at the start of `s`, i.e. what `\d+` consumes greedily. */
  function LeadingDigits(s: string): string {
    if |s| > 0 && IsDigit(s[0]) then [s[0]] + LeadingDigits(s[1..]) else []
  }

  lemma {:induction false} LeadingDigitsFacts(s: string)
    ensures var d := LeadingDigits(s);
      && |d| <= |s| && d == s[..|d|] && AllDigits(d)
      && (|d| == |s| || !IsDigit(s[|d|]))
  {
    if |s| > 0 && IsDigit(s[0]) {
      LeadingDigitsFacts(s[1..]);
    }
  }

  /** `re.match(r'Loc (\d+)', s)` */
  function MatchLoc(s: string): Option<string> {
    if |s| > 4 && s[..4] == "Loc " && IsDigit(s[4]) then Some(LeadingDigits(s[4..])) else None
  }

  /**
   * The match succeeds exactly when `s` starts with "Loc " and a digit, and
   * group 1 is the whole digit run that follows.
   */
  lemma MatchLocFacts(s: string)
    ensures MatchLoc(s).Some? <==> |s| > 4 && s[..4] == "Loc " && IsDigit(s[4])
    ensures MatchLoc(s).Some? ==> var g := MatchLoc(s).value;
      && g != [] && AllDigits(g) && 4 + |g| <= |s| && s[..4 + |g|] == "Loc " + g
      && (|s| == 4 + |g| || !IsDigit(s[4 + |g|]))
  {
    if |s| > 4 && s[..4] == "Loc " && IsDigit(s[4]) {
      var d := LeadingDigits(s[4..]);
      LeadingDigitsFacts(s[4..]);
      assert s[..4 + |d|] == s[..4] + s[4..][..|d|];
    }
  }

  /** Every character of s[lo..hi] is whitespace. */
  ghost predicate SpacesIn(s: string, lo: int, hi: int) {
    0 <= lo && hi <= |s| && forall i :: lo <= i < hi ==> IsSpace(s[i])
  }

  /** Every character of s[lo..] is a digit. */
  ghost predicate DigitsFrom(s: string, lo: int) {
    0 <= lo && forall i :: lo <= i < |s| ==> IsDigit(s[i])
  }

  /** Length of the maximal run of digits at the end of `s`. */
  function TrailingDigits(s: string): (n: nat)
    ensures n <= |s| && DigitsFrom(s, |s| - n)
    ensures n == |s| || !IsDigit(s[|s| - n - 1])
  {
    if |s| > 0 && IsDigit(s[|s| - 1]) then
      var n := TrailingDigits(s[..|s| - 1]);
      assert forall i :: 0 <= i < |s| - 1 ==> s[i] == s[..|s| - 1][i];
      n + 1
    else
      0
  }

  /** Length of the maximal run of whitespace ending at offset `hi` of `s`. */
  function SpacesBefore(s: string, hi: nat): (n: nat)
    requires hi <= |s|
    ensures n <= hi && SpacesIn(s, hi - n, hi)
    ensures n == hi || !IsSpace(s[hi - n - 1])
  {
    if hi > 0 && IsSpace(s[hi - 1]) then SpacesBefore(s, hi - 1) + 1 else 0
  }

  /** The pattern `\s+\d+` followed by the very end of the string matches at offset `k` of `s`. */
  ghost predicate PageNumberAt(s: string, k: int) {
    0 <= k < |s| && exists j :: k < j < |s| && SpacesIn(s, k, j) && DigitsFrom(s, j)
  }

  /**
   * `re.sub(r'\s+\d+$', '', s)` for an `s` that does not end in a newline:
   * when the pattern matches anywhere, the text from the leftmost match on is
   * removed; otherwise `s` is returned unchanged.
   */
  function DropPageNumber(s: string): string {
    var d := TrailingDigits(s);
    var w := SpacesBefore(s, |s| - d);
    if d > 0 && w > 0 then s[..|s| - d - w] else s
  }

  /**
   * What the substitution does: nothing when the pattern matches nowhere;
   * otherwise it cuts `s` at the leftmost offset where the pattern matches.
   */
  lemma DropPageNumberSpec(s: string)
    ensures (forall k :: 0 <= k < |s| ==> !PageNumberAt(s, k)) ==> DropPageNumber(s) == s
    ensures (exists k :: 0 <= k < |s| && PageNumberAt(s, k)) ==>
              var r := DropPageNumber(s);
              |r| < |s| && r == s[..|r|] && PageNumberAt(s, |r|) && forall k :: 0 <= k < |r| ==> !PageNumberAt(s, k)
  {
    var d := TrailingDigits(s);
    var w := SpacesBefore(s, |s| - d);
    DropPageNumberFacts(s, d, w);
  }

  lemma DropPageNumberFacts(s: string, d: nat, w: nat)
    requires d == TrailingDigits(s) && w == SpacesBefore(s, |s| - d)
    ensures d > 0 && w > 0 ==> PageNumberAt(s, |s| - d - w)
    ensures forall k :: 0 <= k < |s| && PageNumberAt(s, k) ==> d > 0 && w > 0 && k >= |s| - d - w
  {
    if d > 0 && w > 0 {
      assert SpacesIn(s, |s| - d - w, |s| - d) && DigitsFrom(s, |s| - d);
    }
    forall k | 0 <= k < |s| && PageNumberAt(s, k)
      ensures d > 0 && w > 0 && k >= |s| - d - w
    {
      var j :| k < j < |s| && SpacesIn(s, k, j) && DigitsFrom(s, j);
      SpaceNotDigit(s[j - 1]);
    }
  }

  lemma SpaceNotDigit(c: char)
    requires IsSpace(c)
    ensures !IsDigit(c)
  {
  }

  /**
   * `re.sub(r'\s+\d+$', '', s)` in general: `$` also matches just before a
   * final newline, which is then kept.
   */
  function RemovePageNumber(s: string): (r: string)
    ensures |s| > 0 && s[|s| - 1] == '\n' ==> r == DropPageNumber(s[..|s| - 1]) + "\n"
    ensures (|s| == 0 || s[|s| - 1] != '\n') ==> r == DropPageNumber(s)
  {
    if |s| > 0 && s[|s| - 1] == '\n' then DropPageNumber(s[..|s| - 1]) + "\n" else DropPageNumber(s)
  }

  /** `" ".join(xs)` */
  function JoinSpace(xs: seq<string>): string {
    if |xs| == 0 then ""
    else if |xs| == 1 then xs[0]
    else JoinSpace(xs[..|xs| - 1]) + " " + xs[|xs| - 1]
  }

  function DigitChar(d: nat): (c: char)
    requires d < 10
    ensures IsDigit(c)
  {
    ('0' as int + d) as char
  }

  function DigitValue(c: char): nat
    requires IsDigit(c)
  {
    c as int - '0' as int
  }

  /** `str(n)` for a natural number: decimal digits, no leading zero. */
  function Decimal(n: nat): (s: string)
    ensures s != [] && AllDigits(s)
    ensures n >= 10 ==> s[0] != '0'
    ensures |s| == 1 <==> n < 10
  {
    if n < 10 then [DigitChar(n)] else Decimal(n / 10) + [DigitChar(n % 10)]
  }

  /** The value of a string of decimal digits, as `int(s)` reads it. */
  function DecimalValue(s: string): nat
    requires AllDigits(s)
  {
    if s == [] then 0 else 10 * DecimalValue(s[..|s| - 1]) + DigitValue(s[|s| - 1])
  }

  /** `f"{n:03d}"`: the decimal form of `n`, left-padded with zeros to at least three characters. */
  function ZeroPad3(n: nat): (s: string)
    ensures AllDigits(s) && |s| >= 3
  {
    var d := Decimal(n);
    if |d| == 1 then "00" + d else if |d| == 2 then "0" + d else d
  }

  lemma {:induction false} DecimalRoundTrip(n: nat)
    ensures DecimalValue(Decimal(n)) == n
  {
    if n >= 10 {
      var s := Decimal(n);
      assert s[..|s| - 1] == Decimal(n / 10);
      DecimalRoundTrip(n / 10);
    }
  }

  lemma {:induction false} LeadingZeroValue(s: string)
    requires AllDigits(s)
    ensures AllDigits("0" + s) && DecimalValue("0" + s) == DecimalValue(s)
  {
    if s != [] {
      var t := "0" + s;
      assert t[..|t| - 1] == "0" + s[..|s| - 1];
      LeadingZeroValue(s[..|s| - 1]);
    }
  }

  /** The zero-padded counter reads back as the counter: distinct counters give distinct names. */
  lemma ZeroPad3RoundTrip(n: nat)
    ensures DecimalValue(ZeroPad3(n)) == n
  {
    var d := Decimal(n);
    DecimalRoundTrip(n);
    if |d| == 1 {
      assert ZeroPad3(n) == "0" + ("0" + d);
      LeadingZeroValue(d);
      LeadingZeroValue("0" + d);
    } else if |d| == 2 {
      assert ZeroPad3(n) == "0" + d;
      LeadingZeroValue(d);
    }
  }

  /** Below 1000 the padded counter is exactly three digits: hundreds, tens, units. */
  lemma ZeroPad3Digits(n: nat)
    requires n < 1000
    ensures ZeroPad3(n) == [DigitChar(n / 100), DigitChar(n / 10 % 10), DigitChar(n % 10)]
  {
    if n >= 100 {
      assert Decimal(n) == Decimal(n / 10) + [DigitChar(n % 10)];
      assert Decimal(n / 10) == Decimal(n / 100) + [DigitChar(n / 10 % 10)];
    } else if n >= 10 {
      assert Decimal(n) == Decimal(n / 10) + [DigitChar(n % 10)];
    }
  }

  /** From 1000 on the counter is written with all its digits, more than three. */
  lemma ZeroPad3Wide(n: nat)
    requires n >= 1000
    ensures ZeroPad3(n) == Decimal(n) && |ZeroPad3(n)| > 3
  {
    assert Decimal(n) == Decimal(n / 10) + [DigitChar(n % 10)];
    assert Decimal(n / 10) == Decimal(n / 100) + [DigitChar(n / 10 % 10)];
    assert |Decimal(n / 100)| >= 2;
  }

  /** Multiset union cancels: equal sums with a common part, on either side, have equal rests. */
  lemma MultisetCancel(x: multiset<string>, y: multiset<string>, n: multiset<string>)
    requires x + n == y + n || n + x == n + y
    ensures x == y
  {
    forall e
      ensures x[e] == y[e]
    {
      assert (x + n)[e] == (n + x)[e] == x[e] + n[e];
      assert (y + n)[e] == (n + y)[e] == y[e] + n[e];
    }
  }
}
