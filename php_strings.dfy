/**
 * The PHP string built-ins the endpoint relies on: `empty()` on a string,
 * `trim()`, `strtolower()`, `strpos(...) !== false` and the decimal
 * rendering of an integer inside a double-quoted string.
 */
module PhpStrings {

  /** PHP `empty($s)` for a string: true for "" and for "0" only. */
  predicate IsEmpty(s: string) {
    s == "" || s == "0"
  }

  /** The characters `trim()` strips by default: space, \t, \n, \r, \0 and \x0B. */
  predicate IsTrimmable(c: char) {
    c == ' ' || c == '\t' || c == '\n' || c == '\r' || c == '\0' || c as int == 11
  }

  /** Number of characters at the front of `s` that belong to the class `p`. */
  function LeadingCount(s: string, p: char -> bool): (n: nat)
    ensures n <= |s|
    ensures forall k :: 0 <= k < n ==> p(s[k])
    ensures n < |s| ==> !p(s[n])
  {
    if |s| > 0 && p(s[0]) then 1 + LeadingCount(s[1..], p) else 0
  }

  /** Number of characters at the end of `s` that belong to the class `p`. */
  function TrailingCount(s: string, p: char -> bool): (n: nat)
    ensures n <= |s|
    ensures forall k :: |s| - n <= k < |s| ==> p(s[k])
    ensures n < |s| ==> !p(s[|s| - 1 - n])
  {
    if |s| > 0 && p(s[|s| - 1]) then 1 + TrailingCount(s[..|s| - 1], p) else 0
  }

  /**
   * PHP `trim($s)`: `s` without its strippable prefix and suffix, so that
   * the result neither starts nor ends with a strippable character.
   */
  function Trim(s: string): (r: string)
    ensures |r| <= |s|
    ensures r == [] || (!IsTrimmable(r[0]) && !IsTrimmable(r[|r| - 1]))
  {
    var t := s[LeadingCount(s, IsTrimmable)..];
    t[..|t| - TrailingCount(t, IsTrimmable)]
  }

  /**
   * `trim` cuts only at the ends: the result is a contiguous slice of `s`,
   * and everything before and after that slice is strippable.
   */
  lemma TrimIsInfix(s: string)
    ensures exists a, b ::
      && 0 <= a <= b <= |s|
      && Trim(s) == s[a..b]
      && (forall k :: 0 <= k < a ==> IsTrimmable(s[k]))
      && (forall k :: b <= k < |s| ==> IsTrimmable(s[k]))
  {
    var a := LeadingCount(s, IsTrimmable);
    var t := s[a..];
    var b := a + |t| - TrailingCount(t, IsTrimmable);
    assert Trim(s) == s[a..b];
    assert forall k :: b <= k < |s| ==> s[k] == t[k - a];
  }

  /** `trim` removes strippable characters only: every other character of `s` is still there. */
  lemma TrimKeepsSolid(s: string)
    ensures forall c :: c in s && !IsTrimmable(c) ==> c in Trim(s)
  {
    TrimIsInfix(s);
    var a, b :| && 0 <= a <= b <= |s|
                && Trim(s) == s[a..b]
                && (forall k :: 0 <= k < a ==> IsTrimmable(s[k]))
                && (forall k :: b <= k < |s| ==> IsTrimmable(s[k]));
    forall c | c in s && !IsTrimmable(c)
      ensures c in Trim(s)
    {
      var k :| 0 <= k < |s| && s[k] == c;
      assert Trim(s)[k - a] == c;
    }
  }

  /** A string that neither starts nor ends with a strippable character is left as it is. */
  lemma TrimKeeps(s: string)
    requires s == [] || (!IsTrimmable(s[0]) && !IsTrimmable(s[|s| - 1]))
    ensures Trim(s) == s
  {
    var a := LeadingCount(s, IsTrimmable);
    assert s != [] ==> !IsTrimmable(s[0]);
    var t := s[a..];
    assert t == s;
    var b := TrailingCount(t, IsTrimmable);
    assert t != [] ==> !IsTrimmable(t[|t| - 1]);
    assert t[..|t| - b] == s;
  }

  /** PHP 8 `strtolower` on one character: ASCII A-Z only. */
  function LowerChar(c: char): char {
    if 'A' <= c <= 'Z' then (c as int - 'A' as int + 'a' as int) as char else c
  }

  /** PHP 8 `strtolower`. */
  function ToLower(s: string): (r: string)
    ensures |r| == |s|
    ensures forall k :: 0 <= k < |s| ==> r[k] == LowerChar(s[k])
  {
    seq(|s|, k requires 0 <= k < |s| => LowerChar(s[k]))
  }

  /** `t` occurs in `s` starting at index `i`. */
  ghost predicate OccursAt(s: string, t: string, i: int) {
    0 <= i && i + |t| <= |s| && s[i..i + |t|] == t
  }

  /** `strpos($s, $t) !== false`, computed by scanning from the left. */
  function Contains(s: string, t: string): (r: bool)
    ensures r <==> exists i :: OccursAt(s, t, i)
    decreases |s|
  {
    if t <= s then
      assert OccursAt(s, t, 0);
      true
    else if |s| == 0 then
      assert forall i :: !OccursAt(s, t, i);
      false
    else
      var r := Contains(s[1..], t);
      assert forall i :: OccursAt(s, t, i) && i > 0 ==> OccursAt(s[1..], t, i - 1);
      assert forall i :: OccursAt(s[1..], t, i) ==> OccursAt(s, t, i + 1);
      assert !OccursAt(s, t, 0);
      r
  }

  function DigitChar(d: nat): char
    requires d < 10
  {
    ('0' as int + d) as char
  }

  /** Decimal digits of a natural number, most significant first. */
  function NatDecimal(n: nat): string
    decreases n
  {
    if n < 10 then [DigitChar(n)] else NatDecimal(n / 10) + [DigitChar(n % 10)]
  }

  /** An integer as PHP interpolates it into a string. */
  function Decimal(i: int): string {
    if i < 0 then "-" + NatDecimal(-i) else NatDecimal(i)
  }
}
