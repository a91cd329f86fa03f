/** String operations of Python's `str` used by the extraction handler:
    strip(), lower(), startswith()/endswith(), the `in` substring test,
    and the decimal conversions behind str(int) and int(str). */
module Text {

  /** Python's str.isspace(): the characters str.strip() discards. */
  predicate IsSpace(c: char) {
    var n := c as int;
    (0x09 <= n <= 0x0d) || (0x1c <= n <= 0x20) || n == 0x85 || n == 0xa0 || n == 0x1680
    || (0x2000 <= n <= 0x200a) || n == 0x2028 || n == 0x2029 || n == 0x202f
    || n == 0x205f || n == 0x3000
  }

  /** Which characters a trim discards: those of str.strip(), or those
      int() skips around a numeral. int() reads every non-ASCII character
      str.isspace() accepts as a space, but of the ASCII ones it skips only
      tab, the line breaks \n \v \f \r and space, keeping the separators
      U+001C..U+001F that str.strip() removes. */
  datatype Blanks = StripBlanks | IntBlanks

  predicate IsBlank(blanks: Blanks, c: char) {
    IsSpace(c) && (blanks.StripBlanks? || !(0x1c <= c as int <= 0x1f))
  }

  predicate AllBlank(blanks: Blanks, s: string) {
    forall k :: 0 <= k < |s| ==> IsBlank(blanks, s[k])
  }

  predicate AllSpace(s: string) {
    AllBlank(StripBlanks, s)
  }

  /** Neither end of `s` is whitespace. */
  predicate Trimmed(s: string) {
    |s| == 0 || (!IsSpace(s[0]) && !IsSpace(s[|s| - 1]))
  }

  /** `r` is a contiguous piece of `s`. */
  predicate IsSliceOf(r: string, s: string) {
    exists i, j :: 0 <= i <= j <= |s| && r == s[i..j]
  }

  predicate StartsWith(s: string, prefix: string) {
    |prefix| <= |s| && s[..|prefix|] == prefix
  }

  predicate EndsWith(s: string, suffix: string) {
    |suffix| <= |s| && s[|s| - |suffix|..] == suffix
  }

  /** `needle` occurs in `s` starting at position `i`. */
  predicate OccursAt(s: string, needle: string, i: nat) {
    i + |needle| <= |s| && s[i..i + |needle|] == needle
  }

  /** Python's `needle in s` for two strings. */
  predicate Contains(s: string, needle: string) {
    exists i: nat :: i <= |s| && OccursAt(s, needle, i)
  }

  /** `needle in s` holds exactly when `s` splits as a prefix, the needle
      and a suffix. */
  lemma ContainsIsSplit(s: string, needle: string)
    ensures Contains(s, needle) <==> exists a, b :: s == a + needle + b
  {
    if Contains(s, needle) {
      var i: nat :| i <= |s| && OccursAt(s, needle, i);
      assert s == s[..i] + needle + s[i + |needle|..];
    }
    if exists a, b :: s == a + needle + b {
      var a, b :| s == a + needle + b;
      assert s[|a|..|a| + |needle|] == needle;
      assert OccursAt(s, needle, |a|);
    }
  }

  /** Concatenation regroups freely. */
  lemma ConcatAssoc<T>(a: seq<T>, b: seq<T>, c: seq<T>)
    ensures a + b + c == a + (b + c)
  {
  }

  lemma {:induction false} SliceOfSlice(a: string, b: string, c: string)
    requires IsSliceOf(a, b) && IsSliceOf(b, c)
    ensures IsSliceOf(a, c)
  {
    var i, j :| 0 <= i <= j <= |b| && a == b[i..j];
    var i', j' :| 0 <= i' <= j' <= |c| && b == c[i'..j'];
    forall k | 0 <= k < |a| ensures a[k] == c[i' + i + k] {
      assert a[k] == b[i + k];
    }
    assert a == c[i' + i..i' + j];
  }

  /** lstrip(): the leading blanks dropped. */
  function TrimStart(blanks: Blanks, s: string): string {
    if |s| > 0 && IsBlank(blanks, s[0]) then TrimStart(blanks, s[1..]) else s
  }

  /** rstrip(): the trailing blanks dropped. */
  function TrimEnd(blanks: Blanks, s: string): string {
    if |s| > 0 && IsBlank(blanks, s[|s| - 1]) then TrimEnd(blanks, s[..|s| - 1]) else s
  }

  /** lstrip() drops the leading blanks and nothing else. */
  lemma {:induction false} TrimStartDropsSpace(blanks: Blanks, s: string)
    ensures var r := TrimStart(blanks, s);
            && |r| <= |s| && r == s[|s| - |r|..]
            && AllBlank(blanks, s[..|s| - |r|])
            && (|r| == 0 || !IsBlank(blanks, r[0]))
    decreases |s|
  {
    if |s| > 0 && IsBlank(blanks, s[0]) {
      TrimStartDropsSpace(blanks, s[1..]);
      var r := TrimStart(blanks, s[1..]);
      assert s[1..][|s| - 1 - |r|..] == s[|s| - |r|..];
      assert s[..|s| - |r|] == [s[0]] + s[1..][..|s| - 1 - |r|];
    }
  }

  /** rstrip() drops the trailing blanks and nothing else. */
  lemma {:induction false} TrimEndDropsSpace(blanks: Blanks, s: string)
    ensures var r := TrimEnd(blanks, s);
            && |r| <= |s| && r == s[..|r|]
            && AllBlank(blanks, s[|r|..])
            && (|r| == 0 || !IsBlank(blanks, r[|r| - 1]))
    decreases |s|
  {
    if |s| > 0 && IsBlank(blanks, s[|s| - 1]) {
      TrimEndDropsSpace(blanks, s[..|s| - 1]);
      var r := TrimEnd(blanks, s[..|s| - 1]);
      assert s[..|s| - 1][..|r|] == s[..|r|];
      assert s[|r|..] == s[..|s| - 1][|r|..] + [s[|s| - 1]];
    }
  }

  /** Both ends trimmed. */
  function TrimBoth(blanks: Blanks, s: string): (r: string)
    ensures |r| == 0 || (!IsBlank(blanks, r[0]) && !IsBlank(blanks, r[|r| - 1]))
  {
    TrimStartDropsSpace(blanks, s);
    TrimEndDropsSpace(blanks, TrimStart(blanks, s));
    TrimEnd(blanks, TrimStart(blanks, s))
  }

  /** Python's str.strip() with no argument. */
  function Strip(s: string): (r: string)
    ensures Trimmed(r)
  {
    TrimBoth(StripBlanks, s)
  }

  /** The whitespace int() discards around a numeral. */
  function IntStrip(s: string): (r: string)
    ensures |r| == 0 || (!IsBlank(IntBlanks, r[0]) && !IsBlank(IntBlanks, r[|r| - 1]))
  {
    TrimBoth(IntBlanks, s)
  }

  /** Trimming removes blanks only, and only at the two ends. */
  lemma TrimMargins(blanks: Blanks, s: string)
    ensures exists i, j :: && 0 <= i <= j <= |s| && TrimBoth(blanks, s) == s[i..j]
                           && AllBlank(blanks, s[..i]) && AllBlank(blanks, s[j..])
  {
    var t := TrimStart(blanks, s);
    var r := TrimEnd(blanks, t);
    TrimStartDropsSpace(blanks, s);
    TrimEndDropsSpace(blanks, t);
    var i := |s| - |t|;
    assert r == s[i..i + |r|];
    assert s[i + |r|..] == t[|r|..];
  }

  /** strip() removes whitespace only, and only at the two ends. */
  lemma StripMargins(s: string)
    ensures exists i, j :: 0 <= i <= j <= |s| && Strip(s) == s[i..j] && AllSpace(s[..i]) && AllSpace(s[j..])
  {
    TrimMargins(StripBlanks, s);
  }

  lemma StripIsSlice(s: string)
    ensures IsSliceOf(Strip(s), s)
  {
    StripMargins(s);
  }

  lemma {:induction false} TrimStartOfSpacePrefix(a: string, t: string)
    requires AllSpace(a)
    requires |t| == 0 || !IsSpace(t[0])
    ensures TrimStart(StripBlanks, a + t) == t
    decreases |a|
  {
    if |a| > 0 {
      assert (a + t)[1..] == a[1..] + t;
      TrimStartOfSpacePrefix(a[1..], t);
    }
  }

  lemma {:induction false} TrimEndOfSpaceSuffix(t: string, b: string)
    requires AllSpace(b)
    requires |t| == 0 || !IsSpace(t[|t| - 1])
    ensures TrimEnd(StripBlanks, t + b) == t
    decreases |b|
  {
    if |b| > 0 {
      assert (t + b)[..|t + b| - 1] == t + b[..|b| - 1];
      TrimEndOfSpaceSuffix(t, b[..|b| - 1]);
    }
  }

  /** Strip is characterised by its result: whatever trimmed text is
      surrounded by whitespace only is exactly what strip() returns. */
  lemma StripUnique(a: string, r: string, b: string)
    requires AllSpace(a) && AllSpace(b) && Trimmed(r)
    ensures Strip(a + r + b) == r
  {
    if |r| == 0 {
      assert a + r + b == a + b;
      TrimStartOfSpacePrefix(a + b, []);
      assert a + b + [] == a + b;
    } else {
      assert a + r + b == a + (r + b);
      TrimStartOfSpacePrefix(a, r + b);
      TrimEndOfSpaceSuffix(r, b);
    }
  }

  lemma StripIdempotent(s: string)
    ensures Strip(Strip(s)) == Strip(s)
  {
    var r := Strip(s);
    StripUnique([], r, []);
    assert [] + r + [] == r;
  }

  function LowerChar(c: char): char {
    if 'A' <= c <= 'Z' then (c as int + 32) as char else c
  }

  /** str.lower() restricted to the ASCII letters. Python also maps
      U+0130 to "i" followed by U+0307 and U+212A to "k"; README says
      where that matters. */
  function Lower(s: string): (r: string)
    ensures |r| == |s|
    ensures forall k :: 0 <= k < |s| ==> r[k] == LowerChar(s[k])
    // no upper-case ASCII letter survives, and every other character is kept
    ensures forall k :: 0 <= k < |r| ==> !('A' <= r[k] <= 'Z')
    ensures forall k :: 0 <= k < |s| && !('A' <= s[k] <= 'Z') ==> r[k] == s[k]
  {
    seq(|s|, k requires 0 <= k < |s| => LowerChar(s[k]))
  }

  /** No character of `s` lower-cases to `c`. */
  predicate LacksLowered(s: string, c: char) {
    forall i :: 0 <= i < |s| ==> LowerChar(s[i]) != c
  }

  /** No two adjacent characters of `s` lower-case to `c` then `d`. */
  predicate LacksLoweredPair(s: string, c: char, d: char) {
    forall i :: 0 <= i < |s| - 1 ==> !(LowerChar(s[i]) == c && LowerChar(s[i + 1]) == d)
  }

  lemma LacksLoweredJoin(a: string, b: string, c: char)
    requires LacksLowered(a, c) && LacksLowered(b, c)
    ensures LacksLowered(a + b, c)
  {
    assert forall i :: |a| <= i < |a + b| ==> (a + b)[i] == b[i - |a|];
  }

  lemma LacksLoweredPairJoin(a: string, b: string, c: char, d: char)
    requires LacksLoweredPair(a, c, d) && LacksLoweredPair(b, c, d)
    requires |a| == 0 || |b| == 0 || !(LowerChar(a[|a| - 1]) == c && LowerChar(b[0]) == d)
    ensures LacksLoweredPair(a + b, c, d)
  {
    assert forall i :: |a| <= i < |a + b| ==> (a + b)[i] == b[i - |a|];
  }

  /** A needle with a letter the lowered text never shows does not occur in it. */
  lemma AbsentLetter(s: string, needle: string, k: nat)
    requires k < |needle| && LacksLowered(s, needle[k])
    ensures !Contains(Lower(s), needle)
  {
    forall i: nat | i <= |Lower(s)| ensures !OccursAt(Lower(s), needle, i) {
      if i + |needle| <= |Lower(s)| {
        assert Lower(s)[i..i + |needle|][k] == LowerChar(s[i + k]);
      }
    }
  }

  /** A needle with two adjacent letters the lowered text never shows side
      by side does not occur in it. */
  lemma AbsentPair(s: string, needle: string, k: nat)
    requires k + 1 < |needle| && LacksLoweredPair(s, needle[k], needle[k + 1])
    ensures !Contains(Lower(s), needle)
  {
    forall i: nat | i <= |Lower(s)| ensures !OccursAt(Lower(s), needle, i) {
      if i + |needle| <= |Lower(s)| {
        assert Lower(s)[i..i + |needle|][k] == LowerChar(s[i + k]);
        assert Lower(s)[i..i + |needle|][k + 1] == LowerChar(s[i + k + 1]);
      }
    }
  }

  predicate IsDigit(c: char) {
    '0' <= c <= '9'
  }

  predicate AllDigits(s: string) {
    forall k :: 0 <= k < |s| ==> IsDigit(s[k])
  }

  function DigitChar(d: nat): (c: char)
    requires d < 10
    ensures IsDigit(c) && c as int - '0' as int == d
  {
    ('0' as int + d) as char
  }

  /** The decimal numeral Python's str() gives for a natural number. */
  function NatToDecimal(n: nat): (r: string)
    ensures |r| > 0 && AllDigits(r)
    ensures r[0] == '0' ==> n == 0
  {
    if n < 10 then [DigitChar(n)] else NatToDecimal(n / 10) + [DigitChar(n % 10)]
  }

  /** Python's str() of an int. */
  function IntToDecimal(n: int): (r: string)
    ensures |r| > 0
    // a minus sign exactly for a negative number, then digits only
    ensures r[0] == '-' <==> n < 0
    ensures n < 0 ==> |r| > 1 && AllDigits(r[1..])
    ensures n >= 0 ==> AllDigits(r)
  {
    if n < 0 then "-" + NatToDecimal(-n) else NatToDecimal(n)
  }

  /** The value of a string of decimal digits, most significant first. */
  function DigitsValue(s: string): nat
    requires AllDigits(s)
  {
    if |s| == 0 then 0 else DigitsValue(s[..|s| - 1]) * 10 + (s[|s| - 1] as int - '0' as int)
  }

  lemma {:induction false} DecimalRoundTrip(n: nat)
    ensures DigitsValue(NatToDecimal(n)) == n
  {
    if n >= 10 {
      var r := NatToDecimal(n);
      assert r[..|r| - 1] == NatToDecimal(n / 10);
      DecimalRoundTrip(n / 10);
    }
  }
}
