/** The few Java platform operations the core relies on: String.trim,
    Integer.toString and BigDecimal.compareTo, stated on mathematical values. */
module JavaLib {

  /** String.trim drops every leading and trailing character whose code is
      at most U+0020 (space and the control characters). */
  predicate IsTrimmable(c: char)
  {
    c <= ' '
  }

  /** The leading part of String.trim: the suffix of s left after dropping its
      leading trimmable characters. */
  function TrimStart(s: string): (r: string)
    ensures |r| <= |s| && r == s[|s| - |r|..]
    ensures r == [] || !IsTrimmable(r[0])
    ensures forall i :: 0 <= i < |s| - |r| ==> IsTrimmable(s[i])
    decreases |s|
  {
    if |s| > 0 && IsTrimmable(s[0]) then TrimStart(s[1..]) else s
  }

  /** The trailing part of String.trim: the prefix of s left after dropping its
      trailing trimmable characters. */
  function TrimEnd(s: string): (r: string)
    ensures |r| <= |s| && r == s[..|r|]
    ensures r == [] || !IsTrimmable(r[|r| - 1])
    ensures forall i :: |r| <= i < |s| ==> IsTrimmable(s[i])
    decreases |s|
  {
    if |s| > 0 && IsTrimmable(s[|s| - 1]) then TrimEnd(s[..|s| - 1]) else s
  }

  /** String.trim: a contiguous part of s that, when not empty, starts and
      ends with a character that is kept. */
  function Trim(s: string): (r: string)
    ensures exists i :: 0 <= i <= |s| && r <= s[i..]
    ensures r != [] ==> !IsTrimmable(r[0]) && !IsTrimmable(r[|r| - 1])
  {
    var t := TrimStart(s);
    var r := TrimEnd(t);
    assert r <= s[|s| - |t|..];
    r
  }

  /** Trim drops only trimmable characters: s is a trimmable leading run,
      then Trim(s), then a trimmable trailing run. */
  lemma TrimDropsOnlyTrimmable(s: string)
    ensures exists i :: (0 <= i <= |s| - |Trim(s)| && Trim(s) <= s[i..] &&
      (forall k :: 0 <= k < i ==> IsTrimmable(s[k])) &&
      (forall k :: i + |Trim(s)| <= k < |s| ==> IsTrimmable(s[k])))
  {
    var t := TrimStart(s);
    var i := |s| - |t|;
    var j := i + |TrimEnd(t)|;
    assert Trim(s) <= s[i..];
    assert forall k :: j <= k < |s| ==> s[k] == t[k - i];
  }

  /** TrimStart stops at the first kept character. */
  lemma TrimStartAt(s: string, i: nat)
    requires i <= |s|
    requires forall k :: 0 <= k < i ==> IsTrimmable(s[k])
    requires i < |s| ==> !IsTrimmable(s[i])
    ensures TrimStart(s) == s[i..]
  {
  }

  /** TrimEnd stops at the last kept character. */
  lemma TrimEndAt(t: string, j: nat)
    requires j <= |t|
    requires forall k :: j <= k < |t| ==> IsTrimmable(t[k])
    requires j > 0 ==> !IsTrimmable(t[j - 1])
    ensures TrimEnd(t) == t[..j]
  {
  }

  /** A string made only of trimmable characters trims to "". */
  lemma TrimAllTrimmable(s: string, i: nat)
    requires i <= |s|
    requires forall k :: 0 <= k < i ==> IsTrimmable(s[k])
    requires forall k :: i <= k < |s| ==> IsTrimmable(s[k])
    ensures Trim(s) == []
  {
    assert forall k :: 0 <= k < |s| ==> IsTrimmable(s[k]) by {
      forall k | 0 <= k < |s| ensures IsTrimmable(s[k]) {
        if k < i {} else {}
      }
    }
    TrimEmptyIff(s);
  }

  /** The non-empty case of TrimIsMiddle. */
  lemma TrimNonEmptyMiddle(s: string, i: nat, j: nat)
    requires i < j <= |s|
    requires forall k :: 0 <= k < i ==> IsTrimmable(s[k])
    requires forall k :: j <= k < |s| ==> IsTrimmable(s[k])
    requires !IsTrimmable(s[i]) && !IsTrimmable(s[j - 1])
    ensures Trim(s) == s[i..j]
  {
    var t := TrimStart(s);
    TrimStartAt(s, i);
    assert forall k :: j - i <= k < |t| ==> t[k] == s[k + i];
    TrimEndAt(t, j - i);
    SliceOfSuffix(s, i, j);
  }

  lemma SliceOfSuffix(s: string, i: nat, j: nat)
    requires i <= j <= |s|
    ensures s[i..][..j - i] == s[i..j]
  {
  }

  /** Trim is determined: whenever s splits into a trimmable leading run, a
      middle part that is empty or has kept characters at both ends, and a
      trimmable trailing run, Trim(s) is that middle part. */
  lemma TrimIsMiddle(s: string, i: nat, j: nat)
    requires i <= j <= |s|
    requires forall k :: 0 <= k < i ==> IsTrimmable(s[k])
    requires forall k :: j <= k < |s| ==> IsTrimmable(s[k])
    requires i < j ==> !IsTrimmable(s[i]) && !IsTrimmable(s[j - 1])
    ensures Trim(s) == s[i..j]
  {
    if i == j {
      TrimAllTrimmable(s, i);
    } else {
      TrimNonEmptyMiddle(s, i, j);
    }
  }

  /** `s.trim().equals("")` holds exactly when every character of s is trimmable
      (in particular for the empty string). */
  lemma TrimEmptyIff(s: string)
    ensures Trim(s) == "" <==> forall i :: 0 <= i < |s| ==> IsTrimmable(s[i])
  {
  }

  /** A string with a non-trimmable character at both ends is left as it is. */
  lemma TrimKeepsTrimmedString(s: string)
    requires s != [] && !IsTrimmable(s[0]) && !IsTrimmable(s[|s| - 1])
    ensures Trim(s) == s
  {
  }

  // ---------------------------------------------------------------------
  // Integer.toString

  function Pow10(k: nat): (p: nat)
    ensures p >= 1
  {
    if k == 0 then 1 else 10 * Pow10(k - 1)
  }

  predicate IsDigit(c: char)
  {
    '0' <= c <= '9'
  }

  function DigitChar(d: nat): (c: char)
    requires d < 10
    ensures IsDigit(c)
  {
    ('0' as int + d) as char
  }

  /** The decimal digits of n, most significant first, without leading zeros. */
  function Digits(n: nat): (r: string)
    ensures |r| >= 1
    ensures forall i :: 0 <= i < |r| ==> IsDigit(r[i])
    ensures r[0] == '0' ==> n == 0 && r == "0"
    decreases n
  {
    if n < 10 then [DigitChar(n)] else Digits(n / 10) + [DigitChar(n % 10)]
  }

  /** Integer.toString: a '-' sign for a negative number, then the digits of
      its magnitude. */
  function IntToString(n: int): (r: string)
    ensures |r| >= 1 && (r[0] == '-' <==> n < 0)
    ensures n < 0 ==> |r| >= 2
    ensures forall i :: (if n < 0 then 1 else 0) <= i < |r| ==> IsDigit(r[i])
    ensures r[if n < 0 then 1 else 0] == '0' ==> n == 0 && r == "0"
  {
    if n < 0 then "-" + Digits(-n) else Digits(n)
  }

  /** Integer.parseInt on the texts Integer.toString produces. */
  function ParseInt(s: string): int
    requires |s| >= 1
    requires forall i :: (if s[0] == '-' then 1 else 0) <= i < |s| ==> IsDigit(s[i])
  {
    if s[0] == '-' then 0 - DigitsValue(s[1..]) else DigitsValue(s)
  }

  /** Integer.toString loses nothing: parsing the text gives the number back. */
  lemma IntToStringRoundTrip(n: int)
    ensures ParseInt(IntToString(n)) == n
  {
    if n < 0 {
      DigitsRoundTrip(-n);
      assert IntToString(n)[1..] == Digits(-n);
    } else {
      DigitsRoundTrip(n);
    }
  }

  /** The number a digit string denotes (the inverse of Digits). */
  function DigitsValue(s: string): nat
    requires forall i :: 0 <= i < |s| ==> IsDigit(s[i])
  {
    if s == [] then 0
    else 10 * DigitsValue(s[..|s| - 1]) + DigitValue(s[|s| - 1])
  }

  function DigitValue(c: char): (d: nat)
    requires IsDigit(c)
    ensures d < 10
  {
    c as int - '0' as int
  }

  /** Digits loses nothing: reading the digits back gives the number. */
  lemma {:induction false} DigitsRoundTrip(n: nat)
    ensures DigitsValue(Digits(n)) == n
    decreases n
  {
    if n >= 10 {
      var s := Digits(n / 10);
      DigitsRoundTrip(n / 10);
      assert (s + [DigitChar(n % 10)])[..|s|] == s;
    }
  }

  lemma DivTenBelow(n: nat, p: nat)
    ensures n / 10 < p <==> n < 10 * p
  {
  }

  /** The digits of n fit in k characters exactly when n < 10^k. */
  lemma {:induction false} DigitsLength(n: nat, k: nat)
    requires k >= 1
    ensures |Digits(n)| <= k <==> n < Pow10(k)
    decreases n
  {
    if n < 10 {
      assert Pow10(k) == 10 * Pow10(k - 1);
    } else if k == 1 {
      assert |Digits(n)| == |Digits(n / 10)| + 1;
    } else {
      assert |Digits(n)| == |Digits(n / 10)| + 1;
      DigitsLength(n / 10, k - 1);
      DivTenBelow(n, Pow10(k - 1));
    }
  }

  /** `Integer.toString(n).length() == 4` holds for 1000..9999 and, because the
      sign counts, for -999..-100, and for no other integer. */
  lemma IntToStringLength4(n: int)
    ensures |IntToString(n)| == 4 <==> (1000 <= n <= 9999 || -999 <= n <= -100)
  {
    assert Pow10(2) == 100 && Pow10(3) == 1000 && Pow10(4) == 10000;
    if n < 0 {
      DigitsLength(-n, 2);
      DigitsLength(-n, 3);
    } else {
      DigitsLength(n, 3);
      DigitsLength(n, 4);
    }
  }

  // ---------------------------------------------------------------------
  // BigDecimal.compareTo

  /** BigDecimal.compareTo compares by value, ignoring scale, and answers
      -1, 0 or 1. */
  function CompareTo(a: real, b: real): (c: int)
    ensures -1 <= c <= 1
    ensures c < 0 <==> a < b
    ensures c == 0 <==> a == b
    ensures c > 0 <==> a > b
  {
    if a < b then -1 else if a == b then 0 else 1
  }
}
