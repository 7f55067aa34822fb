/** JavaScript's global `parseInt` without a radix argument, as both variants
    apply it to environment variables: leading white space is skipped, one
    sign is read, a `0x`/`0X` prefix selects base 16, and the longest run of
    digits of that base is read; with no digit the result is NaN (`None`).
    An unset variable is `undefined`, which reads as the string "undefined"
    and so gives NaN as well. */
module Numbers {
  import opened Options
  import opened Text

  predicate IsHexDigit(c: char) {
    IsDigit(c) || ('a' <= c <= 'f') || ('A' <= c <= 'F')
  }

  function HexDigitValue(c: char): (v: nat)
    requires IsHexDigit(c)
    ensures v < 16
    ensures IsDigit(c) ==> v == DigitValue(c)
  {
    if IsDigit(c) then DigitValue(c)
    else if 'a' <= c <= 'f' then (c as int) - ('a' as int) + 10
    else (c as int) - ('A' as int) + 10
  }

  /** End of the maximal run of hexadecimal digits starting at `i`. */
  function SkipHexDigits(s: string, i: nat): (j: nat)
    requires i <= |s|
    ensures i <= j <= |s|
    ensures forall k :: i <= k < j ==> IsHexDigit(s[k])
    ensures j == |s| || !IsHexDigit(s[j])
    decreases |s| - i
  {
    if i < |s| && IsHexDigit(s[i]) then SkipHexDigits(s, i + 1) else i
  }

  /** A run of hexadecimal digits, read most significant digit first. */
  function HexValue(s: string): nat
    requires forall k :: 0 <= k < |s| ==> IsHexDigit(s[k])
    decreases |s|
  {
    if |s| == 0 then 0 else HexValue(s[..|s| - 1]) * 16 + HexDigitValue(s[|s| - 1])
  }

  /** `0x` or `0X` starts at index `i`. */
  predicate HexPrefixAt(s: string, i: nat) {
    i + 2 <= |s| && s[i] == '0' && (s[i + 1] == 'x' || s[i + 1] == 'X')
  }

  function Signed(negative: bool, m: nat): int {
    if negative then -(m as int) else m
  }

  /** The digits after the sign, starting at `j`: a hexadecimal run after a
      `0x` prefix, otherwise a decimal run; NaN when the run is empty. */
  function ReadDigits(s: string, j: nat, negative: bool): (r: Option<int>)
    requires j <= |s|
    ensures (forall k :: j <= k < |s| ==> !IsDigit(s[k])) ==> r.None?
  {
    if HexPrefixAt(s, j) then
      var e := SkipHexDigits(s, j + 2);
      if e == j + 2 then None else Some(Signed(negative, HexValue(s[j + 2..e])))
    else
      var e := SkipDigits(s, j);
      if e == j then None else Some(Signed(negative, DecimalValue(s[j..e])))
  }

  /** `parseInt(raw)`; `raw` is `None` when the variable is unset. A negative
      zero is read as 0: both are falsy, which is all the settings ask. */
  function ParseInt(raw: Option<string>): (r: Option<int>)
    ensures raw.None? ==> r.None?
    ensures raw.Some? && (forall k :: 0 <= k < |raw.value| ==> !IsDigit(raw.value[k])) ==> r.None?
  {
    match raw
    case None => None
    case Some(s) =>
      var i := SkipSpaces(s, 0);
      if i < |s| && s[i] == '-' then ReadDigits(s, i + 1, true)
      else if i < |s| && s[i] == '+' then ReadDigits(s, i + 1, false)
      else ReadDigits(s, i, false)
  }

  /** `Decimal(m)` starts at `j` in `s`, followed by the end or by a
      character that neither extends the digit run nor turns a lone 0 into
      a hexadecimal prefix: `parseInt` reads exactly `m` there. */
  lemma ReadsDecimalAt(s: string, j: nat, m: nat)
    requires j + |Decimal(m)| <= |s| && s[j..j + |Decimal(m)|] == Decimal(m)
    requires j + |Decimal(m)| < |s| ==> !IsDigit(s[j + |Decimal(m)|])
    requires m == 0 && j + 1 < |s| ==> s[j + 1] != 'x' && s[j + 1] != 'X'
    ensures !HexPrefixAt(s, j)
    ensures SkipDigits(s, j) == j + |Decimal(m)|
    ensures DecimalValue(s[j..SkipDigits(s, j)]) == m
  {
    var d := Decimal(m);
    assert forall k :: j <= k < j + |d| ==> s[k] == d[k - j];
    DigitRunUnique(s, j, j + |d|);
    DecimalRoundTrip(m);
  }

  /** Where the pieces of `a + d + b` sit. */
  lemma Layout(a: string, d: string, b: string)
    ensures var s := a + d + b;
            && |s| == |a| + |d| + |b|
            && s[|a|..|a| + |d|] == d
            && (b != [] ==> s[|a| + |d|] == b[0])
            && (forall k :: 0 <= k < |a| ==> s[k] == a[k])
  {
    var s := a + d + b;
    assert s[|a|..|a| + |d|] == d;
  }

  /** `parseInt` reads back a count written in decimal, whatever white space
      precedes it and whatever non-digit follows it, except that a lone 0
      followed by `x` or `X` starts a hexadecimal number. */
  lemma ParseIntReadsDecimal(pre: string, n: nat, post: string)
    requires AllSpace(pre)
    requires post == [] || !IsDigit(post[0])
    requires n == 0 && post != [] ==> post[0] != 'x' && post[0] != 'X'
    ensures ParseInt(Some(pre + Decimal(n) + post)) == Some(n)
  {
    var d := Decimal(n);
    var s := pre + d + post;
    assert !IsSpace(s[|pre|]) && SkipSpaces(s, 0) == |pre| by {
      Layout(pre, d, post);
      assert s[|pre|] == d[0];
      SpaceRunUnique(s, 0, |pre|);
    }
    assert !HexPrefixAt(s, |pre|) && SkipDigits(s, |pre|) > |pre|
           && DecimalValue(s[|pre|..SkipDigits(s, |pre|)]) == n by {
      Layout(pre, d, post);
      ReadsDecimalAt(s, |pre|, n);
    }
    assert ParseInt(Some(s)) == ReadDigits(s, |pre|, false);
  }

  /** Where the pieces of `pre + "-" + d + post` sit, `pre` being white space. */
  lemma NegativeLayout(pre: string, d: string, post: string)
    requires AllSpace(pre)
    ensures var s := pre + ("-" + d) + post;
            && |s| == |pre| + 1 + |d| + |post|
            && SkipSpaces(s, 0) == |pre| && s[|pre|] == '-'
            && s[|pre| + 1..|pre| + 1 + |d|] == d
            && (post != [] ==> s[|pre| + 1 + |d|] == post[0])
  {
    var a := pre + "-";
    var s := a + d + post;
    assert pre + ("-" + d) + post == s;
    Layout(a, d, post);
    assert s[|pre|] == a[|pre|];
    SpaceRunUnique(s, 0, |pre|);
  }

  /** The same with a minus sign in front. */
  lemma ParseIntReadsNegative(pre: string, n: nat, post: string)
    requires AllSpace(pre) && n > 0
    requires post == [] || !IsDigit(post[0])
    ensures ParseInt(Some(pre + ("-" + Decimal(n)) + post)) == Some(-(n as int))
  {
    var s := pre + ("-" + Decimal(n)) + post;
    NegativeLayout(pre, Decimal(n), post);
    assert ParseInt(Some(s)) == ReadDigits(s, |pre| + 1, true);
    ReadsDecimalAt(s, |pre| + 1, n);
  }

  /** With the radix left out, a `0x` prefix switches to base 16: "0x10" reads as 16. */
  lemma HexPrefixReadsHex()
    ensures ParseInt(Some("0x10")) == Some(16)
  {
    var s := "0x10";
    SpaceRunUnique(s, 0, 0);
    assert SkipHexDigits(s, 2) == 4;
    assert s[2..4] == "10";
    assert HexValue("10") == 16 by {
      assert "10"[..1] == "1";
      assert "1"[..0] == "";
    }
  }
}
