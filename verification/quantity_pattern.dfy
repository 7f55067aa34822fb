/** server.js reads a card's count with the regular expression
    `/[:：(]?\s*(\d+)/` (no flags, first match). This module follows the
    backtracking matcher position by position and then proves that the
    captured group is simply the first maximal run of ASCII digits. */
module QuantityPattern {
  import opened Options
  import opened Text

  /** A half-open range `[start, end)` of the text. */
  datatype Span = Span(start: nat, end: nat)

  /** The optional leading character class `[:：(]`. */
  predicate IsLeadMark(c: char) {
    c == ':' || c == '\U{FF1A}' || c == '('
  }

  /** The tail `\s*(\d+)` tried at index `p`; the capture is the whole digit run. */
  function SpacedDigits(t: string, p: nat): (r: Option<Span>)
    requires p <= |t|
    ensures r.Some? ==> p <= r.value.start < r.value.end <= |t|
    ensures r.Some? ==> forall k :: p <= k < r.value.start ==> IsSpace(t[k])
    ensures r.Some? ==> forall k :: r.value.start <= k < r.value.end ==> IsDigit(t[k])
    ensures r.Some? ==> r.value.end == |t| || !IsDigit(t[r.value.end])
    ensures p < |t| && IsDigit(t[p]) ==> r == Some(Span(p, SkipDigits(t, p)))
  {
    var j := SkipSpaces(t, p);
    if j < |t| && IsDigit(t[j]) then Some(Span(j, SkipDigits(t, j))) else None
  }

  /** The whole pattern tried at index `k`: first with the optional mark
      consumed, then, on failure, without it. */
  function MatchAt(t: string, k: nat): (r: Option<Span>)
    requires k <= |t|
    ensures r.Some? ==> k <= r.value.start < r.value.end <= |t|
    ensures r.Some? ==> forall j :: k <= j < r.value.start ==> !IsDigit(t[j])
    ensures r.Some? ==> forall j :: r.value.start <= j < r.value.end ==> IsDigit(t[j])
    ensures r.Some? ==> r.value.end == |t| || !IsDigit(t[r.value.end])
    ensures k < |t| && IsDigit(t[k]) ==> r.Some?
  {
    if k < |t| && IsLeadMark(t[k]) && SpacedDigits(t, k + 1).Some? then SpacedDigits(t, k + 1)
    else SpacedDigits(t, k)
  }

  /** The leftmost match at or after index `k`. */
  function MatchFrom(t: string, k: nat): (r: Option<Span>)
    requires k <= |t|
    ensures r.Some? ==> k <= r.value.start < r.value.end <= |t|
    ensures r.Some? ==> forall j :: r.value.start <= j < r.value.end ==> IsDigit(t[j])
    ensures r.Some? ==> r.value.end == |t| || !IsDigit(t[r.value.end])
    decreases |t| - k
  {
    match MatchAt(t, k)
    case Some(sp) => Some(sp)
    case None => if k < |t| then MatchFrom(t, k + 1) else None
  }

  /** `parseInt` of the digits in the range `sp`. */
  function RunValue(t: string, sp: Span): nat
    requires sp.start <= sp.end <= |t|
    requires forall j :: sp.start <= j < sp.end ==> IsDigit(t[j])
  {
    DecimalValue(t[sp.start..sp.end])
  }

  /** The reference reading: `sp` is the first maximal run of digits in `t`. */
  ghost predicate IsFirstDigitRun(t: string, sp: Span) {
    && sp.start < sp.end <= |t|
    && (forall j :: 0 <= j < sp.start ==> !IsDigit(t[j]))
    && (forall j :: sp.start <= j < sp.end ==> IsDigit(t[j]))
    && (sp.end == |t| || !IsDigit(t[sp.end]))
  }

  /** `n` is the value of the first maximal digit run of `t`. */
  ghost predicate ReadsFirstRun(t: string, n: nat) {
    exists sp :: IsFirstDigitRun(t, sp) && n == RunValue(t, sp)
  }

  /** `match` on the card text, then `parseInt(match[1])`; `None` when there is no match. */
  function Quantity(t: string): (r: Option<nat>)
    ensures r.None? <==> forall j :: 0 <= j < |t| ==> !IsDigit(t[j])
    ensures r.Some? ==> ReadsFirstRun(t, r.value)
  {
    MatchFromFindsFirstRun(t, 0);
    match MatchFrom(t, 0)
    case Some(sp) =>
      assert IsDigit(t[sp.start]);
      Some(RunValue(t, sp))
    case None => None
  }

  lemma {:induction false} MatchFromFindsFirstRun(t: string, k: nat)
    requires k <= |t|
    requires forall j :: 0 <= j < k ==> !IsDigit(t[j])
    ensures MatchFrom(t, k).Some? ==> IsFirstDigitRun(t, MatchFrom(t, k).value)
    ensures MatchFrom(t, k).None? ==> forall j :: k <= j < |t| ==> !IsDigit(t[j])
    decreases |t| - k
  {
    if MatchAt(t, k).None? && k < |t| {
      MatchFromFindsFirstRun(t, k + 1);
    }
  }

  /** A text has at most one first maximal digit run. */
  lemma FirstDigitRunUnique(t: string, a: Span, b: Span)
    requires IsFirstDigitRun(t, a) && IsFirstDigitRun(t, b)
    ensures a == b
  {
    assert IsDigit(t[a.start]) && IsDigit(t[b.start]);
    assert a.start == b.start;
  }

  /** The regular expression captures exactly the first maximal run of ASCII
      digits, whatever mark precedes it; any count read off that run is the
      one `Quantity` returns. */
  lemma QuantityIsFirstDigitRun(t: string)
    ensures MatchFrom(t, 0).Some? ==> IsFirstDigitRun(t, MatchFrom(t, 0).value)
    ensures MatchFrom(t, 0).None? <==> forall j :: 0 <= j < |t| ==> !IsDigit(t[j])
    ensures forall n: nat :: ReadsFirstRun(t, n) ==> Quantity(t) == Some(n)
  {
    MatchFromFindsFirstRun(t, 0);
    if MatchFrom(t, 0).Some? {
      assert IsDigit(t[MatchFrom(t, 0).value.start]);
    }
    forall n: nat | ReadsFirstRun(t, n)
      ensures Quantity(t) == Some(n)
    {
      var sp :| IsFirstDigitRun(t, sp) && n == RunValue(t, sp);
      assert IsDigit(t[sp.start]);
      var q := MatchFrom(t, 0).value;
      FirstDigitRunUnique(t, q, sp);
    }
  }
}
