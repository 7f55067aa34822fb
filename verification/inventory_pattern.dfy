/** index.js reads a card's stock with `/inventory\s*[：:]\s*(\d+)/i` (first
    match). This module follows the matcher position by position, proves the
    match at each start index is unique, and that the search returns the
    leftmost one. */
module InventoryPattern {
  import opened Options
  import opened Text

  const Keyword: string := "inventory"

  /** Case folding as the `i` flag does it without `u`: only ASCII letters fold
      to ASCII letters, so lower-casing ASCII upper case is enough. */
  function FoldAscii(c: char): char {
    if 'A' <= c <= 'Z' then ((c as int) + 32) as char else c
  }

  /** `s` with every character folded. */
  function Fold(s: string): (r: string)
    ensures |r| == |s|
    ensures forall i :: 0 <= i < |s| ==> r[i] == FoldAscii(s[i])
  {
    if |s| == 0 then [] else [FoldAscii(s[0])] + Fold(s[1..])
  }

  /** `inventory`, in any mix of ASCII case, starts at index `k`. */
  predicate KeywordAt(t: string, k: nat) {
    k + |Keyword| <= |t| && Fold(t[k..k + |Keyword|]) == Keyword
  }

  /** The class `[：:]`: full-width or ASCII colon. */
  predicate IsColon(c: char) {
    c == ':' || c == '\U{FF1A}'
  }

  /** Where a match starts, where its colon is, and the captured digit range. */
  datatype Found = Found(at: nat, colon: nat, start: nat, end: nat)

  /** The reference reading of "the pattern matches at `m.at` with capture
      `[m.start, m.end)`", stated piece by piece. */
  ghost predicate IsMatch(t: string, m: Found) {
    && KeywordAt(t, m.at)
    && m.at + |Keyword| <= m.colon < m.start < m.end <= |t|
    && (forall j :: m.at + |Keyword| <= j < m.colon ==> IsSpace(t[j]))
    && IsColon(t[m.colon])
    && (forall j :: m.colon + 1 <= j < m.start ==> IsSpace(t[j]))
    && (forall j :: m.start <= j < m.end ==> IsDigit(t[j]))
    && (m.end == |t| || !IsDigit(t[m.end]))
  }

  /** The pattern tried at index `k`. White space, colons and digits are
      disjoint classes, so the greedy quantifiers never need to give back. */
  function MatchAt(t: string, k: nat): (r: Option<Found>)
    requires k <= |t|
    ensures r.Some? ==> r.value.at == k && IsMatch(t, r.value)
  {
    if !KeywordAt(t, k) then None
    else
      var c := SkipSpaces(t, k + |Keyword|);
      if c == |t| || !IsColon(t[c]) then None
      else
        var s := SkipSpaces(t, c + 1);
        if s == |t| || !IsDigit(t[s]) then None
        else Some(Found(k, c, s, SkipDigits(t, s)))
  }

  /** The three greedy runs of a match end where the match says they do. */
  lemma RunsOfMatch(t: string, m: Found)
    requires IsMatch(t, m)
    ensures SkipSpaces(t, m.at + |Keyword|) == m.colon
    ensures SkipSpaces(t, m.colon + 1) == m.start
    ensures SkipDigits(t, m.start) == m.end
  {
    assert !IsSpace(t[m.colon]);
    SpaceRunUnique(t, m.at + |Keyword|, m.colon);
    assert !IsSpace(t[m.start]);
    SpaceRunUnique(t, m.colon + 1, m.start);
    DigitRunUnique(t, m.start, m.end);
  }

  /** Any match is the one `MatchAt` reports at its start index. */
  lemma MatchAtUnique(t: string, m: Found)
    requires IsMatch(t, m)
    ensures MatchAt(t, m.at) == Some(m)
  {
    RunsOfMatch(t, m);
  }

  /** The leftmost match at or after index `k`. */
  function MatchFrom(t: string, k: nat): (r: Option<Found>)
    requires k <= |t|
    ensures r.Some? ==> k <= r.value.at && IsMatch(t, r.value)
    decreases |t| - k
  {
    match MatchAt(t, k)
    case Some(m) => Some(m)
    case None => if k < |t| then MatchFrom(t, k + 1) else None
  }

  lemma {:induction false} MatchFromLeftmost(t: string, k: nat, m: Found)
    requires k <= m.at && IsMatch(t, m)
    ensures MatchFrom(t, k).Some? && MatchFrom(t, k).value.at <= m.at
    decreases |t| - k
  {
    if k == m.at {
      MatchAtUnique(t, m);
      assert MatchFrom(t, k) == Some(m);
    } else if MatchAt(t, k).None? {
      assert k < |t|;
      MatchFromLeftmost(t, k + 1, m);
      assert MatchFrom(t, k) == MatchFrom(t, k + 1);
    } else {
      assert MatchFrom(t, k) == MatchAt(t, k);
    }
  }

  /** `m` is a match and no match starts further left. */
  ghost predicate IsLeftmostMatch(t: string, m: Found) {
    IsMatch(t, m) && forall m' :: IsMatch(t, m') ==> m.at <= m'.at
  }

  /** `parseInt` of the captured digits of `m`. */
  function MatchValue(t: string, m: Found): nat
    requires m.start <= m.end <= |t|
    requires forall j :: m.start <= j < m.end ==> IsDigit(t[j])
  {
    DecimalValue(t[m.start..m.end])
  }

  /** `n` is the count captured by the leftmost match of `t`. */
  ghost predicate ReadsLeftmostMatch(t: string, n: nat) {
    exists m :: IsLeftmostMatch(t, m) && n == MatchValue(t, m)
  }

  /** The search finds a match exactly when one exists, and it is the leftmost. */
  lemma InventoryIsLeftmostMatch(t: string)
    ensures MatchFrom(t, 0).Some? ==> IsLeftmostMatch(t, MatchFrom(t, 0).value)
    ensures MatchFrom(t, 0).None? <==> forall m :: !IsMatch(t, m)
  {
    forall m | IsMatch(t, m)
      ensures MatchFrom(t, 0).Some? && MatchFrom(t, 0).value.at <= m.at
    {
      MatchFromLeftmost(t, 0, m);
    }
  }

  /** `match` on the inventory text, then `parseInt(match[1])`. */
  function Inventory(t: string): (r: Option<nat>)
    ensures r.Some? <==> exists m :: IsMatch(t, m)
    ensures r.Some? ==> ReadsLeftmostMatch(t, r.value)
  {
    InventoryIsLeftmostMatch(t);
    match MatchFrom(t, 0)
    case Some(m) => Some(MatchValue(t, m))
    case None => None
  }

  /** Two leftmost matches are the same match, so any leftmost match
      captures the count `Inventory` returns. */
  lemma LeftmostMatchValue(t: string, m: Found)
    requires IsLeftmostMatch(t, m)
    ensures Inventory(t) == Some(MatchValue(t, m))
  {
    InventoryIsLeftmostMatch(t);
    var f := MatchFrom(t, 0).value;
    assert f.at == m.at;
    MatchAtUnique(t, m);
    MatchAtUnique(t, f);
  }

  /** The count is determined by the reference reading. */
  lemma InventoryReadsLeftmost(t: string)
    ensures forall n: nat :: ReadsLeftmostMatch(t, n) ==> Inventory(t) == Some(n)
  {
    forall n: nat | ReadsLeftmostMatch(t, n)
      ensures Inventory(t) == Some(n)
    {
      var m :| IsLeftmostMatch(t, m) && n == MatchValue(t, m);
      LeftmostMatchValue(t, m);
    }
  }

  /** Matching needs the colon: "inventory 5" yields no count. */
  lemma NoColonNoMatch(t: string)
    requires forall j :: 0 <= j < |t| ==> !IsColon(t[j])
    ensures Inventory(t).None?
  {
  }
}
