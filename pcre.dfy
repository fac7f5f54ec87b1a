/**
 * The shape shared by every `preg_replace` call of the paragraph
 * reconstructor: the subject is scanned left to right; at each position the
 * pattern is tried, and a match (never empty for the patterns used here) is
 * replaced and skipped, otherwise one byte is copied. A matcher sees the whole
 * original subject, so look-behind and `$` are evaluated on it, as PCRE does.
 */
module Pcre {
  import opened Strings

  /** A match at the current position: how many bytes it covers and what replaces them. */
  datatype Hit = Hit(len: nat, rep: string)

  /** A pattern and its replacement, tried at one position of the subject. */
  type Matcher = (string, nat) -> Option<Hit>

  /** The matcher reports a usable match at `i`: non-empty and inside the subject. */
  predicate HitAt(s: string, m: Matcher, i: nat) {
    var h := m(s, i);
    h.Some? && 0 < h.value.len && i + h.value.len <= |s|
  }

  /** `preg_replace` from position `i` on. */
  function ReplaceFrom(s: string, m: Matcher, i: nat): string
    requires i <= |s|
    decreases |s| - i
  {
    if i == |s| then []
    else if HitAt(s, m, i) then m(s, i).value.rep + ReplaceFrom(s, m, i + m(s, i).value.len)
    else [s[i]] + ReplaceFrom(s, m, i + 1)
  }

  /** `preg_replace($pattern, $replacement, $s)`. */
  function Replace(s: string, m: Matcher): string {
    ReplaceFrom(s, m, 0)
  }

  /** Where the pattern matches nowhere, the subject comes back unchanged. */
  lemma {:induction false} ReplaceFromNoHit(s: string, m: Matcher, i: nat)
    requires i <= |s|
    requires forall j: nat | i <= j < |s| :: !HitAt(s, m, j)
    ensures ReplaceFrom(s, m, i) == s[i..]
    decreases |s| - i
  {
    if i < |s| {
      ReplaceFromNoHit(s, m, i + 1);
      assert s[i..] == [s[i]] + s[i + 1..];
    }
  }

  /**
   * A character that the subject lacks and no replacement introduces is
   * absent from the result.
   */
  lemma {:induction false} ReplaceFromKeepsOut(s: string, m: Matcher, i: nat, c: char)
    requires i <= |s|
    requires forall j: nat | i <= j < |s| :: s[j] != c
    requires forall j: nat | i <= j < |s| && HitAt(s, m, j) :: c !in m(s, j).value.rep
    ensures c !in ReplaceFrom(s, m, i)
    decreases |s| - i
  {
    if i < |s| {
      if HitAt(s, m, i) {
        ReplaceFromKeepsOut(s, m, i + m(s, i).value.len, c);
      } else {
        ReplaceFromKeepsOut(s, m, i + 1, c);
      }
    }
  }

  /** One step of the scan: a match is replaced and skipped ... */
  lemma ReplaceFromHit(s: string, m: Matcher, i: nat)
    requires HitAt(s, m, i)
    ensures ReplaceFrom(s, m, i) == m(s, i).value.rep + ReplaceFrom(s, m, i + m(s, i).value.len)
  {
  }

  /** ... otherwise one byte is copied. */
  lemma ReplaceFromCopy(s: string, m: Matcher, i: nat)
    requires i < |s| && !HitAt(s, m, i)
    ensures ReplaceFrom(s, m, i) == [s[i]] + ReplaceFrom(s, m, i + 1)
  {
  }

  /** Index of the last `\n` in `s[a..b]`, if any: where a greedy `\s*\n` stops. */
  function LastNewline(s: string, a: nat, b: nat): (r: Option<nat>)
    requires a <= b <= |s|
    ensures r.Some? ==> a <= r.value < b && s[r.value] == '\n'
    ensures r.Some? ==> forall k :: r.value < k < b ==> s[k] != '\n'
    ensures r.None? ==> forall k :: a <= k < b ==> s[k] != '\n'
    decreases b - a
  {
    if a == b then None
    else if s[b - 1] == '\n' then Some(b - 1)
    else LastNewline(s, a, b - 1)
  }
}
