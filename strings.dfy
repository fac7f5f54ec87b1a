/**
 * Byte-string helpers shared by the model. A PHP string is a sequence of
 * bytes; here it is a `string` whose characters stand for those bytes.
 */
module Strings {

  datatype Option<+T> = None | Some(value: T)

  /** `\s` in PCRE without the UTF flag: space, tab, LF, VT, FF and CR. */
  predicate IsSpace(c: char) {
    c == ' ' || c == '\t' || c == '\n' || c == '\U{000B}' || c == '\U{000C}' || c == '\r'
  }

  /** The characters PHP's `trim` removes when no list is given. */
  predicate IsTrimmed(c: char) {
    c == ' ' || c == '\t' || c == '\n' || c == '\r' || c == '\0' || c == '\U{000B}'
  }

  /** `p` occurs in `s` starting at index `i`. */
  predicate StartsAt(s: string, i: nat, p: string) {
    i + |p| <= |s| && s[i..i + |p|] == p
  }

  /** `p` occurs somewhere in `s` (PHP: `strpos($s, $p) !== false`). */
  predicate Contains(s: string, p: string) {
    exists i: nat | i <= |s| :: StartsAt(s, i, p)
  }

  /** Length of the run of `\s` characters starting at `i`. */
  function SpaceRun(s: string, i: nat): (n: nat)
    requires i <= |s|
    ensures i + n <= |s|
    ensures forall k :: i <= k < i + n ==> IsSpace(s[k])
    ensures i + n == |s| || !IsSpace(s[i + n])
    decreases |s| - i
  {
    if i < |s| && IsSpace(s[i]) then 1 + SpaceRun(s, i + 1) else 0
  }

  /** Index of the first `c` at or after `i`, if any. */
  function FindChar(s: string, i: nat, c: char): (r: Option<nat>)
    requires i <= |s|
    ensures r.Some? ==> i <= r.value < |s| && s[r.value] == c
    ensures r.Some? ==> forall k :: i <= k < r.value ==> s[k] != c
    ensures r.None? ==> forall k :: i <= k < |s| ==> s[k] != c
    decreases |s| - i
  {
    if i == |s| then None
    else if s[i] == c then Some(i)
    else FindChar(s, i + 1, c)
  }

  /** PHP `strpos($s, $p)`: the first index where `p` occurs. */
  function Find(s: string, p: string): (r: Option<nat>)
    ensures r.Some? ==> StartsAt(s, r.value, p)
    ensures r.Some? ==> forall k: nat :: k < r.value ==> !StartsAt(s, k, p)
    ensures r.None? <==> !Contains(s, p)
  {
    FindFrom(s, p, 0)
  }

  function FindFrom(s: string, p: string, i: nat): (r: Option<nat>)
    ensures r.Some? ==> i <= r.value && StartsAt(s, r.value, p)
    ensures r.Some? ==> forall k: nat :: i <= k < r.value ==> !StartsAt(s, k, p)
    ensures r.None? ==> forall k: nat :: i <= k ==> !StartsAt(s, k, p)
    decreases |s| - i
  {
    if i + |p| > |s| then None
    else if StartsAt(s, i, p) then Some(i)
    else FindFrom(s, p, i + 1)
  }

  /**
   * PHP `str_replace($from, $to, $s)` with one search string: every
   * occurrence, found left to right without overlap, is replaced. An empty
   * search string leaves the subject alone.
   */
  function ReplaceAll(s: string, from: string, to: string): (r: string)
    decreases |s|
  {
    if from == [] || |s| < |from| then s
    else if s[..|from|] == from then to + ReplaceAll(s[|from|..], from, to)
    else [s[0]] + ReplaceAll(s[1..], from, to)
  }

  /** One step of ReplaceAll: an occurrence at the front is replaced and skipped ... */
  lemma ReplaceAllHit(s: string, from: string, to: string)
    requires from != [] && StartsAt(s, 0, from)
    ensures ReplaceAll(s, from, to) == to + ReplaceAll(s[|from|..], from, to)
  {
  }

  /** ... otherwise the first byte is copied. */
  lemma ReplaceAllCopy(s: string, from: string, to: string)
    requires s != [] && !StartsAt(s, 0, from)
    ensures ReplaceAll(s, from, to) == [s[0]] + ReplaceAll(s[1..], from, to)
  {
    if from == [] || |s| < |from| {
      assert ReplaceAll(s[1..], from, to) == s[1..];
    }
  }

  /**
   * ReplaceAll distributes over a concatenation when no occurrence of
   * `from` straddles the boundary.
   */
  lemma {:induction false} ReplaceAllSplit(x: string, y: string, from: string, to: string)
    requires NoStraddle(x, y, from)
    ensures ReplaceAll(x + y, from, to) == ReplaceAll(x, from, to) + ReplaceAll(y, from, to)
    decreases |x|
  {
    if x == [] {
      assert x + y == y;
    } else if from == [] {
    } else if StartsAt(x + y, 0, from) {
      assert |from| <= |x|;
      assert x[..|from|] == (x + y)[..|from|];
      ReplaceAllHit(x + y, from, to);
      ReplaceAllHit(x, from, to);
      NoStraddleDrop(x, y, from, |from|);
      ReplaceAllSplit(x[|from|..], y, from, to);
    } else {
      ReplaceAllCopy(x + y, from, to);
      if StartsAt(x, 0, from) {
        assert false;
      }
      ReplaceAllCopy(x, from, to);
      NoStraddleDrop(x, y, from, 1);
      ReplaceAllSplit(x[1..], y, from, to);
    }
  }

  /** No occurrence of `p` in `x + y` starts in `x` and ends in `y`. */
  predicate NoStraddle(x: string, y: string, p: string) {
    forall i: nat :: i < |x| < i + |p| ==> !StartsAt(x + y, i, p)
  }

  lemma NoStraddleDrop(x: string, y: string, p: string, d: nat)
    requires d <= |x| && NoStraddle(x, y, p)
    ensures (x + y)[d..] == x[d..] + y
    ensures NoStraddle(x[d..], y, p)
  {
    var x' := x[d..];
    assert (x + y)[d..] == x' + y;
    forall i: nat | i < |x'| < i + |p| ensures !StartsAt(x' + y, i, p) {
      StartsAtShift(x, y, d, i, p);
    }
  }

  /** An occurrence after dropping `d` bytes of `x` is one `d` bytes later before the drop. */
  lemma StartsAtShift(x: string, y: string, d: nat, i: nat, p: string)
    requires d <= |x|
    ensures StartsAt(x[d..] + y, i, p) ==> StartsAt(x + y, i + d, p)
  {
    if StartsAt(x[d..] + y, i, p) {
      assert (x[d..] + y)[i..i + |p|] == (x + y)[i + d..i + d + |p|];
    }
  }

  /** The search string alone is replaced by the replacement. */
  lemma ReplaceAllSelf(from: string, to: string)
    requires from != []
    ensures ReplaceAll(from, from, to) == to
  {
    ReplaceAllHit(from, from, to);
    assert from[|from|..] == [];
  }

  /** An occurrence in the tail is an occurrence in the whole. */
  lemma ContainsTail(s: string, p: string)
    requires s != []
    ensures Contains(s[1..], p) ==> Contains(s, p)
  {
    if Contains(s[1..], p) {
      var i: nat :| i <= |s[1..]| && StartsAt(s[1..], i, p);
      assert s[1..][i..i + |p|] == s[i + 1..i + 1 + |p|];
      assert StartsAt(s, i + 1, p);
    }
  }

  /** A string with no occurrence of `from` is left unchanged by ReplaceAll. */
  lemma {:induction false} ReplaceAllAbsent(s: string, from: string, to: string)
    requires !Contains(s, from)
    ensures ReplaceAll(s, from, to) == s
    decreases |s|
  {
    if from == [] || |s| < |from| {
    } else {
      assert !StartsAt(s, 0, from);
      forall i: nat | i <= |s[1..]| ensures !StartsAt(s[1..], i, from) {
        if i + |from| <= |s[1..]| {
          assert s[1..][i..i + |from|] == s[i + 1..i + 1 + |from|];
          assert !StartsAt(s, i + 1, from);
        }
      }
      ReplaceAllAbsent(s[1..], from, to);
    }
  }

  /** Replacing a single character by a single other character never changes the length. */
  lemma {:induction false} ReplaceAllCharLength(s: string, a: char, b: char)
    ensures |ReplaceAll(s, [a], [b])| == |s|
    ensures forall k :: 0 <= k < |s| ==> ReplaceAll(s, [a], [b])[k] == (if s[k] == a then b else s[k])
    decreases |s|
  {
    if |s| == 0 {
    } else {
      ReplaceAllCharLength(s[1..], a, b);
    }
  }

  /** The characters of `s` that are not dropped by PHP `trim($s, $chars)` at either end. */
  function TrimLeft(s: string, drop: char -> bool): (r: string)
    ensures |r| <= |s| && r == s[|s| - |r|..]
    ensures r == [] || !drop(r[0])
    ensures forall k :: 0 <= k < |s| - |r| ==> drop(s[k])
    decreases |s|
  {
    if s != [] && drop(s[0]) then TrimLeft(s[1..], drop) else s
  }

  function TrimRight(s: string, drop: char -> bool): (r: string)
    ensures |r| <= |s| && r == s[..|r|]
    ensures r == [] || !drop(r[|r| - 1])
    ensures forall k :: |r| <= k < |s| ==> drop(s[k])
    decreases |s|
  {
    if s != [] && drop(s[|s| - 1]) then TrimRight(s[..|s| - 1], drop) else s
  }

  /** PHP `trim($s, $chars)`. */
  function Trim(s: string, drop: char -> bool): string {
    TrimRight(TrimLeft(s, drop), drop)
  }

  /** `trim($s) === ''`: the string consists of trim characters only. */
  lemma {:induction false} TrimEmpty(s: string)
    ensures Trim(s, IsTrimmed) == [] <==> forall k :: 0 <= k < |s| ==> IsTrimmed(s[k])
  {
    var l := TrimLeft(s, IsTrimmed);
    if l != [] {
      assert l[0] == s[|s| - |l|];
    }
  }

  /** ASCII lower-casing, as PCRE's caseless matching sees letters. */
  function Lower(c: char): char {
    if 'A' <= c <= 'Z' then (c as int + 32) as char else c
  }

  /** `p` (lower-case) occurs at `i` in `s`, ignoring ASCII case. */
  predicate StartsAtCaseless(s: string, i: nat, p: string) {
    i + |p| <= |s| && forall k :: 0 <= k < |p| ==> Lower(s[i + k]) == p[k]
  }

  /** Concatenation of a sequence of strings. */
  function Concat(ss: seq<string>): string {
    if ss == [] then [] else ss[0] + Concat(ss[1..])
  }

  lemma {:induction false} ConcatAppend(ss: seq<string>, t: string)
    ensures Concat(ss + [t]) == Concat(ss) + t
  {
    if ss == [] {
      assert ss + [t] == [t];
    } else {
      assert (ss + [t])[1..] == ss[1..] + [t];
      ConcatAppend(ss[1..], t);
    }
  }

  /** Decimal digits of a natural number, as PHP interpolates an integer. */
  function NatToString(n: nat): (r: string)
    ensures |r| > 0
    ensures forall k :: 0 <= k < |r| ==> '0' <= r[k] <= '9'
  {
    if n < 10 then [Digit(n)] else NatToString(n / 10) + [Digit(n % 10)]
  }

  function Digit(d: nat): (c: char)
    requires d < 10
    ensures '0' <= c <= '9'
    ensures c as int - '0' as int == d
  {
    ('0' as int + d) as char
  }

  /** Numbers from ten on take at least two digits. */
  lemma NatToStringLength(n: nat)
    ensures n < 10 <==> |NatToString(n)| == 1
  {
    if n >= 10 {
      assert |NatToString(n)| == |NatToString(n / 10)| + 1;
    }
  }

  /** Different numbers are written differently. */
  lemma {:induction false} NatToStringInjective(a: nat, b: nat)
    requires NatToString(a) == NatToString(b)
    ensures a == b
  {
    var ra, rb := NatToString(a), NatToString(b);
    NatToStringLength(a);
    NatToStringLength(b);
    if a < 10 && b < 10 {
      assert Digit(a) == ra[0] == rb[0] == Digit(b);
    } else if a < 10 || b < 10 {
      assert false;
    } else {
      assert Digit(a % 10) == ra[|ra| - 1] == rb[|rb| - 1] == Digit(b % 10);
      assert NatToString(a / 10) == ra[..|ra| - 1] == rb[..|rb| - 1] == NatToString(b / 10);
      NatToStringInjective(a / 10, b / 10);
    }
  }

  /** An index into a slice is an index into the whole. */
  lemma SliceAt(s: string, a: nat, b: nat, k: nat)
    requires a <= k < b <= |s|
    ensures s[a..b][k - a] == s[k]
  {
  }

  /** Each byte of a string that occurs in `s` is a byte of `s`. */
  lemma ContainsChar(s: string, p: string, k: nat)
    ensures Contains(s, p) && k < |p| ==> p[k] in s
  {
    if Contains(s, p) && k < |p| {
      var i: nat :| i <= |s| && StartsAt(s, i, p);
      assert s[i..i + |p|][k] == s[i + k];
    }
  }

  /** The last `n` bytes of `a + z` are those of `z` when `z` has `n` bytes. */
  lemma SuffixOfAppend(a: string, z: string, n: nat)
    requires n <= |z|
    ensures (a + z)[|a + z| - n..] == z[|z| - n..]
  {
  }

  /** One differing byte rules a match out. */
  lemma MismatchNotAt(s: string, i: nat, p: string, o: nat)
    requires o < |p| && i + o < |s| && s[i + o] != p[o]
    ensures !StartsAt(s, i, p)
  {
    if i + |p| <= |s| {
      SliceAt(s, i, i + |p|, i + o);
    }
  }

  /** A match that fits but fails has a differing byte. */
  lemma NotAtMismatch(s: string, i: nat, p: string)
    requires i + |p| <= |s| && !StartsAt(s, i, p)
    ensures exists o :: 0 <= o < |p| && s[i + o] != p[o]
  {
    var q := s[i..i + |p|];
    assert forall o :: 0 <= o < |q| ==> q[o] == s[i + o];
  }

  /** An occurrence in the middle piece is an occurrence in the whole. */
  lemma ContainsIn(a: string, b: string, c: string, p: string)
    requires Contains(b, p)
    ensures Contains(a + b + c, p)
  {
    var i: nat :| i <= |b| && StartsAt(b, i, p);
    assert (a + b + c)[|a| + i..|a| + i + |p|] == b[i..i + |p|];
    assert StartsAt(a + b + c, |a| + i, p);
  }

  /** An occurrence in a prefix is an occurrence in the whole. */
  lemma ContainsPrefix(a: string, b: string, p: string)
    requires Contains(a, p)
    ensures Contains(a + b, p)
  {
    var i: nat :| i <= |a| && StartsAt(a, i, p);
    assert (a + b)[i..i + |p|] == a[i..i + |p|];
    assert StartsAt(a + b, i, p);
  }

  /** A string ending with `p` contains it. */
  lemma ContainsEnd(a: string, p: string)
    ensures Contains(a + p, p)
  {
    assert (a + p)[|a|..|a| + |p|] == p;
    assert StartsAt(a + p, |a|, p);
  }

  lemma StartsAtContains(s: string, i: nat, p: string)
    requires StartsAt(s, i, p)
    ensures Contains(s, p)
  {
  }

  lemma AppendAssoc<T>(x: seq<T>, y: seq<T>, z: seq<T>)
    ensures x + (y + z) == (x + y) + z
  {
  }
}
