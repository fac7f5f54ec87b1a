/**
 * The last fix-up of fixTagsWrappedInP, `<p>([^<]+)</(div|address|form)>`
 * becoming `<p>$1</p></$2>`, leaves nothing for the pattern to match: the
 * one pass of `preg_replace` is enough. The proof follows the scan: text
 * without `<` is copied as it is, every match and every replacement starts
 * with `<`, and a replacement holds no `<p>` that could start a new match.
 */
module ParagraphClosing {
  import opened Strings
  import opened Pcre
  import opened AutopSteps

  /**
   * A `<p>` at `q` whose text, without `<` and not empty, runs up to a
   * `</div>`, `</address>` or `</form>` at `f`.
   */
  predicate UnclosedShape(x: string, q: nat, f: nat) {
    && q + 3 < f < |x|
    && StartsAt(x, q, "<p>")
    && (forall k :: q + 3 <= k < f ==> x[k] != '<')
    && x[f] == '<'
    && CloserAt(x, f).Some?
  }

  /** No shape anywhere in `x`. */
  predicate NoShape(x: string) {
    forall q: nat, f: nat | q < f < |x| :: !UnclosedShape(x, q, f)
  }

  /** What the scan of CloseParagraphs makes of the subject from `i` on. */
  function Out(s: string, i: nat): string
    requires i <= |s|
  {
    ReplaceFrom(s, UnclosedParagraphAt, i)
  }

  // ---- the pattern, read as a shape -------------------------------------------

  /** A match of the pattern has the shape, with `f` the first `<` after the `<p>`. */
  lemma UnclosedHasShape(x: string, q: nat)
    ensures UnclosedParagraphAt(x, q).Some? ==>
      q + 3 <= |x| && FindChar(x, q + 3, '<').Some? && UnclosedShape(x, q, FindChar(x, q + 3, '<').value)
  {
  }

  /** The shape is a match. */
  lemma ShapeIsUnclosed(x: string, q: nat, f: nat)
    ensures UnclosedShape(x, q, f) ==> HitAt(x, UnclosedParagraphAt, q)
  {
    if UnclosedShape(x, q, f) {
      var r := FindChar(x, q + 3, '<');
      assert r == Some(f);
      CloserShape(x, f);
    }
  }

  /** A closer is `</` and then neither `p` nor `<`; it lies inside the text. */
  lemma CloserShape(x: string, f: nat)
    ensures CloserAt(x, f).Some? ==>
      var n := CloserAt(x, f).value;
      && f + |n| + 3 <= |x| && StartsAt(x, f, "</" + n + ">")
      && x[f] == '<' && x[f + 1] == '/' && x[f + 2] != 'p'
      && '<' !in n
  {
    if CloserAt(x, f).Some? {
      var c := "</" + CloserAt(x, f).value + ">";
      assert StartsAt(x, f, c);
      SliceAt(x, f, f + |c|, f);
      SliceAt(x, f, f + |c|, f + 1);
      SliceAt(x, f, f + |c|, f + 2);
    }
  }

  /** Dropping a prefix moves a shape and keeps it. */
  lemma ShapeDrop(a: string, t: string, q: nat, f: nat)
    requires q >= |a|
    ensures UnclosedShape(a + t, q, f) ==> UnclosedShape(t, q - |a|, f - |a|)
  {
    if UnclosedShape(a + t, q, f) {
      var x := a + t;
      StartsAtDrop(a, t, q, "<p>");
      CloserDrop(a, t, f);
      forall k | q - |a| + 3 <= k < f - |a| ensures t[k] != '<' {
        assert x[k + |a|] == t[k];
      }
      assert x[f] == t[f - |a|];
    }
  }

  /** A match of `p` at `j` past a prefix is a match in the rest. */
  lemma StartsAtDrop(a: string, t: string, j: nat, p: string)
    requires j >= |a|
    ensures StartsAt(a + t, j, p) <==> StartsAt(t, j - |a|, p)
  {
    if j + |p| <= |a + t| {
      assert (a + t)[j..j + |p|] == t[j - |a|..j - |a| + |p|];
    }
  }

  /** The closer past a prefix is the closer in the rest. */
  lemma CloserDrop(a: string, t: string, f: nat)
    requires f >= |a|
    ensures CloserAt(a + t, f) == CloserAt(t, f - |a|)
  {
    StartsAtDrop(a, t, f, "</div>");
    StartsAtDrop(a, t, f, "</address>");
    StartsAtDrop(a, t, f, "</form>");
  }

  // ---- the scan over text without `<` -----------------------------------------

  /** A match starts with `<`. */
  lemma HitOpens(s: string, i: nat)
    ensures UnclosedParagraphAt(s, i).Some? ==> i < |s| && s[i] == '<'
  {
    if StartsAt(s, i, "<p>") {
      SliceAt(s, i, i + 3, i);
    }
  }

  /** The scan copies text without `<` as it is. */
  lemma {:induction false} OutPrefix(s: string, i: nat, n: nat)
    requires i <= n <= |s|
    requires forall k :: i <= k < n ==> s[k] != '<'
    ensures Out(s, i) == s[i..n] + Out(s, n)
    decreases n - i
  {
    if i < n {
      calc {
        Out(s, i);
        { OutCopy(s, i); }
        [s[i]] + Out(s, i + 1);
        { OutPrefix(s, i + 1, n); }
        [s[i]] + (s[i + 1..n] + Out(s, n));
        { assert s[i..n] == [s[i]] + s[i + 1..n]; }
        s[i..n] + Out(s, n);
      }
    }
  }

  /** A byte other than `<` is copied. */
  lemma OutCopy(s: string, i: nat)
    requires i < |s| && s[i] != '<'
    ensures Out(s, i) == [s[i]] + Out(s, i + 1)
  {
    HitOpens(s, i);
    ReplaceFromCopy(s, UnclosedParagraphAt, i);
  }

  /** Where the subject has `<`, so has the scan's output. */
  lemma OutOpens(s: string, n: nat)
    requires n < |s| && s[n] == '<'
    ensures |Out(s, n)| > 0 && Out(s, n)[0] == '<'
  {
    if HitAt(s, UnclosedParagraphAt, n) {
      ReplaceFromHit(s, UnclosedParagraphAt, n);
    } else {
      ReplaceFromCopy(s, UnclosedParagraphAt, n);
    }
  }

  /** The first `<` of `s` at or after `i`, or the end. */
  function NextOpen(s: string, i: nat): (n: nat)
    requires i <= |s|
    ensures i <= n <= |s|
    ensures forall k :: i <= k < n ==> s[k] != '<'
    ensures n < |s| ==> s[n] == '<'
  {
    match FindChar(s, i, '<')
    case Some(v) => v
    case None => |s|
  }

  /**
   * A string starting with `<`, then `/`, with no other `<`, read at the
   * front of the output at a `<` of the subject, is in the subject there.
   */
  lemma OutStartsWith(s: string, j: nat, c: string)
    requires j < |s| && s[j] == '<'
    requires |c| >= 2 && c[1] == '/' && forall k :: 1 <= k < |c| ==> c[k] != '<'
    ensures StartsAt(Out(s, j), 0, c) ==> StartsAt(s, j, c)
  {
    if HitAt(s, UnclosedParagraphAt, j) {
      ReplacedStartsWith(s, j, c);
    } else {
      CopiedStartsWith(s, j, c);
    }
  }

  /** A replacement starts with `<p`, so with no such string. */
  lemma ReplacedStartsWith(s: string, j: nat, c: string)
    requires HitAt(s, UnclosedParagraphAt, j)
    requires |c| >= 2 && c[1] == '/'
    ensures !StartsAt(Out(s, j), 0, c)
  {
    ReplaceFromHit(s, UnclosedParagraphAt, j);
    HitReplacement(s, j);
    var rep := UnclosedParagraphAt(s, j).value.rep;
    assert Out(s, j)[1] == rep[1] == 'p';
    MismatchNotAt(Out(s, j), 0, c, 1);
  }

  /** A copied `<` is followed by the subject's text up to its next `<`. */
  lemma CopiedStartsWith(s: string, j: nat, c: string)
    requires j < |s| && s[j] == '<' && !HitAt(s, UnclosedParagraphAt, j)
    requires |c| >= 2 && forall k :: 1 <= k < |c| ==> c[k] != '<'
    ensures StartsAt(Out(s, j), 0, c) ==> StartsAt(s, j, c)
  {
    var n := NextOpen(s, j + 1);
    var x := Out(s, j);
    CopiedRun(s, j);
    if n - j >= |c| {
      assert x[..|c|] == s[j..j + |c|];
    } else if n < |s| {
      OutOpens(s, n);
      assert x[n - j] == '<';
      MismatchNotAt(x, 0, c, n - j);
    }
  }

  /** From a copied byte the output runs as the subject up to the next `<`. */
  lemma CopiedRun(s: string, j: nat)
    requires j < |s| && !HitAt(s, UnclosedParagraphAt, j)
    ensures var n := NextOpen(s, j + 1);
      Out(s, j) == s[j..n] + Out(s, n) && [s[j]] + Out(s, j + 1) == Out(s, j)
  {
    var n := NextOpen(s, j + 1);
    ReplaceFromCopy(s, UnclosedParagraphAt, j);
    OutPrefix(s, j + 1, n);
    ConsSlice(s, j, n, Out(s, j + 1), Out(s, n));
  }

  /** A closer read at the front of the output at a `<` of the subject is in the subject. */
  lemma OutCloser(s: string, j: nat)
    requires j < |s| && s[j] == '<'
    ensures CloserAt(Out(s, j), 0).Some? ==> CloserAt(s, j).Some?
  {
    OutStartsWith(s, j, "</div>");
    OutStartsWith(s, j, "</address>");
    OutStartsWith(s, j, "</form>");
  }

  // ---- one step of the scan ---------------------------------------------------

  /** A copied byte cannot start a shape: it would have been a match. */
  lemma CopiedNoShape(s: string, i: nat, f: nat)
    requires i < |s| && !HitAt(s, UnclosedParagraphAt, i)
    ensures !UnclosedShape(Out(s, i), 0, f)
  {
    var x := Out(s, i);
    var n := NextOpen(s, i + 1);
    CopiedRun(s, i);
    if n == |s| {
      if 1 <= f < |x| {
        assert x[f] == s[i + f];
      }
    } else {
      OutOpens(s, n);
      CopiedShapeAt(s, i, f);
      ShapeIsUnclosed(s, i, n);
    }
  }

  /** A shape at a byte followed by the scan ends at the subject's next `<`, and is a shape in the subject. */
  lemma CopiedShapeAt(s: string, i: nat, f: nat)
    requires i < |s| && NextOpen(s, i + 1) < |s|
    ensures UnclosedShape([s[i]] + Out(s, i + 1), 0, f) ==> UnclosedShape(s, i, NextOpen(s, i + 1))
  {
    var n := NextOpen(s, i + 1);
    var t := Out(s, n);
    CopiedFront(s, i);
    OutOpens(s, n);
    OutCloser(s, n);
    ShapeInSubject(s, i, n, t, f);
  }

  /** The scan after a byte: the subject up to its next `<`, then the scan from there. */
  lemma CopiedFront(s: string, i: nat)
    requires i < |s|
    ensures var n := NextOpen(s, i + 1); [s[i]] + Out(s, i + 1) == s[i..n] + Out(s, n)
  {
    var n := NextOpen(s, i + 1);
    OutPrefix(s, i + 1, n);
    ConsSlice(s, i, n, Out(s, i + 1), Out(s, n));
  }

  /** A byte put back in front of the slice after it. */
  lemma ConsSlice(s: string, i: nat, n: nat, rest: string, t: string)
    requires i < n <= |s| && rest == s[i + 1..n] + t
    ensures [s[i]] + rest == s[i..n] + t
  {
    assert s[i..n] == [s[i]] + s[i + 1..n];
  }

  /**
   * A shape at the front of the subject's text up to its next `<`, followed
   * by a `t` that starts with `<` and whose closers are closers of the
   * subject there, is a shape of the subject.
   */
  lemma ShapeInSubject(s: string, i: nat, n: nat, t: string, f: nat)
    requires i < n < |s| && s[n] == '<' && forall k :: i + 1 <= k < n ==> s[k] != '<'
    requires t != [] && t[0] == '<' && (CloserAt(t, 0).Some? ==> CloserAt(s, n).Some?)
    ensures UnclosedShape(s[i..n] + t, 0, f) ==> UnclosedShape(s, i, n)
  {
    var a := s[i..n];
    forall k | 1 <= k < |a| ensures a[k] != '<' {
      assert a[k] == s[i + k];
    }
    ShapeAtFront(a, t, f);
    if UnclosedShape(a + t, 0, f) {
      assert s[i..i + 3] == a[..3];
    }
  }

  /**
   * A shape at the front of `a + t`, where `a` has no `<` but its first byte
   * and `t` starts with `<`, ends where `t` starts.
   */
  lemma ShapeAtFront(a: string, t: string, f: nat)
    requires a != [] && forall k :: 1 <= k < |a| ==> a[k] != '<'
    requires t != [] && t[0] == '<'
    ensures UnclosedShape(a + t, 0, f) ==>
      f == |a| && StartsAt(a, 0, "<p>") && CloserAt(t, 0).Some? && forall k :: 3 <= k < |a| ==> a[k] != '<'
  {
    var x := a + t;
    if UnclosedShape(x, 0, f) {
      assert x[|a|] == '<';
      SliceAt(x, 0, 3, 1);
      SliceAt(x, 0, 3, 2);
      assert f == |a|;
      assert x[..3] == a[..3];
      CloserDrop(a, t, f);
    }
  }

  /** The replacement `<p>X</p></n>`: its only `<p` is at the front; each other `<` is followed by `/`. */
  lemma ReplacementShape(t: string, n: string, q: nat)
    requires '<' !in t && '<' !in n
    requires 0 < q < |"<p>" + t + "</p></" + n + ">"|
    ensures var r := "<p>" + t + "</p></" + n + ">";
      r[q] == '<' ==> q + 1 < |r| && r[q + 1] == '/'
  {
    var r := "<p>" + t + "</p></" + n + ">";
    if q < 3 {
      assert r[q] == "<p>"[q];
    } else if q < 3 + |t| {
      assert r[q] == t[q - 3];
    } else if q < 9 + |t| {
      assert r[q] == "</p></"[q - 3 - |t|];
      assert r[q + 1] == ("</p></" + n + ">")[q + 1 - 3 - |t|];
    } else if q < 9 + |t| + |n| {
      assert r[q] == n[q - 9 - |t|];
    } else {
      assert r[q] == '>';
    }
  }

  /** After a replacement no shape starts inside it. */
  lemma ReplacedNoShape(t: string, n: string, rest: string, q: nat, f: nat)
    requires '<' !in t && '<' !in n && t != []
    requires q < |"<p>" + t + "</p></" + n + ">"|
    ensures !UnclosedShape("<p>" + t + "</p></" + n + ">" + rest, q, f)
  {
    var r := "<p>" + t + "</p></" + n + ">";
    var x := r + rest;
    if q == 0 {
      var e := 3 + |t|;
      assert x[e] == '<' && x[e + 2] == 'p';
      if 3 <= f < e {
        assert x[f] == r[f] == ("<p>" + t)[f] == t[f - 3];
      } else if f == e {
        CloserShape(x, f);
      }
    } else {
      ReplacementShape(t, n, q);
      if x[q] == '<' {
        MismatchNotAt(x, q, "<p>", 1);
      } else {
        MismatchNotAt(x, q, "<p>", 0);
      }
    }
  }

  /** A match replaced at `i`: its replacement written out. */
  lemma HitReplacement(s: string, i: nat)
    requires UnclosedParagraphAt(s, i).Some?
    ensures var f := FindChar(s, i + 3, '<').value;
      var n := CloserAt(s, f).value;
      && f > i + 3 && '<' !in s[i + 3..f] && '<' !in n
      && UnclosedParagraphAt(s, i).value.rep == "<p>" + s[i + 3..f] + "</p></" + n + ">"
  {
    var f := FindChar(s, i + 3, '<').value;
    CloserShape(s, f);
  }

  /** No shape anywhere in the output of the scan from `i` on. */
  lemma {:induction false} OutNoShape(s: string, i: nat)
    requires i <= |s|
    ensures NoShape(Out(s, i))
    decreases |s| - i
  {
    if i < |s| {
      if HitAt(s, UnclosedParagraphAt, i) {
        OutNoShape(s, i + UnclosedParagraphAt(s, i).value.len);
        HitStepNoShape(s, i);
      } else {
        OutNoShape(s, i + 1);
        CopyStepNoShape(s, i);
      }
    }
  }

  /** A replacement followed by output without shapes has none. */
  lemma HitStepNoShape(s: string, i: nat)
    requires HitAt(s, UnclosedParagraphAt, i)
    requires NoShape(Out(s, i + UnclosedParagraphAt(s, i).value.len))
    ensures NoShape(Out(s, i))
  {
    var h := UnclosedParagraphAt(s, i).value;
    var f0 := FindChar(s, i + 3, '<').value;
    var t := s[i + 3..f0];
    var n := CloserAt(s, f0).value;
    var rest := Out(s, i + h.len);
    HitReplacement(s, i);
    ReplaceFromHit(s, UnclosedParagraphAt, i);
    assert Out(s, i) == h.rep + rest;
    forall q: nat, f: nat ensures !UnclosedShape(h.rep + rest, q, f) {
      if q < |h.rep| {
        ReplacedNoShape(t, n, rest, q, f);
      } else {
        ShapeDrop(h.rep, rest, q, f);
      }
    }
  }

  /** A copied byte followed by output without shapes has none. */
  lemma CopyStepNoShape(s: string, i: nat)
    requires i < |s| && !HitAt(s, UnclosedParagraphAt, i)
    requires NoShape(Out(s, i + 1))
    ensures NoShape(Out(s, i))
  {
    var rest := Out(s, i + 1);
    CopiedRun(s, i);
    forall q: nat, f: nat ensures !UnclosedShape([s[i]] + rest, q, f) {
      if q == 0 {
        CopiedNoShape(s, i, f);
      } else {
        ShapeDrop([s[i]], rest, q, f);
      }
    }
  }

  // ---- the properties -----------------------------------------------------------

  /** After CloseParagraphs the pattern matches nowhere: every such paragraph was closed in one pass. */
  lemma CloseParagraphsComplete(s: string)
    ensures forall q: nat :: q < |CloseParagraphs(s)| ==> UnclosedParagraphAt(CloseParagraphs(s), q).None?
  {
    var x := CloseParagraphs(s);
    assert x == Out(s, 0);
    OutNoShape(s, 0);
    forall q: nat | q < |x| ensures UnclosedParagraphAt(x, q).None? {
      UnclosedHasShape(x, q);
    }
  }

  /** So a second pass changes nothing. */
  lemma CloseParagraphsIdempotent(s: string)
    ensures CloseParagraphs(CloseParagraphs(s)) == CloseParagraphs(s)
  {
    var x := CloseParagraphs(s);
    CloseParagraphsComplete(s);
    ReplaceFromNoHit(x, UnclosedParagraphAt, 0);
  }

  /** fixTagsWrappedInP ends with the closing pass, so its output has no unclosed paragraph left. */
  lemma FixTagsWrappedInPClosed(s: string)
    ensures forall q: nat :: q < |FixTagsWrappedInP(s)| ==> UnclosedParagraphAt(FixTagsWrappedInP(s), q).None?
  {
    CloseParagraphsComplete(MoveBlockquotes(UnwrapListItems(s)));
  }
}
