/**
 * Why the older autop gets its `<pre>` blocks back. The text is split at
 * `</pre>`; each part up to the last is cut at its first `<pre` and the rest
 * becomes the placeholder `<pre wp-pre-tag-N></pre>`, recorded with the block
 * it stands for. The final `str_replace` replaces the placeholders in turn.
 * When every `</pre>` closes a part holding `<pre` and no part already holds
 * placeholder text, this gives back the text before extraction.
 */
module PreRestore {
  import opened Strings
  import opened Autop
  import opened LegacyAutop

  /** Every part holds `<pre`: each `</pre>` of the text closes an opened block. */
  predicate AllPre(parts: seq<string>) {
    forall k :: 0 <= k < |parts| ==> Contains(parts[k], "<pre")
  }

  /** No part holds the text every placeholder starts with. */
  predicate NoPlaceholderText(parts: seq<string>) {
    forall k :: 0 <= k < |parts| ==> !Contains(parts[k], "<pre wp-pre-tag-")
  }

  /** Where the first `<pre` of a part starts. */
  function PreStart(part: string): (st: nat)
    requires Contains(part, "<pre")
    ensures StartsAt(part, st, "<pre")
    ensures forall k: nat :: k < st ==> !StartsAt(part, k, "<pre")
  {
    Find(part, "<pre").value
  }

  /** The parts joined again by the `</pre>` the split removed, each part closed. */
  function Closed(parts: seq<string>): string {
    if parts == [] then [] else parts[0] + "</pre>" + Closed(parts[1..])
  }

  /** The text of a part before its first `<pre`. */
  function Front(p: string): string
    requires Contains(p, "<pre")
  {
    p[..PreStart(p)]
  }

  /** What stands for part `j` at stage `k`: its block once put back, `w` while being put back, else its placeholder. */
  function Tip(p: string, j: nat, k: nat, w: string): string
    requires Contains(p, "<pre")
  {
    if j < k then PreBlock(p, PreStart(p)) else if j == k then w else PreName(j)
  }

  /**
   * The text at restore stage `k`: the blocks before `k` are back, block `k`
   * reads `w`, the later blocks are still placeholders.
   */
  function Stage(parts: seq<string>, k: nat, w: string): string
    requires AllPre(parts)
  {
    if parts == [] then []
    else
      var j := |parts| - 1;
      Stage(parts[..j], k, w) + (Front(parts[j]) + Tip(parts[j], j, k, w))
  }

  // ---- the shape of a placeholder --------------------------------------------

  /**
   * What the proofs use of a placeholder: it starts with
   * `<pre wp-pre-tag-` and ends with `</pre>`, its only other `<` is the one
   * of that `</pre>`, and each `>` before the last byte follows a digit.
   */
  predicate PlaceholderShape(p: string) {
    && |p| >= 24
    && p[..16] == "<pre wp-pre-tag-"
    && p[|p| - 6..] == "</pre>"
    && (forall o :: 0 < o < |p| && o != |p| - 6 ==> p[o] != '<')
    && (forall o :: 0 <= o < |p| - 1 && p[o] == '>' ==> o >= 1 && '0' <= p[o - 1] <= '9')
  }

  /** A placeholder is `<pre wp-pre-tag-`, the digits, then `></pre>`. */
  lemma PreNameParts(n: nat)
    ensures var d := NatToString(n);
      var p := PreName(n);
      |p| == 23 + |d| && p[..16] == "<pre wp-pre-tag-" && p[16..16 + |d|] == d && p[16 + |d|..] == "></pre>"
  {
  }

  /** Each byte of a placeholder, read off its three pieces. */
  lemma PreNameChar(n: nat, o: nat)
    requires o < |PreName(n)|
    ensures var d := NatToString(n);
      PreName(n)[o] == if o < 16 then "<pre wp-pre-tag-"[o] else if o < 16 + |d| then d[o - 16] else "></pre>"[o - 16 - |d|]
  {
    var d := NatToString(n);
    var p := PreName(n);
    PreNameParts(n);
    if o < 16 {
      SliceAt(p, 0, 16, o);
    } else if o < 16 + |d| {
      SliceAt(p, 16, 16 + |d|, o);
    } else {
      SliceAt(p, 16 + |d|, |p|, o);
    }
  }

  /** The only `>` of a placeholder before its last byte closes the opening tag, after the digits. */
  lemma PreNameGt(n: nat, o: nat)
    requires o < |PreName(n)| - 1 && PreName(n)[o] == '>'
    ensures o == 16 + |NatToString(n)|
  {
    PreNameParts(n);
    PreNameChar(n, o);
  }

  lemma PreNameShape(n: nat)
    ensures PlaceholderShape(PreName(n))
  {
    var d := NatToString(n);
    var p := PreName(n);
    PreNameParts(n);
    assert p[|p| - 6..] == p[16 + |d|..][1..];
    forall o | 0 < o < |p| && o != |p| - 6 ensures p[o] != '<' {
      PreNameChar(n, o);
    }
    forall o | 0 <= o < |p| - 1 && p[o] == '>' ensures o >= 1 && '0' <= p[o - 1] <= '9' {
      PreNameGt(n, o);
      PreNameChar(n, o - 1);
    }
  }

  /** A placeholder found at the start of another is the same placeholder. */
  lemma PreNameInside(j: nat, k: nat, i: nat)
    requires StartsAt(PreName(j), i, PreName(k))
    ensures j == k
  {
    var pj, pk := PreName(j), PreName(k);
    var dj, dk := NatToString(j), NatToString(k);
    PreNameParts(j);
    PreNameParts(k);
    PreNameShape(j);
    PreNameShape(k);
    PlaceholderFront(pj, pk, i);
    PreNameChar(k, 16 + |dk|);
    PreNameGt(j, 16 + |dk|);
    forall t | 0 <= t < |dj| ensures dj[t] == dk[t] {
      PreNameChar(j, 16 + t);
      PreNameChar(k, 16 + t);
    }
    NatToStringInjective(j, k);
  }

  /** Two different placeholders never occur inside one another. */
  lemma PreNamesDistinct(j: nat, k: nat)
    requires j != k
    ensures !Contains(PreName(j), PreName(k))
  {
    if Contains(PreName(j), PreName(k)) {
      var i: nat :| i <= |PreName(j)| && StartsAt(PreName(j), i, PreName(k));
      PreNameInside(j, k, i);
      assert false;
    }
  }

  /** A placeholder inside another placeholder starts at its front and matches it byte for byte. */
  lemma PlaceholderFront(q: string, p: string, i: nat)
    requires PlaceholderShape(q) && PlaceholderShape(p) && StartsAt(q, i, p)
    ensures i == 0 && forall o :: 0 <= o < |p| ==> q[o] == p[o]
  {
    SliceAt(p, 0, 16, 0);
    SliceAt(q, i, i + |p|, i);
    assert q[i] == '<';
    if i != 0 {
      assert false;
    }
    forall o | 0 <= o < |p| ensures q[o] == p[o] {
      SliceAt(q, 0, |p|, o);
    }
  }

  // ---- no placeholder straddles a boundary ------------------------------------

  /** Nothing ending in `</pre>` can be the start of a placeholder that runs on. */
  lemma NoStraddleAfterClose(x: string, y: string, p: string)
    requires |x| >= 6 && x[|x| - 6..] == "</pre>"
    requires PlaceholderShape(p)
    ensures NoStraddle(x, y, p)
  {
    SliceAt(x, |x| - 6, |x|, |x| - 1);
    SliceAt(x, |x| - 6, |x|, |x| - 2);
    SliceAt(p, 0, 16, 0);
    forall i: nat | i < |x| < i + |p| ensures !StartsAt(x + y, i, p) {
      var o := |x| - 1 - i;
      assert (x + y)[i + o] == '>';
      if o == 0 || p[o] != '>' {
        MismatchNotAt(x + y, i, p, o);
      } else {
        assert (x + y)[i + (o - 1)] == 'e';
        MismatchNotAt(x + y, i, p, o - 1);
      }
    }
  }

  /** Nor can a placeholder run into something starting with `<p`. */
  lemma NoStraddleBeforeOpen(x: string, y: string, p: string)
    requires |y| >= 2 && y[0] == '<' && y[1] == 'p'
    requires PlaceholderShape(p)
    ensures NoStraddle(x, y, p)
  {
    SliceAt(p, |p| - 6, |p|, |p| - 5);
    forall i: nat | i < |x| < i + |p| ensures !StartsAt(x + y, i, p) {
      var o := |x| - i;
      assert (x + y)[i + o] == '<';
      if p[o] != '<' {
        MismatchNotAt(x + y, i, p, o);
      } else {
        assert o == |p| - 6;
        assert (x + y)[i + (o + 1)] == 'p';
        MismatchNotAt(x + y, i, p, o + 1);
      }
    }
  }

  // ---- pieces without the placeholder being replaced ---------------------------

  /** The text before the first `<pre` of a part holds no placeholder. */
  lemma NoPlaceholderBeforePre(part: string, p: string)
    requires Contains(part, "<pre") && PlaceholderShape(p)
    ensures !Contains(Front(part), p)
  {
    var b := Front(part);
    forall i: nat | i + |p| <= |b| ensures !StartsAt(b, i, p) {
      NotAtMismatch(part, i, "<pre");
      var o :| 0 <= o < 4 && part[i + o] != "<pre"[o];
      SliceAt(p, 0, 16, o);
      MismatchNotAt(b, i, p, o);
    }
  }

  /** A recorded block holds no placeholder when its part holds no placeholder text. */
  lemma NoPlaceholderInBlock(part: string, p: string)
    requires Contains(part, "<pre") && !Contains(part, "<pre wp-pre-tag-")
    requires PlaceholderShape(p)
    ensures !Contains(PreBlock(part, PreStart(part)), p)
  {
    var st := PreStart(part);
    var v := PreBlock(part, st);
    forall i: nat | i + |p| <= |v| ensures !StartsAt(v, i, p) {
      var w := "<pre wp-pre-tag-";
      assert !StartsAt(part, st + i, w);
      NotAtMismatch(part, st + i, w);
      var o :| 0 <= o < 16 && part[st + i + o] != w[o];
      SliceAt(p, 0, 16, o);
      assert v[i + o] == part[st + i + o];
      MismatchNotAt(v, i, p, o);
    }
  }

  /** Text without `</pre>` holds no placeholder. */
  lemma NoPlaceholderWithoutClose(t: string, p: string)
    requires !Contains(t, "</pre>") && PlaceholderShape(p)
    ensures !Contains(t, p)
  {
    forall i: nat | i + |p| <= |t| ensures !StartsAt(t, i, p) {
      var c := "</pre>";
      assert !StartsAt(t, i + |p| - 6, c);
      NotAtMismatch(t, i + |p| - 6, c);
      var o :| 0 <= o < 6 && t[i + |p| - 6 + o] != c[o];
      SliceAt(p, |p| - 6, |p|, |p| - 6 + o);
      MismatchNotAt(t, i, p, |p| - 6 + o);
    }
  }

  // ---- the stages -----------------------------------------------------------

  /** Before any replacement the stage text is what the extraction built. */
  lemma {:induction false} StageStart(parts: seq<string>)
    requires AllPre(parts)
    ensures Stage(parts, 0, PreName(0)) == PeeParts(parts)
    ensures CountPre(parts) == |parts|
  {
    if parts != [] {
      var j := |parts| - 1;
      StageStart(parts[..j]);
    }
  }

  lemma {:induction false} ClosedAppend(parts: seq<string>, p: string)
    ensures Closed(parts + [p]) == Closed(parts) + p + "</pre>"
  {
    if parts != [] {
      assert (parts + [p])[1..] == parts[1..] + [p];
      ClosedAppend(parts[1..], p);
    }
  }

  /** Once every block is back, the stage text is the closed parts. */
  lemma {:induction false} StageClosed(parts: seq<string>, k: nat, w: string)
    requires AllPre(parts) && k >= |parts|
    ensures Stage(parts, k, w) == Closed(parts)
  {
    if parts != [] {
      var j := |parts| - 1;
      var p := parts[j];
      var init := parts[..j];
      assert init + [p] == parts;
      calc {
        Stage(parts, k, w);
        Stage(init, k, w) + (Front(p) + Tip(p, j, k, w));
        { StageClosed(init, k, w); PieceClosed(p, j, k, w); }
        Closed(init) + (p + "</pre>");
        { ClosedAppend(init, p); }
        Closed(init + [p]);
      }
    }
  }

  /** A part whose block is back reads as the part closed by `</pre>`. */
  lemma PieceClosed(p: string, j: nat, k: nat, w: string)
    requires Contains(p, "<pre") && j < k
    ensures Front(p) + Tip(p, j, k, w) == p + "</pre>"
  {
    var st := PreStart(p);
    assert p[..st] + p[st..] == p;
  }

  /** Putting block `k` back moves the stage on to `k + 1`. */
  lemma {:induction false} StageNext(parts: seq<string>, k: nat)
    requires AllPre(parts) && k < |parts|
    ensures Stage(parts, k, PreBlock(parts[k], PreStart(parts[k]))) == Stage(parts, k + 1, PreName(k + 1))
  {
    var j := |parts| - 1;
    var init := parts[..j];
    var p := parts[j];
    var v := PreBlock(parts[k], PreStart(parts[k]));
    var w := PreName(k + 1);
    calc {
      Stage(parts, k, v);
      Stage(init, k, v) + (Front(p) + Tip(p, j, k, v));
      { if k < j { StageNext(init, k); } else { StageClosed(init, k, v); StageClosed(init, k + 1, w); } }
      Stage(init, k + 1, w) + (Front(p) + Tip(p, j, k, v));
      { assert Tip(p, j, k, v) == Tip(p, j, k + 1, w); }
      Stage(parts, k + 1, w);
    }
  }

  /** A stage text of at least one part, with a `w` ending in `</pre>`, ends in `</pre>`. */
  lemma StageEndsClosed(parts: seq<string>, k: nat, w: string)
    requires AllPre(parts) && parts != []
    requires |w| >= 6 && w[|w| - 6..] == "</pre>"
    ensures var s := Stage(parts, k, w); |s| >= 6 && s[|s| - 6..] == "</pre>"
  {
    var j := |parts| - 1;
    var p := parts[j];
    var z := Tip(p, j, k, w);
    TipCloses(p, j, k, w);
    var a := Stage(parts[..j], k, w) + Front(p);
    assert Stage(parts, k, w) == a + z;
    SuffixOfAppend(a, z, 6);
  }

  /** Every tip ends in `</pre>`. */
  lemma TipCloses(p: string, j: nat, k: nat, w: string)
    requires Contains(p, "<pre")
    requires |w| >= 6 && w[|w| - 6..] == "</pre>"
    ensures var z := Tip(p, j, k, w); |z| >= 6 && z[|z| - 6..] == "</pre>"
  {
    PreNameShape(j);
    if j < k {
      var st := PreStart(p);
      SuffixOfAppend(p[st..], "</pre>", 6);
    }
  }

  /** At stage `k` each part's tip starts with `<p`. */
  lemma TipOpens(p: string, j: nat, k: nat)
    requires Contains(p, "<pre")
    ensures var z := Tip(p, j, k, PreName(k)); |z| >= 2 && z[0] == '<' && z[1] == 'p'
  {
    var st := PreStart(p);
    PreNameShape(j);
    PreNameShape(k);
    SliceAt(PreName(j), 0, 16, 0);
    SliceAt(PreName(j), 0, 16, 1);
    SliceAt(PreName(k), 0, 16, 0);
    SliceAt(PreName(k), 0, 16, 1);
    SliceAt(p, st, st + 4, st);
    SliceAt(p, st, st + 4, st + 1);
    assert PreBlock(p, st)[0] == p[st] && PreBlock(p, st)[1] == p[st + 1];
  }

  /** Placeholder `k` does not occur in the tip of part `j`, unless it is that tip. */
  lemma TipReplace(p: string, j: nat, k: nat, w: string)
    requires Contains(p, "<pre") && !Contains(p, "<pre wp-pre-tag-")
    ensures ReplaceAll(Tip(p, j, k, PreName(k)), PreName(k), w) == Tip(p, j, k, w)
  {
    var pk := PreName(k);
    PreNameShape(k);
    if j < k {
      NoPlaceholderInBlock(p, pk);
      ReplaceAllAbsent(Tip(p, j, k, pk), pk, w);
    } else if j == k {
      ReplaceAllSelf(pk, w);
    } else {
      PreNamesDistinct(j, k);
      ReplaceAllAbsent(PreName(j), pk, w);
    }
  }

  /** One part's contribution: its front is kept, its tip is replaced as above. */
  lemma PieceReplace(p: string, j: nat, k: nat, w: string)
    requires Contains(p, "<pre") && !Contains(p, "<pre wp-pre-tag-")
    ensures ReplaceAll(Front(p) + Tip(p, j, k, PreName(k)), PreName(k), w) == Front(p) + Tip(p, j, k, w)
  {
    var pk := PreName(k);
    PreNameShape(k);
    TipOpens(p, j, k);
    NoStraddleBeforeOpen(Front(p), Tip(p, j, k, pk), pk);
    ReplaceAllSplit(Front(p), Tip(p, j, k, pk), pk, w);
    NoPlaceholderBeforePre(p, pk);
    ReplaceAllAbsent(Front(p), pk, w);
    TipReplace(p, j, k, w);
  }

  /**
   * One `str_replace` of placeholder `k` by `w`, over stage `k`: the
   * placeholder is the only occurrence, and it turns into `w`.
   */
  lemma {:induction false} StageReplace(parts: seq<string>, k: nat, w: string)
    requires AllPre(parts) && NoPlaceholderText(parts)
    ensures ReplaceAll(Stage(parts, k, PreName(k)), PreName(k), w) == Stage(parts, k, w)
  {
    if parts != [] {
      var j := |parts| - 1;
      var init := parts[..j];
      var p := parts[j];
      var pk := PreName(k);
      var x := Stage(init, k, pk);
      var y := Front(p) + Tip(p, j, k, pk);
      StageReplace(init, k, w);
      if init != [] {
        PreNameShape(k);
        StageEndsClosed(init, k, pk);
        NoStraddleAfterClose(x, y, pk);
      }
      ReplaceAllSplit(x, y, pk, w);
      PieceReplace(p, j, k, w);
    }
  }

  /** With every part holding `<pre`, every part is numbered. */
  lemma {:induction false} CountAllPre(parts: seq<string>)
    requires AllPre(parts)
    ensures CountPre(parts) == |parts|
  {
    if parts != [] {
      CountAllPre(parts[..|parts| - 1]);
    }
  }

  /** The last part of a text whose parts all hold `<pre` records the last entry. */
  lemma PreTagsLast(parts: seq<string>)
    requires AllPre(parts) && parts != []
    ensures var j := |parts| - 1;
      PreTags(parts) == PreTags(parts[..j]) + [(PreName(j), PreBlock(parts[j], PreStart(parts[j])))]
  {
    var j := |parts| - 1;
    CountAllPre(parts[..j]);
    assert Find(parts[j], "<pre") == Some(PreStart(parts[j]));
  }

  /** The table holds, at index `k`, placeholder `k` and the block of part `k`. */
  lemma {:induction false} PreTagsAt(parts: seq<string>, k: nat)
    requires AllPre(parts) && k < |parts|
    ensures |PreTags(parts)| == |parts|
    ensures PreTags(parts)[k] == (PreName(k), PreBlock(parts[k], PreStart(parts[k])))
  {
    var j := |parts| - 1;
    var init := parts[..j];
    CountAllPre(parts);
    PreTagsLast(parts);
    if k < j {
      PreTagsAt(init, k);
      assert PreTags(parts)[k] == PreTags(init)[k];
      assert init[k] == parts[k];
    }
  }

  /** Replacing the remaining placeholders, from `k` on, closes every part again. */
  lemma {:induction false} RestoreFromStage(parts: seq<string>, k: nat, tail: string)
    requires AllPre(parts) && NoPlaceholderText(parts) && k <= |parts| && k <= |PreTags(parts)|
    requires !Contains(tail, "</pre>")
    ensures Restore(Stage(parts, k, PreName(k)) + tail, PreTags(parts)[k..]) == Closed(parts) + tail
    decreases |parts| - k
  {
    CountAllPre(parts);
    if k == |parts| {
      StageClosed(parts, k, PreName(k));
    } else {
      var t := PreTags(parts)[k..];
      PreTagsAt(parts, k);
      assert t[0] == (PreName(k), PreBlock(parts[k], PreStart(parts[k])));
      RestoreStep(parts, k, tail);
      assert t[1..] == PreTags(parts)[k + 1..];
      RestoreFromStage(parts, k + 1, tail);
    }
  }

  /** The `str_replace` of placeholder `k` by its block moves the stage on by one. */
  lemma RestoreStep(parts: seq<string>, k: nat, tail: string)
    requires AllPre(parts) && NoPlaceholderText(parts) && k < |parts|
    requires !Contains(tail, "</pre>")
    ensures var v := PreBlock(parts[k], PreStart(parts[k]));
      ReplaceAll(Stage(parts, k, PreName(k)) + tail, PreName(k), v) == Stage(parts, k + 1, PreName(k + 1)) + tail
  {
    var pk := PreName(k);
    var v := PreBlock(parts[k], PreStart(parts[k]));
    var s := Stage(parts, k, pk);
    PreNameShape(k);
    StageEndsClosed(parts, k, pk);
    NoStraddleAfterClose(s, tail, pk);
    ReplaceAllSplit(s, tail, pk, v);
    StageReplace(parts, k, v);
    NoPlaceholderWithoutClose(tail, pk);
    ReplaceAllAbsent(tail, pk, v);
    StageNext(parts, k);
  }

  /** The parts joined by `</pre>` are the closed parts followed by the last one. */
  lemma {:induction false} ImplodeClosed(parts: seq<string>)
    requires |parts| >= 1
    ensures Implode(parts, "</pre>") == Closed(parts[..|parts| - 1]) + parts[|parts| - 1]
  {
    if |parts| > 1 {
      ImplodeClosed(parts[1..]);
      assert parts[1..][..|parts| - 2] == parts[..|parts| - 1][1..];
    }
  }

  /**
   * The restore of the older autop undoes its extraction: when every
   * `</pre>` closes a part holding `<pre`, and no part holds placeholder
   * text already, the recorded blocks come back verbatim in their places.
   */
  lemma RestoreUndoesExtraction(padded: string)
    requires var parts := Explode(padded, "</pre>");
      AllPre(parts[..|parts| - 1]) && NoPlaceholderText(parts[..|parts| - 1])
    ensures Restore(Extracted(padded).0, Extracted(padded).1) == padded
  {
    if Contains(padded, "<pre") {
      var parts := Explode(padded, "</pre>");
      var init := parts[..|parts| - 1];
      var last := parts[|parts| - 1];
      StageStart(init);
      CountAllPre(init);
      ExplodePiecesLackSeparator(padded, "</pre>");
      RestoreFromStage(init, 0, last);
      assert PreTags(init)[0..] == PreTags(init);
      ImplodeClosed(parts);
      ImplodeExplode(padded, "</pre>");
    }
  }
}
