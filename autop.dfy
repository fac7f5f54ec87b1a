/**
 * The paragraph reconstructor of ReplaceParagraphElements.php: `<pre>`
 * extraction, block spacing, paragraph wrapping, fix-ups and line breaks.
 */
module Autop {
  import opened Strings
  import opened Pcre
  import opened AutopSteps

  /** `explode($sep, $s)`: the pieces between the occurrences of `sep`, empty ones kept. */
  function Explode(s: string, sep: string): (r: seq<string>)
    requires sep != []
    ensures |r| >= 1
    decreases |s|
  {
    match Find(s, sep)
    case Some(j) => [s[..j]] + Explode(s[j + |sep|..], sep)
    case None => [s]
  }

  /** `implode($sep, $pieces)`. */
  function Implode(pieces: seq<string>, sep: string): string
    requires |pieces| >= 1
  {
    if |pieces| == 1 then pieces[0] else pieces[0] + sep + Implode(pieces[1..], sep)
  }

  /** Splitting and joining again gives back the subject. */
  lemma {:induction false} ImplodeExplode(s: string, sep: string)
    requires sep != []
    ensures Implode(Explode(s, sep), sep) == s
    decreases |s|
  {
    match Find(s, sep)
    case Some(j) =>
      var rest := s[j + |sep|..];
      ImplodeExplode(rest, sep);
      JoinAround(s, j, sep, Explode(rest, sep));
    case None =>
  }

  /** A piece, the separator found after it, and pieces joining to the rest make up the subject. */
  lemma JoinAround(s: string, j: nat, sep: string, pieces: seq<string>)
    requires StartsAt(s, j, sep) && |pieces| >= 1 && Implode(pieces, sep) == s[j + |sep|..]
    ensures Implode([s[..j]] + pieces, sep) == s
  {
    var a, b := s[..j], s[j + |sep|..];
    calc {
      Implode([a] + pieces, sep);
      { ImplodeCons(a, pieces, sep); }
      a + sep + b;
      { assert sep == s[j..j + |sep|]; }
      a + s[j..j + |sep|] + b;
      { assert s == a + s[j..]; assert s[j..] == s[j..j + |sep|] + b; }
      s;
    }
  }

  /** Joining a piece in front of further pieces. */
  lemma ImplodeCons(a: string, pieces: seq<string>, sep: string)
    requires |pieces| >= 1
    ensures Implode([a] + pieces, sep) == a + sep + Implode(pieces, sep)
  {
    assert ([a] + pieces)[1..] == pieces;
  }

  /** The pieces never contain the separator. */
  lemma {:induction false} ExplodePiecesLackSeparator(s: string, sep: string)
    requires sep != []
    ensures forall k :: 0 <= k < |Explode(s, sep)| ==> !Contains(Explode(s, sep)[k], sep)
    decreases |s|
  {
    match Find(s, sep)
    case Some(j) =>
      ExplodePiecesLackSeparator(s[j + |sep|..], sep);
      forall i: nat | i <= j ensures !StartsAt(s[..j], i, sep) {
        if StartsAt(s[..j], i, sep) {
          assert s[..j][i..i + |sep|] == s[i..i + |sep|];
          assert StartsAt(s, i, sep);
        }
      }
    case None =>
  }

  /** What occurs in one piece occurs in the pieces joined again. */
  lemma {:induction false} ImplodeContains(pieces: seq<string>, sep: string, k: nat, p: string)
    requires k < |pieces| && Contains(pieces[k], p)
    ensures Contains(Implode(pieces, sep), p)
  {
    if |pieces| == 1 {
    } else if k == 0 {
      ContainsIn([], pieces[0], sep + Implode(pieces[1..], sep), p);
      assert [] + pieces[0] + (sep + Implode(pieces[1..], sep)) == Implode(pieces, sep);
    } else {
      ImplodeContains(pieces[1..], sep, k - 1, p);
      ContainsIn(pieces[0] + sep, Implode(pieces[1..], sep), [], p);
      assert pieces[0] + sep + Implode(pieces[1..], sep) + [] == Implode(pieces, sep);
    }
  }

  /** What occurs in one piece of a split occurs in the subject. */
  lemma ExplodeContains(s: string, sep: string, k: nat, p: string)
    requires sep != [] && k < |Explode(s, sep)| && Contains(Explode(s, sep)[k], p)
    ensures Contains(s, p)
  {
    ImplodeContains(Explode(s, sep), sep, k, p);
    ImplodeExplode(s, sep);
  }

  /** The placeholder `<pre wp-pre-tag-N></pre>`. */
  function PreName(n: nat): string {
    "<pre wp-pre-tag-" + NatToString(n) + "></pre>"
  }

  /**
   * What one part contributes: unchanged without `<pre`; otherwise the text
   * before its first `<pre`, then the `n`-th placeholder.
   */
  function PrePiece(part: string, n: nat): string {
    match Find(part, "<pre")
    case None => part
    case Some(start) => part[..start] + PreName(n)
  }

  /** How many parts contain `<pre`: the placeholders numbered so far. */
  function CountPre(parts: seq<string>): (n: nat)
    ensures n <= |parts|
  {
    if parts == [] then 0
    else CountPre(parts[..|parts| - 1]) + (if Contains(parts[|parts| - 1], "<pre") then 1 else 0)
  }

  /** The string cleanPeeParts builds from `parts`. */
  function PeeParts(parts: seq<string>): string {
    if parts == [] then []
    else PeeParts(parts[..|parts| - 1]) + PrePiece(parts[|parts| - 1], CountPre(parts[..|parts| - 1]))
  }

  /**
   * cleanPeeParts: each part is appended as it is, or cut at its first `<pre`
   * and followed by the next placeholder. The table of placeholders it fills
   * is local to it and discarded, so it is not modelled.
   */
  method CleanPeeParts(parts: seq<string>) returns (pee: string)
    ensures pee == PeeParts(parts)
  {
    var iteration := 0;
    pee := "";
    for i := 0 to |parts|
      invariant pee == PeeParts(parts[..i])
      invariant iteration == CountPre(parts[..i])
    {
      var part := parts[i];
      assert parts[..i + 1][..i] == parts[..i];
      var start := Find(part, "<pre");
      if start.None? {
        pee := pee + part;
        continue;
      }
      var name := "<pre wp-pre-tag-" + NatToString(iteration) + "></pre>";
      pee := pee + (part[..start.value] + name);
      iteration := iteration + 1;
    }
    assert parts[..|parts|] == parts;
  }

  /** Parts without `<pre` are simply concatenated: their `</pre>` separators stay removed. */
  lemma {:induction false} PeePartsWithoutPre(parts: seq<string>)
    requires forall k :: 0 <= k < |parts| ==> !Contains(parts[k], "<pre")
    ensures PeeParts(parts) == Concat(parts)
    ensures CountPre(parts) == 0
  {
    if parts != [] {
      var init := parts[..|parts| - 1];
      PeePartsWithoutPre(init);
      ConcatAppend(init, parts[|parts| - 1]);
      assert init + [parts[|parts| - 1]] == parts;
    }
  }

  /** One more part containing `<pre` takes the next number. */
  lemma PeePartsNumbering(parts: seq<string>, part: string, start: nat)
    requires Find(part, "<pre") == Some(start)
    ensures PeeParts(parts + [part]) == PeeParts(parts) + (part[..start] + PreName(CountPre(parts)))
    ensures CountPre(parts + [part]) == CountPre(parts) + 1
  {
    assert (parts + [part])[..|parts|] == parts;
  }

  /**
   * cleanBeforeAutoP: white-space-only text becomes empty; otherwise a newline
   * is appended and, when `<pre` occurs, every part but the last (split at
   * `</pre>`) goes through cleanPeeParts.
   */
  function CleanBeforeAutoP(pee: string): string {
    if Trim(pee, IsTrimmed) == [] then []
    else
      var padded := pee + "\n";
      if Contains(padded, "<pre") then
        var parts := Explode(padded, "</pre>");
        PeeParts(parts[..|parts| - 1]) + parts[|parts| - 1]
      else padded
  }

  /**
   * Each part holding `<pre` leaves in the built text the placeholder
   * numbered by the parts holding `<pre` before it.
   */
  lemma {:induction false} PeePartsPlaceholder(parts: seq<string>, k: nat)
    requires k < |parts| && Contains(parts[k], "<pre")
    ensures Contains(PeeParts(parts), PreName(CountPre(parts[..k])))
  {
    var j := |parts| - 1;
    var init := parts[..j];
    if k == j {
      assert parts == init + [parts[j]];
      PeePartsLastPlaceholder(init, parts[j]);
    } else {
      PeePartsPlaceholder(init, k);
      assert init[..k] == parts[..k];
      ContainsPrefix(PeeParts(init), PrePiece(parts[j], CountPre(init)), PreName(CountPre(parts[..k])));
    }
  }

  /** A last part holding `<pre` leaves its placeholder at the end. */
  lemma PeePartsLastPlaceholder(init: seq<string>, part: string)
    requires Contains(part, "<pre")
    ensures Contains(PeeParts(init + [part]), PreName(CountPre(init)))
  {
    var start := Find(part, "<pre").value;
    var front := PeeParts(init) + part[..start];
    PeePartsNumbering(init, part, start);
    assert PeeParts(init + [part]) == front + PreName(CountPre(init));
    ContainsEnd(front, PreName(CountPre(init)));
  }

  /**
   * cleanBeforeAutoP swaps every `<pre` block closed by a later `</pre>` for
   * its numbered placeholder: the placeholder is in the text it returns.
   */
  lemma CleanBeforeAutoPPlaceholder(pee: string, k: nat)
    requires Trim(pee, IsTrimmed) != []
    requires var parts := Explode(pee + "\n", "</pre>");
      k < |parts| - 1 && Contains(parts[k], "<pre")
    ensures var parts := Explode(pee + "\n", "</pre>");
      Contains(CleanBeforeAutoP(pee), PreName(CountPre(parts[..k])))
  {
    var padded := pee + "\n";
    var parts := Explode(padded, "</pre>");
    var init := parts[..|parts| - 1];
    ExplodeContains(padded, "</pre>", k, "<pre");
    PeePartsPlaceholder(init, k);
    assert init[k] == parts[k] && init[..k] == parts[..k];
    var name := PreName(CountPre(parts[..k]));
    var out := PeeParts(init) + parts[|parts| - 1];
    ContainsPrefix(PeeParts(init), parts[|parts| - 1], name);
    CleanBeforeAutoPParts(pee);
    assert CleanBeforeAutoP(pee) == out;
  }

  /** With `<pre` in the padded text, cleanBeforeAutoP is the built parts and the untouched last part. */
  lemma CleanBeforeAutoPParts(pee: string)
    requires Trim(pee, IsTrimmed) != [] && Contains(pee + "\n", "<pre")
    ensures var parts := Explode(pee + "\n", "</pre>");
      CleanBeforeAutoP(pee) == PeeParts(parts[..|parts| - 1]) + parts[|parts| - 1]
  {
  }

  /** The wrapping loop of autop: `'<p>' . trim($piece, "\n") . "</p>\n"` per piece, in order. */
  method WrapParagraphs(pieces: seq<string>) returns (pee: string)
    ensures pee == Paragraphs(pieces)
  {
    pee := "";
    for i := 0 to |pieces|
      invariant pee == Paragraphs(pieces[..i])
    {
      ParagraphsStep(pieces, i);
      pee := pee + Paragraph(pieces[i]);
    }
    assert pieces[..|pieces|] == pieces;
  }

  lemma ParagraphsStep(pieces: seq<string>, i: nat)
    requires i < |pieces|
    ensures Paragraphs(pieces[..i + 1]) == Paragraphs(pieces[..i]) + Paragraph(pieces[i])
  {
    assert pieces[..i + 1][..i] == pieces[..i];
  }

  /** autop after the paragraphs are built, up to the optional line breaks. */
  function AfterWrapping(pee: string): string {
    var a := Replace(pee, EmptyParagraphAt);
    var b := Replace(a, (s: string, i: nat) => WrappedBlockAt(IsBlockName, s, i));
    var c := FixTagsWrappedInP(b);
    var d := Replace(c, (s: string, i: nat) => ParagraphBeforeBlockAt(IsBlockName, s, i));
    Replace(d, (s: string, i: nat) => BlockBeforeCloseAt(IsBlockName, s, i))
  }

  /** The final clean-up of `<br />` next to block tags and of the last `\n</p>`. */
  function Finish(pee: string, names: Names): string {
    var a := Replace(pee, (s: string, i: nat) => BlockThenBreakAt(names, s, i));
    var b := Replace(a, BreakBeforeBlockAt);
    Replace(b, FinalParagraphAt)
  }

  /** The text autop returns; the placeholders of `<pre>` blocks are never put back. */
  function AutopResult(pee: string, br: bool): string {
    var spaced := SpaceOutBlocks(CleanBeforeAutoP(pee), IsBlockName);
    var fixed := AfterWrapping(Paragraphs(SplitParagraphs(spaced)));
    Finish(if br then InsertLineBreaks(fixed) else fixed, IsBlockName)
  }

  /** autop. */
  method Autop(pee: string, br: bool) returns (r: string)
    ensures r == AutopResult(pee, br)
  {
    var spaced := SpaceOutBlocks(CleanBeforeAutoP(pee), IsBlockName);
    var pees := SplitParagraphs(spaced);
    var wrapped := WrapParagraphs(pees);
    var fixed := AfterWrapping(wrapped);
    if br {
      fixed := InsertLineBreaks(fixed);
    }
    r := Finish(fixed, IsBlockName);
  }

  /** Every step maps the empty text to the empty text. */
  lemma StepsKeepEmpty(br: bool)
    ensures SpaceOutBlocks([], IsBlockName) == []
    ensures AfterWrapping(Paragraphs(SplitParagraphs([]))) == []
    ensures Finish(if br then InsertLineBreaks([]) else [], IsBlockName) == []
  {
    assert !Contains([], "<object");
    assert ReplaceAll([], Shield, "\n") == [];
  }

  /** White-space-only text (as `trim` sees it) comes out as the empty string. */
  lemma AutopWhitespaceOnly(pee: string, br: bool)
    requires forall k :: 0 <= k < |pee| ==> IsTrimmed(pee[k])
    ensures AutopResult(pee, br) == []
  {
    TrimEmpty(pee);
    assert CleanBeforeAutoP(pee) == [];
    StepsKeepEmpty(br);
  }
}
