/**
 * The older copy of the paragraph reconstructor, kept in cleanhtml.php. It
 * differs from the current one in four ways: its block list also holds
 * select, option and noscript; it closes unclosed paragraphs before it
 * unwraps block tags wrapped in `<p>`; it keeps the table of `<pre>`
 * placeholders, putting the original blocks back at the end; and its
 * line-break step, as written, does not shield script and style elements.
 */
module LegacyAutop {
  import opened Strings
  import opened Pcre
  import opened AutopSteps
  import opened Autop

  /** A placeholder and the `<pre>` block it stands for, in the order they were recorded. */
  type PreTable = seq<(string, string)>

  /** What one part containing `<pre` records: its text from `<pre` on, with the `</pre>` explode removed. */
  function PreBlock(part: string, start: nat): string
    requires start <= |part|
  {
    part[start..] + "</pre>"
  }

  /** The table the extraction loop fills from `parts`. */
  function PreTags(parts: seq<string>): (t: PreTable)
    ensures |t| == CountPre(parts)
  {
    if parts == [] then []
    else
      var init := parts[..|parts| - 1];
      var part := parts[|parts| - 1];
      match Find(part, "<pre")
      case None => PreTags(init)
      case Some(start) => PreTags(init) + [(PreName(CountPre(init)), PreBlock(part, start))]
  }

  /**
   * The extraction loop of the older autop: the text it builds (the same as
   * cleanPeeParts builds) and the placeholder table beside it.
   */
  method ExtractPre(parts: seq<string>) returns (pee: string, preTags: PreTable)
    ensures pee == PeeParts(parts)
    ensures preTags == PreTags(parts)
  {
    pee := "";
    preTags := [];
    var i := 0;
    for j := 0 to |parts|
      invariant pee == PeeParts(parts[..j])
      invariant preTags == PreTags(parts[..j])
      invariant i == CountPre(parts[..j])
    {
      var part := parts[j];
      assert parts[..j + 1][..j] == parts[..j];
      var start := Find(part, "<pre");
      if start.None? {
        pee := pee + part;
        continue;
      }
      var name := "<pre wp-pre-tag-" + NatToString(i) + "></pre>";
      preTags := preTags + [(name, part[start.value..] + "</pre>")];
      pee := pee + (part[..start.value] + name);
      i := i + 1;
    }
    assert parts[..|parts|] == parts;
  }

  /** `str_replace(array_keys($t), array_values($t), $pee)`: each pair in turn, over the whole text. */
  function Restore(pee: string, t: PreTable): string
    decreases |t|
  {
    if t == [] then pee else Restore(ReplaceAll(pee, t[0].0, t[0].1), t[1..])
  }

  /** The fix-ups after wrapping, in the older order: the missing `</p>` comes second. */
  function LegacyAfterWrapping(pee: string): string {
    var a := Replace(pee, EmptyParagraphAt);
    var b := CloseParagraphs(a);
    var c := Replace(b, (s: string, i: nat) => WrappedBlockAt(IsLegacyBlockName, s, i));
    var d := MoveBlockquotes(UnwrapListItems(c));
    var e := Replace(d, (s: string, i: nat) => ParagraphBeforeBlockAt(IsLegacyBlockName, s, i));
    Replace(e, (s: string, i: nat) => BlockBeforeCloseAt(IsLegacyBlockName, s, i))
  }

  /**
   * The line-break step of the older copy as written. Its shielding callback
   * is the string `CleanHTML::_autop_newline_preservation_helper`, which
   * names a class outside the file's namespace; PHP 7 warns and hands the
   * text back unshielded, so the break pattern reaches inside script and
   * style elements, and the marker replacement that follows finds nothing.
   */
  function UnshieldedLineBreaks(s: string): string {
    Unshield(AddLineBreaks(s))
  }

  /**
   * A text without the letter `W` (so without a shield marker) that has a
   * newline not following `<br />` is changed by the as-written step.
   */
  lemma UnshieldedBreaksChange(s: string)
    requires 'W' !in s
    requires !BreakBeforeEachNewline(s, 0)
    ensures UnshieldedLineBreaks(s) != s
    ensures BreakBeforeEachNewline(UnshieldedLineBreaks(s), 0)
  {
    BreaksNeedNoUnshield(s);
    AddLineBreaksBreaksEveryNewline(s);
  }

  /**
   * The discrepancy: a whole script or style element (`<style>\n</style>`,
   * say) with a newline that does not follow `<br />` keeps that newline
   * under the intended step, and loses it to `<br />\n` under the
   * as-written one.
   */
  lemma ScriptNewlineBroken(s: string)
    requires ScriptOrStyleAt(s, 0).Some? && ScriptOrStyleAt(s, 0).value.len == |s|
    requires 'W' !in s
    requires !BreakBeforeEachNewline(s, 0)
    ensures InsertLineBreaks(s) == s
    ensures UnshieldedLineBreaks(s) != s
  {
    ContainsChar(s, Shield, 1);
    ScriptElementKept(s);
    UnshieldedBreaksChange(s);
  }

  /** The padded text with its `<pre>` blocks swapped for placeholders, and their table. */
  function Extracted(padded: string): (string, PreTable) {
    if Contains(padded, "<pre") then
      var parts := Explode(padded, "</pre>");
      var init := parts[..|parts| - 1];
      (PeeParts(init) + parts[|parts| - 1], PreTags(init))
    else (padded, [])
  }

  /** The text the older autop returns. */
  function LegacyAutopResult(pee: string, br: bool): string {
    if Trim(pee, IsTrimmed) == [] then []
    else
      var (text, table) := Extracted(pee + "\n");
      var spaced := SpaceOutBlocks(text, IsLegacyBlockName);
      var fixed := LegacyAfterWrapping(Paragraphs(SplitParagraphs(spaced)));
      var broken := Finish(if br then UnshieldedLineBreaks(fixed) else fixed, IsLegacyBlockName);
      Restore(broken, table)
  }

  /** The older autop. */
  method LegacyAutop(pee: string, br: bool) returns (r: string)
    ensures r == LegacyAutopResult(pee, br)
  {
    if Trim(pee, IsTrimmed) == [] {
      return "";
    }
    var text := pee + "\n";
    var preTags: PreTable := [];
    if Find(text, "<pre").Some? {
      var parts := Explode(text, "</pre>");
      var last := parts[|parts| - 1];
      text, preTags := ExtractPre(parts[..|parts| - 1]);
      text := text + last;
    }
    var spaced := SpaceOutBlocks(text, IsLegacyBlockName);
    var wrapped := WrapParagraphs(SplitParagraphs(spaced));
    var fixed := LegacyAfterWrapping(wrapped);
    if br {
      // the shielding callback cannot be resolved: the text goes on unshielded
      fixed := AddLineBreaks(fixed);
      fixed := Unshield(fixed);
    }
    r := Finish(fixed, IsLegacyBlockName);
    if preTags != [] {
      r := Restore(r, preTags);
    }
  }

  // ---- properties -------------------------------------------------------------

  /** White-space-only text comes out as the empty string. */
  lemma LegacyAutopWhitespaceOnly(pee: string, br: bool)
    requires forall k :: 0 <= k < |pee| ==> IsTrimmed(pee[k])
    ensures LegacyAutopResult(pee, br) == []
  {
    TrimEmpty(pee);
  }

  /** Each part containing `<pre` is recorded under the next number, with its text from `<pre` on plus `</pre>`. */
  lemma PreTagsRecord(parts: seq<string>, part: string, start: nat)
    requires Find(part, "<pre") == Some(start)
    ensures PreTags(parts + [part]) == PreTags(parts) + [(PreName(CountPre(parts)), part[start..] + "</pre>")]
  {
    assert (parts + [part])[..|parts|] == parts;
  }

  /** Parts without `<pre` record nothing. */
  lemma {:induction false} PreTagsWithoutPre(parts: seq<string>)
    requires forall k :: 0 <= k < |parts| ==> !Contains(parts[k], "<pre")
    ensures PreTags(parts) == []
  {
    if parts != [] {
      PreTagsWithoutPre(parts[..|parts| - 1]);
    }
  }
}
