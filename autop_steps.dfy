/**
 * The regular-expression steps of the paragraph reconstructor (autop, taken
 * from WordPress), each as a matcher with its match rule written out, and the
 * straight-line groups of steps built from them.
 */
module AutopSteps {
  import opened Strings
  import opened Pcre

  /** A set of tag names: one alternation group of a pattern. */
  type Names = string -> bool

  /** The block-level tag names of the current reconstructor, `h[1-6]` written out. */
  predicate IsBlockName(n: string) {
    n == "table" || n == "thead" || n == "tfoot" || n == "caption" || n == "col" ||
    n == "colgroup" || n == "tbody" || n == "tr" || n == "td" || n == "th" || n == "div" ||
    n == "dl" || n == "dd" || n == "dt" || n == "ul" || n == "ol" || n == "li" || n == "pre" ||
    n == "form" || n == "map" || n == "area" || n == "blockquote" || n == "address" ||
    n == "math" || n == "style" || n == "p" || n == "h1" || n == "h2" || n == "h3" || n == "h4" ||
    n == "h5" || n == "h6" || n == "hr" || n == "fieldset" || n == "legend" || n == "section" ||
    n == "article" || n == "aside" || n == "hgroup" || n == "header" || n == "footer" ||
    n == "nav" || n == "figure" || n == "figcaption" || n == "details" || n == "menu" ||
    n == "summary"
  }

  /** The older copy's list: the same names plus select, option and noscript. */
  predicate IsLegacyBlockName(n: string) {
    n == "table" || n == "thead" || n == "tfoot" || n == "caption" || n == "col" ||
    n == "colgroup" || n == "tbody" || n == "tr" || n == "td" || n == "th" || n == "div" ||
    n == "dl" || n == "dd" || n == "dt" || n == "ul" || n == "ol" || n == "li" || n == "pre" ||
    n == "select" || n == "option" || n == "form" || n == "map" || n == "area" ||
    n == "blockquote" || n == "address" || n == "math" || n == "style" || n == "p" || n == "h1" ||
    n == "h2" || n == "h3" || n == "h4" || n == "h5" || n == "h6" || n == "hr" || n == "fieldset" ||
    n == "noscript" || n == "legend" || n == "section" || n == "article" || n == "aside" ||
    n == "hgroup" || n == "header" || n == "footer" || n == "nav" || n == "figure" ||
    n == "figcaption" || n == "details" || n == "menu" || n == "summary"
  }

  /** The tags before which a `<br />` is dropped at the end. */
  predicate IsBrDroppingName(n: string) {
    n == "p" || n == "li" || n == "div" || n == "dl" || n == "dd" || n == "dt" || n == "th" ||
    n == "pre" || n == "td" || n == "ul" || n == "ol"
  }

  /** One of `names` starts at `j`: an alternation group followed by more pattern. */
  predicate NamePrefixAt(s: string, j: nat, names: Names) {
    exists e :: j <= e <= |s| && names(s[j..e])
  }

  /**
   * `</?(?:names)[^>]*>` at `j`: `<`, an optional `/`, a listed name as a
   * prefix of the tag name, and everything up to the first `>`. Returns the
   * index just past the `>`.
   */
  function BlockTagEnd(s: string, j: nat, names: Names): (r: Option<nat>)
    ensures r.Some? ==> j < r.value <= |s| && s[j] == '<' && s[r.value - 1] == '>'
    ensures r.Some? ==> forall k :: j < k < r.value - 1 ==> s[k] != '>'
  {
    if j < |s| && s[j] == '<' then
      var a := if j + 1 < |s| && s[j + 1] == '/' then j + 2 else j + 1;
      if NamePrefixAt(s, a, names) then
        match FindChar(s, a, '>')
        case Some(f) => Some(f + 1)
        case None => None
      else None
    else None
  }

  // ---- spaceOutBlocks -----------------------------------------------------

  /** `<br />\s*<br />` becomes a blank line. */
  function BrPairAt(s: string, i: nat): Option<Hit> {
    if StartsAt(s, i, "<br />") then
      var k := i + 6 + SpaceRun(s, i + 6);
      if StartsAt(s, k, "<br />") then Some(Hit(k + 6 - i, "\n\n")) else None
    else None
  }

  /** `(<(?:names)[^>]*>)` gets a newline in front: the tag name need only begin with a listed name. */
  function OpenBlockAt(names: Names, s: string, i: nat): (r: Option<Hit>)
    ensures r.Some? ==> i < |s| && s[i] == '<' && NamePrefixAt(s, i + 1, names)
    ensures r.Some? ==> i + r.value.len <= |s| && r.value.rep == "\n" + s[i..i + r.value.len]
  {
    if i < |s| && s[i] == '<' && NamePrefixAt(s, i + 1, names) then
      match FindChar(s, i + 1, '>')
      case Some(f) => Some(Hit(f + 1 - i, "\n" + s[i..f + 1]))
      case None => None
    else None
  }

  /** `(</(?:names)>)` gets a blank line after it: the closing tag must name a listed tag exactly. */
  function CloseBlockAt(names: Names, s: string, i: nat): (r: Option<Hit>)
    ensures r.Some? ==> StartsAt(s, i, "</") && 3 <= r.value.len && i + r.value.len <= |s|
    ensures r.Some? ==> names(s[i + 2..i + r.value.len - 1]) && s[i + r.value.len - 1] == '>'
    ensures r.Some? ==> r.value.rep == s[i..i + r.value.len] + "\n\n"
  {
    if StartsAt(s, i, "</") then
      match FindChar(s, i + 2, '>')
      case Some(f) =>
        if names(s[i + 2..f]) then Some(Hit(f + 1 - i, s[i..f + 1] + "\n\n")) else None
      case None => None
    else None
  }

  /** addBreaksAroundTags: a newline before each block opening tag, a blank line after each block closing tag. */
  function AddBreaksAroundTags(s: string, names: Names): string {
    var t := Replace(s, (s': string, i: nat) => OpenBlockAt(names, s', i));
    Replace(t, (s': string, i: nat) => CloseBlockAt(names, s', i))
  }

  /** `str_replace(array("\r\n", "\r"), "\n", $s)`: both replacements, one after the other. */
  function NormalizeNewlines(s: string): string {
    ReplaceAll(ReplaceAll(s, "\r\n", "\n"), "\r", "\n")
  }

  /** `\s*<param([^>]*)>\s*` loses the white space around it. */
  function ParamAt(s: string, i: nat): Option<Hit> {
    if i <= |s| then
      var k := i + SpaceRun(s, i);
      if StartsAt(s, k, "<param") then
        match FindChar(s, k + 6, '>')
        case Some(f) =>
          var e := f + 1 + SpaceRun(s, f + 1);
          Some(Hit(e - i, "<param" + s[k + 6..f] + ">"))
        case None => None
      else None
    else None
  }

  /** `\s*</embed>\s*` loses the white space around it. */
  function EmbedCloseAt(s: string, i: nat): Option<Hit> {
    if i <= |s| then
      var k := i + SpaceRun(s, i);
      if StartsAt(s, k, "</embed>") then
        var e := k + 8 + SpaceRun(s, k + 8);
        Some(Hit(e - i, "</embed>"))
      else None
    else None
  }

  /** cleanUpObjectTag. */
  function CleanUpObjectTag(s: string): string {
    Replace(Replace(s, ParamAt), EmbedCloseAt)
  }

  /** Length of the run of `\n` starting at `i`. */
  function NewlineRun(s: string, i: nat): (n: nat)
    requires i <= |s|
    ensures i + n <= |s|
    ensures forall k :: i <= k < i + n ==> s[k] == '\n'
    ensures i + n == |s| || s[i + n] != '\n'
    decreases |s| - i
  {
    if i < |s| && s[i] == '\n' then 1 + NewlineRun(s, i + 1) else 0
  }

  /** `\n\n+` becomes exactly two newlines. */
  function NewlinesAt(s: string, i: nat): Option<Hit> {
    if i <= |s| && NewlineRun(s, i) >= 2 then Some(Hit(NewlineRun(s, i), "\n\n")) else None
  }

  function CollapseNewlines(s: string): string {
    Replace(s, NewlinesAt)
  }

  /** spaceOutBlocks for a given block list. */
  function SpaceOutBlocks(s: string, names: Names): string {
    var a := Replace(s, BrPairAt);
    var b := AddBreaksAroundTags(a, names);
    var c := NormalizeNewlines(b);
    var d := if Contains(c, "<object") then CleanUpObjectTag(c) else c;
    CollapseNewlines(d)
  }

  // ---- paragraph splitting ------------------------------------------------

  /** `\n\s*\n` at `i`: the greedy `\s*` gives back down to the last newline of the white-space run. */
  function BlankLineEnd(s: string, i: nat): (r: Option<nat>)
    ensures r.Some? ==> i + 2 <= r.value <= |s| && s[i] == '\n' && s[r.value - 1] == '\n'
    ensures r.Some? ==> forall k :: i <= k < r.value ==> IsSpace(s[k])
  {
    if i < |s| && s[i] == '\n' then
      var e := i + 1 + SpaceRun(s, i + 1);
      match LastNewline(s, i + 1, e)
      case Some(k) => Some(k + 1)
      case None => None
    else None
  }

  /**
   * `preg_split('/\n\s*\n/', $s, -1, PREG_SPLIT_NO_EMPTY)` from `i` on, the
   * current piece having started at `start`.
   */
  function SplitFrom(s: string, start: nat, i: nat): (r: seq<string>)
    requires start <= i <= |s|
    ensures forall k :: 0 <= k < |r| ==> r[k] != []
    decreases |s| - i
  {
    if i == |s| then
      if start < i then [s[start..]] else []
    else
      match BlankLineEnd(s, i)
      case Some(e) =>
        (if start < i then [s[start..i]] else []) + SplitFrom(s, e, e)
      case None => SplitFrom(s, start, i + 1)
  }

  function SplitParagraphs(s: string): (r: seq<string>)
    ensures forall k :: 0 <= k < |r| ==> r[k] != []
  {
    SplitFrom(s, 0, 0)
  }

  predicate IsNewline(c: char) {
    c == '\n'
  }

  /** One paragraph as the wrapping loop emits it. */
  function Paragraph(piece: string): string {
    "<p>" + Trim(piece, IsNewline) + "</p>\n"
  }

  /** What the wrapping loop has built from the first `n` pieces. */
  function Paragraphs(pieces: seq<string>): string {
    if pieces == [] then [] else Paragraphs(pieces[..|pieces| - 1]) + Paragraph(pieces[|pieces| - 1])
  }

  // ---- fix-ups after wrapping -----------------------------------------------

  /** `<p>\s*</p>` disappears. */
  function EmptyParagraphAt(s: string, i: nat): Option<Hit> {
    if StartsAt(s, i, "<p>") then
      var k := i + 3 + SpaceRun(s, i + 3);
      if StartsAt(s, k, "</p>") then Some(Hit(k + 4 - i, "")) else None
    else None
  }

  /** `<p>\s*(</?(?:names)[^>]*>)\s*</p>` keeps only the block tag. */
  function WrappedBlockAt(names: Names, s: string, i: nat): Option<Hit> {
    if StartsAt(s, i, "<p>") then
      var k := i + 3 + SpaceRun(s, i + 3);
      match BlockTagEnd(s, k, names)
      case Some(e) =>
        var e2 := e + SpaceRun(s, e);
        if StartsAt(s, e2, "</p>") then Some(Hit(e2 + 4 - i, s[k..e])) else None
      case None => None
    else None
  }

  /** `<p>(<li.+?)</p>`: the shortest stretch without a newline, at least one byte after `<li`. */
  function ListItemInParagraphAt(s: string, i: nat): Option<Hit> {
    if StartsAt(s, i, "<p><li") && i + 7 <= |s| then
      match FindFrom(s, "</p>", i + 7)
      case Some(j) =>
        if forall k :: i + 6 <= k < j ==> s[k] != '\n' then Some(Hit(j + 4 - i, s[i + 3..j])) else None
      case None => None
    else None
  }

  /** `<p><blockquote([^>]*)>`, any letter case, becomes `<blockquote$1><p>`. */
  function BlockquoteInParagraphAt(s: string, i: nat): Option<Hit> {
    if StartsAtCaseless(s, i, "<p><blockquote") then
      match FindChar(s, i + 14, '>')
      case Some(f) => Some(Hit(f + 1 - i, "<blockquote" + s[i + 14..f] + "><p>"))
      case None => None
    else None
  }

  /** The closing tags the `</(div|address|form)>` group accepts, in the group's order. */
  function CloserAt(s: string, f: nat): Option<string> {
    if StartsAt(s, f, "</div>") then Some("div")
    else if StartsAt(s, f, "</address>") then Some("address")
    else if StartsAt(s, f, "</form>") then Some("form")
    else None
  }

  /** `<p>([^<]+)</(div|address|form)>` gets its missing `</p>`. */
  function UnclosedParagraphAt(s: string, i: nat): Option<Hit> {
    if StartsAt(s, i, "<p>") then
      match FindChar(s, i + 3, '<')
      case Some(f) =>
        if f > i + 3 then
          match CloserAt(s, f)
          case Some(n) => Some(Hit(f + |n| + 3 - i, "<p>" + s[i + 3..f] + "</p></" + n + ">"))
          case None => None
        else None
      case None => None
    else None
  }

  function UnwrapListItems(s: string): string {
    Replace(s, ListItemInParagraphAt)
  }

  function MoveBlockquotes(s: string): string {
    ReplaceAll(Replace(s, BlockquoteInParagraphAt), "</blockquote></p>", "</p></blockquote>")
  }

  /**
   * Moving a closing `</blockquote>` out of its paragraph is one pass: after
   * `</blockquote></p></p>` the second `</p>` now follows the blockquote.
   */
  lemma MoveBlockquotesSinglePass(s: string)
    requires s == "</blockquote></p></p>"
    ensures MoveBlockquotes(s) == "</p></blockquote></p>"
    ensures StartsAt(MoveBlockquotes(s), 4, "</blockquote></p>")
  {
    var r := "</p></blockquote></p>";
    MoveBlockquotesExample(s, r);
    PairAtFour(r);
  }

  lemma PairAtFour(r: string)
    requires r == "</p></blockquote></p>"
    ensures StartsAt(r, 4, "</blockquote></p>")
  {
    assert r[4..21] == "</blockquote></p>";
  }

  /** The two passes of MoveBlockquotes on `</blockquote></p></p>`. */
  lemma MoveBlockquotesExample(s: string, r: string)
    requires s == "</blockquote></p></p>" && r == "</p></blockquote></p>"
    ensures MoveBlockquotes(s) == r
  {
    forall j: nat | j + 1 < |s| && s[j] == '<' ensures s[j + 1] == '/' {
    }
    OnlyClosersNoBlockquote(s);
    var from, to := "</blockquote></p>", "</p></blockquote>";
    ReplaceAllHit(s, from, to);
    assert s[|from|..] == "</p>";
  }

  /** A text whose every `<` starts a closing tag has no `<p><blockquote` to rewrite. */
  lemma OnlyClosersNoBlockquote(s: string)
    requires forall j: nat | j + 1 < |s| && s[j] == '<' :: s[j + 1] == '/'
    ensures Replace(s, BlockquoteInParagraphAt) == s
  {
    forall j: nat | j < |s| ensures !HitAt(s, BlockquoteInParagraphAt, j) {
      if j + 14 <= |s| {
        var p := "<p><blockquote";
        if s[j] == '<' {
          assert Lower(s[j + 1]) != p[1];
        } else {
          assert Lower(s[j]) != p[0];
        }
      }
    }
    ReplaceFromNoHit(s, BlockquoteInParagraphAt, 0);
  }

  function CloseParagraphs(s: string): string {
    Replace(s, UnclosedParagraphAt)
  }

  /** fixTagsWrappedInP: list items, then block quotes, then the missing `</p>`. */
  function FixTagsWrappedInP(s: string): string {
    CloseParagraphs(MoveBlockquotes(UnwrapListItems(s)))
  }

  /** `<p>\s*(</?(?:names)[^>]*>)` loses the opening `<p>`. */
  function ParagraphBeforeBlockAt(names: Names, s: string, i: nat): Option<Hit> {
    if StartsAt(s, i, "<p>") then
      var k := i + 3 + SpaceRun(s, i + 3);
      match BlockTagEnd(s, k, names)
      case Some(e) => Some(Hit(e - i, s[k..e]))
      case None => None
    else None
  }

  /** `(</?(?:names)[^>]*>)\s*</p>` loses the closing `</p>`. */
  function BlockBeforeCloseAt(names: Names, s: string, i: nat): Option<Hit> {
    match BlockTagEnd(s, i, names)
    case Some(e) =>
      var e2 := e + SpaceRun(s, e);
      if StartsAt(s, e2, "</p>") then Some(Hit(e2 + 4 - i, s[i..e])) else None
    case None => None
  }

  // ---- line breaks ------------------------------------------------------------

  const Shield: string := "<WPPreserveNewline />"

  /**
   * `<(script|style).*?<\/\1>` (dot matching newlines): the shortest
   * script or style element; its newlines are replaced by the shield marker.
   */
  function ScriptOrStyleAt(s: string, i: nat): Option<Hit> {
    var n := if StartsAt(s, i, "<script") then "script" else if StartsAt(s, i, "<style") then "style" else "";
    if n != "" then
      match FindFrom(s, "</" + n + ">", i + 1 + |n|)
      case Some(j) =>
        var e := j + |n| + 3;
        Some(Hit(e - i, ReplaceAll(s[i..e], "\n", Shield)))
      case None => None
    else None
  }

  /** `(?<!<br />)\s*\n`: not right after `<br />`, white space up to its last newline. */
  function LineBreakAt(s: string, i: nat): Option<Hit> {
    if i <= |s| && !(i >= 6 && s[i - 6..i] == "<br />") then
      match LastNewline(s, i, i + SpaceRun(s, i))
      case Some(k) => Some(Hit(k + 1 - i, "<br />\n"))
      case None => None
    else None
  }

  function ShieldScripts(s: string): string {
    Replace(s, ScriptOrStyleAt)
  }

  function AddLineBreaks(s: string): string {
    Replace(s, LineBreakAt)
  }

  function Unshield(s: string): string {
    ReplaceAll(s, Shield, "\n")
  }

  /** insertLineBreaks: shield, break, unshield. */
  function InsertLineBreaks(s: string): string {
    Unshield(AddLineBreaks(ShieldScripts(s)))
  }

  /** `(</?(?:names)[^>]*>)\s*<br />` loses the `<br />`. */
  function BlockThenBreakAt(names: Names, s: string, i: nat): Option<Hit> {
    match BlockTagEnd(s, i, names)
    case Some(e) =>
      var e2 := e + SpaceRun(s, e);
      if StartsAt(s, e2, "<br />") then Some(Hit(e2 + 6 - i, s[i..e])) else None
    case None => None
  }

  /** `<br />(\s*</?(?:p|li|div|dl|dd|dt|th|pre|td|ul|ol)[^>]*>)` loses the `<br />`. */
  function BreakBeforeBlockAt(s: string, i: nat): Option<Hit> {
    if StartsAt(s, i, "<br />") then
      var k := i + 6 + SpaceRun(s, i + 6);
      match BlockTagEnd(s, k, IsBrDroppingName)
      case Some(e) => Some(Hit(e - i, s[i + 6..e]))
      case None => None
    else None
  }

  /** `\n</p>$`: at the very end, or just before a final newline. */
  function FinalParagraphAt(s: string, i: nat): Option<Hit> {
    if StartsAt(s, i, "\n</p>") && (i + 5 == |s| || (i + 6 == |s| && s[i + 5] == '\n')) then
      Some(Hit(5, "</p>"))
    else None
  }

  // ---- properties -------------------------------------------------------------

  /** No three newlines in a row. */
  predicate NoTripleNewline(r: string) {
    forall k :: 0 <= k && k + 2 < |r| ==> !(r[k] == '\n' && r[k + 1] == '\n' && r[k + 2] == '\n')
  }

  /** After the newline standardisation no carriage return is left. */
  lemma NormalizeNewlinesNoCR(s: string)
    ensures '\r' !in NormalizeNewlines(s)
  {
    ReplaceAllCharLength(ReplaceAll(s, "\r\n", "\n"), '\r', '\n');
  }

  /** The object clean-up only copies bytes of its subject, so it brings no carriage return back. */
  lemma CleanUpObjectTagNoCR(s: string)
    requires '\r' !in s
    ensures '\r' !in CleanUpObjectTag(s)
  {
    forall j: nat | j < |s| && HitAt(s, ParamAt, j) ensures '\r' !in ParamAt(s, j).value.rep {
      var k := j + SpaceRun(s, j);
      var f := FindChar(s, k + 6, '>').value;
      assert ParamAt(s, j).value.rep == "<param" + s[k + 6..f] + ">";
      assert forall c :: c in s[k + 6..f] ==> c in s;
    }
    ReplaceFromKeepsOut(s, ParamAt, 0, '\r');
    var t := Replace(s, ParamAt);
    ReplaceFromKeepsOut(t, EmbedCloseAt, 0, '\r');
  }

  /**
   * Collapsing runs of newlines from `i` on: no triple newline, and the first
   * output bytes follow the first subject bytes (a lone newline stays lone).
   */
  lemma {:induction false} CollapseFromShape(s: string, i: nat)
    requires i <= |s|
    ensures NoTripleNewline(ReplaceFrom(s, NewlinesAt, i))
    ensures i == |s| ==> ReplaceFrom(s, NewlinesAt, i) == []
    ensures i < |s| && s[i] != '\n' ==> ReplaceFrom(s, NewlinesAt, i)[0] == s[i]
    ensures i < |s| && s[i] == '\n' ==>
      var r := ReplaceFrom(s, NewlinesAt, i);
      |r| > 0 && r[0] == '\n' && (|r| > 2 && r[1] == '\n' ==> r[2] != '\n')
    decreases |s| - i
  {
    if i < |s| {
      var r := ReplaceFrom(s, NewlinesAt, i);
      if HitAt(s, NewlinesAt, i) {
        var n := NewlineRun(s, i);
        CollapseFromShape(s, i + n);
        var rest := ReplaceFrom(s, NewlinesAt, i + n);
        assert r == "\n\n" + rest;
        assert rest == [] || rest[0] != '\n';
      } else {
        CollapseFromShape(s, i + 1);
        var rest := ReplaceFrom(s, NewlinesAt, i + 1);
        assert r == [s[i]] + rest;
        if s[i] == '\n' {
          assert NewlineRun(s, i) == 1 + NewlineRun(s, i + 1);
          assert rest == [] || rest[0] != '\n';
        }
      }
    }
  }

  /** The carriage-return and blank-line guarantees of spaceOutBlocks. */
  lemma SpaceOutBlocksNormalForm(s: string, names: Names)
    ensures '\r' !in SpaceOutBlocks(s, names)
    ensures NoTripleNewline(SpaceOutBlocks(s, names))
  {
    var a := Replace(s, BrPairAt);
    var b := AddBreaksAroundTags(a, names);
    var c := NormalizeNewlines(b);
    NormalizeNewlinesNoCR(b);
    var d := if Contains(c, "<object") then CleanUpObjectTag(c) else c;
    if Contains(c, "<object") {
      CleanUpObjectTagNoCR(c);
    }
    ReplaceFromKeepsOut(d, NewlinesAt, 0, '\r');
    CollapseFromShape(d, 0);
  }

  /** `<param …>` opens a block: the opening tag need only begin with `p`. */
  lemma ParamOpensBlock()
    ensures OpenBlockAt(IsBlockName, "<param>", 0) == Some(Hit(7, "\n<param>"))
  {
    assert "<param>"[1..2] == "p" && IsBlockName("p");
    assert NamePrefixAt("<param>", 1, IsBlockName);
    assert FindChar("<param>", 1, '>') == Some(6);
    assert "<param>"[0..7] == "<param>";
    assert "\n" + "<param>"[0..7] == "\n<param>";
  }

  /** `</param>` does not close a block: the closing tag must be a listed name exactly. */
  lemma ParamDoesNotCloseBlock()
    ensures CloseBlockAt(IsBlockName, "</param>", 0).None?
  {
    assert FindChar("</param>", 2, '>') == Some(7);
    assert "</param>"[2..7] == "param";
  }

  /** `</p>` closes a block and is followed by a blank line. */
  lemma ParagraphClosesBlock()
    ensures CloseBlockAt(IsBlockName, "</p>", 0) == Some(Hit(4, "</p>\n\n"))
  {
    assert FindChar("</p>", 2, '>') == Some(3);
    assert "</p>"[2..3] == "p" && IsBlockName("p");
    assert "</p>"[0..4] == "</p>";
    assert StartsAt("</p>", 0, "</");
    assert "</p>"[0..4] + "\n\n" == "</p>\n\n";
  }

  /** The older list is the current one plus select, option and noscript. */
  lemma LegacyBlockNames(n: string)
    ensures IsLegacyBlockName(n) <==> IsBlockName(n) || n == "select" || n == "option" || n == "noscript"
  {
  }

  /** So `</select>` closes a block for the older copy ... */
  lemma LegacyClosesSelect()
    ensures CloseBlockAt(IsLegacyBlockName, "</select>", 0).Some?
  {
    assert FindChar("</select>", 2, '>') == Some(8);
    assert "</select>"[2..8] == "select";
  }

  /** ... and not for the current one. */
  lemma CurrentKeepsSelectOpen()
    ensures CloseBlockAt(IsBlockName, "</select>", 0).None?
  {
    assert FindChar("</select>", 2, '>') == Some(8);
    assert "</select>"[2..8] == "select";
  }

  /** A blank line starts at `i` exactly when a newline is followed by white space holding another newline. */
  lemma BlankLineEndExact(s: string, i: nat, m: nat)
    requires i < m < |s| && s[i] == '\n' && s[m] == '\n'
    requires forall k :: i < k < m ==> IsSpace(s[k])
    ensures BlankLineEnd(s, i).Some?
  {
    var e := i + 1 + SpaceRun(s, i + 1);
    if e <= m {
      assert false;
    }
  }

  /** A blank line inside a slice is a blank line of the whole subject. */
  lemma BlankLineInSlice(s: string, a: nat, b: nat, j: nat)
    requires a <= b <= |s| && j < b - a
    requires BlankLineEnd(s[a..b], j).Some?
    ensures BlankLineEnd(s, a + j).Some?
  {
    var t := s[a..b];
    var e := BlankLineEnd(t, j).value;
    assert forall k :: j <= k < e ==> t[k] == s[a + k];
    BlankLineEndExact(s, a + j, a + e - 1);
  }

  /** The pieces from `start` on hold no blank line, given that none starts in `s[start..i]`. */
  lemma {:induction false} SplitFromNoBlankLine(s: string, start: nat, i: nat)
    requires start <= i <= |s|
    requires forall j :: start <= j < i ==> BlankLineEnd(s, j).None?
    ensures forall p :: p in SplitFrom(s, start, i) ==> forall j :: 0 <= j < |p| ==> BlankLineEnd(p, j).None?
    decreases |s| - i
  {
    if i == |s| {
      if start < i {
        assert s[start..] == s[start..|s|];
        forall j | 0 <= j < |s| - start ensures BlankLineEnd(s[start..|s|], j).None? {
          if BlankLineEnd(s[start..|s|], j).Some? {
            BlankLineInSlice(s, start, |s|, j);
          }
        }
      }
    } else {
      match BlankLineEnd(s, i)
      case Some(e) =>
        SplitFromNoBlankLine(s, e, e);
        forall j | 0 <= j < i - start ensures BlankLineEnd(s[start..i], j).None? {
          if BlankLineEnd(s[start..i], j).Some? {
            BlankLineInSlice(s, start, i, j);
          }
        }
      case None =>
        SplitFromNoBlankLine(s, start, i + 1);
    }
  }

  /** Every paragraph piece is non-empty and holds no blank line (`\n\s*\n`). */
  lemma SplitParagraphsPieces(s: string)
    ensures forall p :: p in SplitParagraphs(s) ==> p != [] && forall j :: 0 <= j < |p| ==> BlankLineEnd(p, j).None?
  {
    SplitFromNoBlankLine(s, 0, 0);
  }

  /**
   * The line-break pattern finds nothing when every newline already follows
   * `<br />`: the look-behind rejects the newline itself, and the white-space
   * run cannot reach back over the `>`.
   */
  lemma AddLineBreaksAfterBreaks(s: string)
    requires BreakBeforeEachNewline(s, 0)
    ensures AddLineBreaks(s) == s
  {
    forall i: nat | i < |s| ensures !HitAt(s, LineBreakAt, i) {
      match LastNewline(s, i, i + SpaceRun(s, i))
      case Some(k) =>
        if k > i {
          BreakEndsWithGt(s, k);
          assert false;
        }
      case None =>
    }
    ReplaceFromNoHit(s, LineBreakAt, 0);
  }

  lemma BreakEndsWithGt(s: string, k: nat)
    ensures 6 <= k <= |s| && s[k - 6..k] == "<br />" ==> s[k - 1] == '>' && !IsSpace(s[k - 1])
  {
    if 6 <= k <= |s| && s[k - 6..k] == "<br />" {
      assert s[k - 6..k][5] == s[k - 1];
    }
  }

  /** Without a newline the line-break pattern has nothing to do. */
  lemma AddLineBreaksNoNewline(s: string)
    requires '\n' !in s
    ensures AddLineBreaks(s) == s
  {
    forall i: nat | i < |s| ensures !HitAt(s, LineBreakAt, i) {
    }
    ReplaceFromNoHit(s, LineBreakAt, 0);
  }

  /** Every newline of `x` from index `from` on directly follows `<br />`. */
  predicate BreakBeforeEachNewline(x: string, from: nat) {
    forall k :: from <= k < |x| && x[k] == '\n' ==> k >= 6 && x[k - 6..k] == "<br />"
  }

  /**
   * The scan of the line-break pattern from `i` on, behind the first `i`
   * subject bytes: every newline it yields follows `<br />`. A newline it
   * copies was refused by the look-behind, so it already followed `<br />`;
   * a match ends in `<br />\n`, and what follows a match cannot reach back
   * over the matched newline.
   */
  lemma {:induction false} AddLineBreaksFrom(s: string, i: nat)
    requires i <= |s|
    ensures BreakBeforeEachNewline(s[..i] + ReplaceFrom(s, LineBreakAt, i), i)
    decreases |s| - i
  {
    if i == |s| {
    } else if HitAt(s, LineBreakAt, i) {
      AddLineBreaksFrom(s, i + LineBreakAt(s, i).value.len);
      LineBreakMatchStep(s, i);
    } else {
      AddLineBreaksFrom(s, i + 1);
      LineBreakCopyStep(s, i);
    }
  }

  lemma LineBreakMatchStep(s: string, i: nat)
    requires HitAt(s, LineBreakAt, i)
    requires var j := i + LineBreakAt(s, i).value.len;
      BreakBeforeEachNewline(s[..j] + ReplaceFrom(s, LineBreakAt, j), j)
    ensures BreakBeforeEachNewline(s[..i] + ReplaceFrom(s, LineBreakAt, i), i)
  {
    var j := i + LineBreakAt(s, i).value.len;
    LineBreakHit(s, i);
    var rest := ReplaceFrom(s, LineBreakAt, j);
    var x := s[..i] + ReplaceFrom(s, LineBreakAt, i);
    ReplaceFromHit(s, LineBreakAt, i);
    assert x == s[..i] + "<br />\n" + rest;
    assert |s[..j]| == j && s[..j][j - 1] == s[j - 1];
    BreakThenRest(s[..i], s[..j], rest);
  }

  lemma LineBreakCopyStep(s: string, i: nat)
    requires i < |s| && !HitAt(s, LineBreakAt, i)
    requires BreakBeforeEachNewline(s[..i + 1] + ReplaceFrom(s, LineBreakAt, i + 1), i + 1)
    ensures BreakBeforeEachNewline(s[..i] + ReplaceFrom(s, LineBreakAt, i), i)
  {
    var x := s[..i] + ReplaceFrom(s, LineBreakAt, i);
    ReplaceFromCopy(s, LineBreakAt, i);
    CopiedByte(s, i, ReplaceFrom(s, LineBreakAt, i + 1));
    if s[i] == '\n' {
      LineBreakRefused(s, i);
    }
    BreakBeforeExtend(x, i);
  }

  /** Copying byte `i` keeps the text up to it as it was. */
  lemma CopiedByte(s: string, i: nat, rest: string)
    requires i < |s|
    ensures var x := s[..i] + ([s[i]] + rest);
      x == s[..i + 1] + rest && x[i] == s[i] && (i >= 6 ==> x[i - 6..i] == s[i - 6..i])
  {
    assert s[..i + 1] == s[..i] + [s[i]];
  }

  /** A newline at `from` that follows `<br />` extends the property one byte back. */
  lemma BreakBeforeExtend(x: string, from: nat)
    requires from < |x| && BreakBeforeEachNewline(x, from + 1)
    requires x[from] == '\n' ==> from >= 6 && x[from - 6..from] == "<br />"
    ensures BreakBeforeEachNewline(x, from)
  {
  }

  /** A match of the line-break pattern is replaced by `<br />\n` and ends with a newline. */
  lemma LineBreakHit(s: string, i: nat)
    requires HitAt(s, LineBreakAt, i)
    ensures LineBreakAt(s, i).value.rep == "<br />\n"
    ensures s[i + LineBreakAt(s, i).value.len - 1] == '\n'
  {
  }

  /** A newline where the pattern does not match follows `<br />`. */
  lemma LineBreakRefused(s: string, i: nat)
    requires i < |s| && s[i] == '\n' && !HitAt(s, LineBreakAt, i)
    ensures i >= 6 && s[i - 6..i] == "<br />"
  {
    assert LastNewline(s, i, i + SpaceRun(s, i)).Some?;
  }

  /**
   * A match replaced by `<br />\n`: the rest, which followed a newline in
   * the subject, starts with no newline that could look back into the match.
   */
  lemma BreakThenRest(a: string, b: string, rest: string)
    requires |b| >= 1 && b[|b| - 1] == '\n'
    requires BreakBeforeEachNewline(b + rest, |b|)
    ensures BreakBeforeEachNewline(a + "<br />\n" + rest, |a|)
  {
    var x := a + "<br />\n" + rest;
    var y := b + rest;
    var i := |a|;
    var j := |b|;
    assert '\n' !in "<br />";
    forall p | i <= p < |x| && x[p] == '\n' ensures p >= 6 && x[p - 6..p] == "<br />" {
      if p < i + 6 {
        assert false;
      } else if p == i + 6 {
        assert x[i..i + 6] == "<br />";
      } else {
        var q := p - (i + 7) + j;
        assert x[p] == y[q];
        if p < i + 13 {
          SliceAt(y, q - 6, q, j - 1);
          assert false;
        } else {
          assert x[p - 6..p] == y[q - 6..q];
        }
      }
    }
  }

  /** After the line-break pattern every newline follows `<br />`. */
  lemma AddLineBreaksBreaksEveryNewline(s: string)
    ensures BreakBeforeEachNewline(AddLineBreaks(s), 0)
  {
    AddLineBreaksFrom(s, 0);
    assert s[..0] + Replace(s, LineBreakAt) == AddLineBreaks(s);
  }

  /** So a second pass of the line-break pattern changes nothing. */
  lemma AddLineBreaksIdempotent(s: string)
    ensures AddLineBreaks(AddLineBreaks(s)) == AddLineBreaks(s)
  {
    AddLineBreaksBreaksEveryNewline(s);
    AddLineBreaksAfterBreaks(AddLineBreaks(s));
  }

  /** Replacing every newline by the shield marker leaves no newline. */
  lemma {:induction false} ShieldRemovesNewlines(s: string)
    ensures '\n' !in ReplaceAll(s, "\n", Shield)
    decreases |s|
  {
    if s != [] {
      ShieldRemovesNewlines(s[1..]);
    }
  }

  /**
   * The shielded text begins with `u` (which holds no `<`) only when the
   * text itself does: each shield marker starts with `<`.
   */
  lemma {:induction false} ShieldedPrefix(t: string, u: string)
    requires '<' !in u
    requires |ReplaceAll(t, "\n", Shield)| >= |u| && ReplaceAll(t, "\n", Shield)[..|u|] == u
    ensures |t| >= |u| && t[..|u|] == u
    decreases |u|
  {
    if u != [] {
      var r := ReplaceAll(t, "\n", Shield);
      assert r[0] == u[0] && u[0] != '<';
      assert t[..1] != "\n";
      {
        assert r == [t[0]] + ReplaceAll(t[1..], "\n", Shield);
        assert r[1..][..|u| - 1] == u[1..];
        ShieldedPrefix(t[1..], u[1..]);
        assert t[..|u|] == [t[0]] + t[1..][..|u| - 1];
      }
    }
  }

  /** Putting newlines back for the shield markers undoes the shielding of a text without a marker. */
  lemma {:induction false} UnshieldShielded(s: string)
    requires !Contains(s, Shield)
    ensures Unshield(ReplaceAll(s, "\n", Shield)) == s
    decreases |s|
  {
    if s != [] {
      ContainsTail(s, Shield);
      UnshieldShielded(s[1..]);
      var y := ReplaceAll(s[1..], "\n", Shield);
      if s[0] == '\n' {
        ReplaceAllHit(s, "\n", Shield);
        ReplaceAllHit(Shield + y, Shield, "\n");
        assert (Shield + y)[|Shield|..] == y;
        assert s == "\n" + s[1..];
      } else {
        ReplaceAllCopy(s, "\n", Shield);
        var r := [s[0]] + y;
        NoShieldAtFront(s);
        ReplaceAllCopy(r, Shield, "\n");
        assert r[1..] == y;
      }
    }
  }

  /** Shielding a text that holds no marker and does not start with a newline makes none at the front. */
  lemma NoShieldAtFront(s: string)
    requires s != [] && s[0] != '\n' && !Contains(s, Shield)
    ensures !StartsAt([s[0]] + ReplaceAll(s[1..], "\n", Shield), 0, Shield)
  {
    var y := ReplaceAll(s[1..], "\n", Shield);
    var r := [s[0]] + y;
    if StartsAt(r, 0, Shield) {
      assert y[..|Shield| - 1] == Shield[1..];
      assert '<' !in Shield[1..];
      ShieldedPrefix(s[1..], Shield[1..]);
      assert s[..|Shield|] == [s[0]] + s[1..][..|Shield| - 1];
      StartsAtContains(s, 0, Shield);
      assert false;
    }
  }

  /**
   * The intended behaviour of the line-break step: a text that is exactly one
   * script or style element (and holds no shield marker) keeps its newlines
   * as they are.
   */
  lemma ScriptElementKept(s: string)
    requires ScriptOrStyleAt(s, 0).Some? && ScriptOrStyleAt(s, 0).value.len == |s|
    requires !Contains(s, Shield)
    ensures InsertLineBreaks(s) == s
  {
    var shielded := ReplaceAll(s, "\n", Shield);
    assert s[0..|s|] == s;
    assert ScriptOrStyleAt(s, 0).value.rep == shielded;
    assert HitAt(s, ScriptOrStyleAt, 0);
    ReplaceFromHit(s, ScriptOrStyleAt, 0);
    assert ShieldScripts(s) == shielded;
    ShieldRemovesNewlines(s);
    AddLineBreaksNoNewline(shielded);
    UnshieldShielded(s);
  }

  /**
   * Outside script and style elements the shield has nothing to do: a text
   * with no such element (and no `W`, so no shield marker) gets the plain
   * break step, and then every newline follows `<br />`.
   */
  lemma InsertLineBreaksOutsideScripts(s: string)
    requires forall i: nat | i < |s| :: ScriptOrStyleAt(s, i).None?
    requires 'W' !in s
    ensures InsertLineBreaks(s) == AddLineBreaks(s)
    ensures BreakBeforeEachNewline(InsertLineBreaks(s), 0)
  {
    NothingToShield(s);
    BreaksNeedNoUnshield(s);
    AddLineBreaksBreaksEveryNewline(s);
  }

  lemma NothingToShield(s: string)
    requires forall i: nat | i < |s| :: ScriptOrStyleAt(s, i).None?
    ensures ShieldScripts(s) == s
  {
    ReplaceFromNoHit(s, ScriptOrStyleAt, 0);
  }

  /** The break step brings no `W`, so no shield marker, into a text without one. */
  lemma BreaksNeedNoUnshield(s: string)
    requires 'W' !in s
    ensures Unshield(AddLineBreaks(s)) == AddLineBreaks(s)
  {
    var t := AddLineBreaks(s);
    assert 'W' !in "<br />\n";
    ReplaceFromKeepsOut(s, LineBreakAt, 0, 'W');
    ContainsChar(t, Shield, 1);
    ReplaceAllAbsent(t, Shield, "\n");
  }
}