/**
 * How the CleanHTML class strings the rewrite rules together
 * (src/CleanHTML/CleanHTML.php) and how its legacy twin does
 * (src/CleanHTML/cleanhtml.php). The HTML parser, the serialiser and the
 * sanitizer are foreign code: they enter as the functions of an `Env`.
 */
module Pipeline {
  import opened Strings
  import opened Dom
  import opened DomEdit
  import opened DomUnwrap
  import opened DomReplace
  import opened Methods
  import opened Options

  /**
   * The foreign code the pipeline calls: the regular-expression pre-clean
   * of the input, `DOMDocument::loadHTML` (the top-level nodes it builds and
   * the identity its next created node would get), `exportHTML` (the
   * serialisation of the body's elements and its clean-up), the HTML
   * sanitizer configured with an allow-list, and `str_word_count`.
   */
  datatype Env = Env(
    preClean: string -> string,
    parse: string -> (seq<Node>, nat),
    exportHtml: seq<Node> -> string,
    purify: (string, string) -> string,
    wordCount: string -> nat)

  /** A parsed document gives every node its own identity, below the next one. */
  ghost predicate ParsesWell(env: Env) {
    forall s :: Unique(env.parse(s).0) && Below(env.parse(s).0, env.parse(s).1)
  }

  /** The document head prepended before parsing, so that the parser reads UTF-8. */
  const BlankHtml: string :=
    "<!DOCTYPE html><meta charset=\"utf-8\"><meta http-equiv=\"Content-Type\" content=\"text/html; charset=utf-8\">"

  /** The document `loadHTML` builds from `content`. */
  method Load(env: Env, content: string) returns (doc: Document)
    requires ParsesWell(env)
    ensures fresh(doc) && doc.Valid()
    ensures doc.nodes == env.parse(content).0 && doc.next == env.parse(content).1
  {
    var parsed := env.parse(content);
    doc := new Document(parsed.0, parsed.1);
  }

  /**
   * `obscureClean`: the five rules in their fixed order, `first` passed to
   * the last one only, then the export. The ghost results are the trees
   * between the rules. Each heading rule replaces only the elements it
   * targets and leaves none of them in place; no rule changes the text, no
   * `h1` survives the first rule and none comes back, and an absent `script`
   * stays absent.
   */
  method ObscureClean(doc: Document, first: bool, env: Env)
    returns (output: string, ghost stages: seq<seq<Node>>, ghost h1: map<nat, nat>, ghost shortBold: map<nat, nat>,
             ghost boldH2: map<nat, nat>)
    requires doc.Valid()
    modifies doc
    ensures doc.Valid()
    ensures |stages| == 6 && stages[0] == old(doc.nodes) && stages[5] == doc.nodes
    ensures stages[1] == ReplaceTop(stages[0], h1) && ElementsNamed(stages[1], "h1") == []
    ensures forall z :: z in h1 ==> z in ElementsNamed(stages[0], "h1")
    ensures stages[2] == ReplaceTop(stages[1], shortBold)
    ensures forall z :: z in shortBold ==> z in BoldTargets(stages[1], "p", true, env.wordCount)
    ensures forall z :: z in BoldTargets(stages[1], "p", true, env.wordCount) ==> FindNode(stages[2], z).None?
    ensures stages[3] == ReplaceTop(stages[2], boldH2)
    ensures forall z :: z in boldH2 ==> z in BoldTargets(stages[2], "h2", false, AnyCount)
    ensures forall z :: z in BoldTargets(stages[2], "h2", false, AnyCount) ==> FindNode(stages[3], z).None?
    ensures stages[4] == UnwrapSet(stages[3], Members(Seconds(ParentChildPairs(stages[3], "p", "span"))))
    ensures stages[5] == UnwrapPaths(stages[4], PathsToClean(first))
    ensures output == env.exportHtml(doc.nodes)
    ensures TextOf(doc.nodes) == TextOf(old(doc.nodes))
    ensures ElementsNamed(doc.nodes, "h1") == []
    ensures ElementsNamed(old(doc.nodes), "script") == [] ==> ElementsNamed(doc.nodes, "script") == []
  {
    var s0 := doc.nodes;
    h1 := RenameH1TagsToH2(doc);
    var s1 := doc.nodes;
    shortBold := ChangeShortBoldToH2(doc, env.wordCount);
    var s2 := doc.nodes;
    boldH2 := RemoveBoldH2Tags(doc);
    var s3 := doc.nodes;
    RemoveObscureSpanStylings(doc);
    var s4 := doc.nodes;
    RemoveObscureParagraphsInsideLineItems(doc, first);
    stages := [s0, s1, s2, s3, s4, doc.nodes];
    RulesKeepAbsent(stages, h1, shortBold, boldH2, "h1");
    RulesKeepAbsent(stages, h1, shortBold, boldH2, "script");
    UnwrapPathsKeepsAbsent(s4, PathsToClean(first), "h1");
    if ElementsNamed(s4, "script") == [] {
      UnwrapPathsKeepsAbsent(s4, PathsToClean(first), "script");
    }
    output := env.exportHtml(doc.nodes);
  }

  /**
   * The four rules both versions share never bring back an element called
   * `name` (other than `h2`, the name of the new headings).
   */
  lemma RulesKeepAbsent(stages: seq<seq<Node>>, h1: map<nat, nat>, shortBold: map<nat, nat>, boldH2: map<nat, nat>,
                        name: string)
    requires |stages| >= 5 && name != "h2"
    requires stages[1] == ReplaceTop(stages[0], h1) && stages[2] == ReplaceTop(stages[1], shortBold)
    requires stages[3] == ReplaceTop(stages[2], boldH2)
    requires stages[4] == UnwrapSet(stages[3], Members(Seconds(ParentChildPairs(stages[3], "p", "span"))))
    ensures ElementsNamed(stages[0], name) == [] ==> ElementsNamed(stages[1], name) == []
    ensures ElementsNamed(stages[1], name) == [] ==> ElementsNamed(stages[4], name) == []
  {
    if ElementsNamed(stages[0], name) == [] {
      ReplaceKeepsAbsent(stages[0], h1, name);
    }
    if ElementsNamed(stages[1], name) == [] {
      ReplaceKeepsAbsent(stages[1], shortBold, name);
      ReplaceKeepsAbsent(stages[2], boldH2, name);
      UnwrapKeepsAbsent(stages[3], Members(Seconds(ParentChildPairs(stages[3], "p", "span"))), name);
    }
  }

  /**
   * `clean`: pre-clean and parse the input, remove the scripts, run the rules
   * (first run), sanitize the export with the object's allow-list, and hand
   * the result to `finalClean`. The extra results are the tree the first run
   * leaves and the one the final run leaves.
   */
  method Clean(c: CleanHTML, html: string, env: Env) returns (output: string, firstTree: seq<Node>,
                                                               finalTree: seq<Node>)
    requires c.Valid() && ParsesWell(env)
    ensures var parsed := env.parse(env.preClean(html)).0;
      TextOf(firstTree) == TextOf(RemoveSet(parsed, Members(ElementsNamed(parsed, "script"))))
    ensures ElementsNamed(firstTree, "h1") == [] && ElementsNamed(firstTree, "script") == []
    ensures TextOf(finalTree) == TextOf(env.parse(BlankHtml + env.purify(AllowedTags(c.options), env.exportHtml(firstTree))).0)
    ensures ElementsNamed(finalTree, "h1") == []
    ensures output == RemoveLastNewLine(env.exportHtml(finalTree))
  {
    var doc := Load(env, env.preClean(html));
    RemoveScriptTags(doc);
    var out1;
    ghost var stages, h1, shortBold, boldH2;
    out1, stages, h1, shortBold, boldH2 := ObscureClean(doc, true, env);
    firstTree := doc.nodes;
    var tags := c.GetAllowedTags();
    var purified := env.purify(tags, out1);
    output, finalTree := FinalClean(purified, env);
  }

  /**
   * `finalClean`: parse the sanitized text behind the blank head, rerun the
   * rules with `first` false, and drop one trailing newline of the export.
   * The extra result is the tree the rules leave.
   */
  method FinalClean(input: string, env: Env) returns (output: string, finalTree: seq<Node>)
    requires ParsesWell(env)
    ensures TextOf(finalTree) == TextOf(env.parse(BlankHtml + input).0)
    ensures ElementsNamed(finalTree, "h1") == []
    ensures output == RemoveLastNewLine(env.exportHtml(finalTree))
  {
    var doc := Load(env, BlankHtml + input);
    var exported;
    ghost var stages, h1, shortBold, boldH2;
    exported, stages, h1, shortBold, boldH2 := ObscureClean(doc, false, env);
    finalTree := doc.nodes;
    output := RemoveLastNewLine(exported);
  }

  /**
   * The legacy `obscureClean`: the same first four rules in the same order,
   * with no rule for paragraphs in list items, so `first` changes nothing;
   * then the same export.
   */
  method LegacyObscureClean(doc: Document, first: bool, env: Env)
    returns (output: string, ghost stages: seq<seq<Node>>, ghost h1: map<nat, nat>, ghost shortBold: map<nat, nat>,
             ghost boldH2: map<nat, nat>)
    requires doc.Valid()
    modifies doc
    ensures doc.Valid()
    ensures |stages| == 5 && stages[0] == old(doc.nodes) && stages[4] == doc.nodes
    ensures stages[1] == ReplaceTop(stages[0], h1) && ElementsNamed(stages[1], "h1") == []
    ensures forall z :: z in h1 ==> z in ElementsNamed(stages[0], "h1")
    ensures stages[2] == ReplaceTop(stages[1], shortBold)
    ensures forall z :: z in shortBold ==> z in BoldTargets(stages[1], "p", true, env.wordCount)
    ensures forall z :: z in BoldTargets(stages[1], "p", true, env.wordCount) ==> FindNode(stages[2], z).None?
    ensures stages[3] == ReplaceTop(stages[2], boldH2)
    ensures forall z :: z in boldH2 ==> z in BoldTargets(stages[2], "h2", false, AnyCount)
    ensures forall z :: z in BoldTargets(stages[2], "h2", false, AnyCount) ==> FindNode(stages[3], z).None?
    ensures stages[4] == UnwrapSet(stages[3], Members(Seconds(ParentChildPairs(stages[3], "p", "span"))))
    ensures output == env.exportHtml(doc.nodes)
    ensures TextOf(doc.nodes) == TextOf(old(doc.nodes))
    ensures ElementsNamed(doc.nodes, "h1") == []
    ensures ElementsNamed(old(doc.nodes), "script") == [] ==> ElementsNamed(doc.nodes, "script") == []
  {
    var s0 := doc.nodes;
    h1 := RenameH1TagsToH2(doc);
    var s1 := doc.nodes;
    shortBold := ChangeShortBoldToH2(doc, env.wordCount);
    var s2 := doc.nodes;
    boldH2 := RemoveBoldH2Tags(doc);
    var s3 := doc.nodes;
    RemoveObscureSpanStylings(doc);
    stages := [s0, s1, s2, s3, doc.nodes];
    RulesKeepAbsent(stages, h1, shortBold, boldH2, "h1");
    RulesKeepAbsent(stages, h1, shortBold, boldH2, "script");
    output := env.exportHtml(doc.nodes);
  }

  /**
   * The legacy `Clean`: the same pre-clean, script removal and first run of
   * the rules; the allow-list comes from the options passed here; the
   * sanitizer runs only when its library is present (`purifierPresent`,
   * the `file_exists` test), otherwise the export goes on as it is; then
   * the second run and the strip of one trailing newline.
   */
  method LegacyClean(html: string, options: Option<map<string, Value>>, purifierPresent: bool, env: Env)
    returns (output: string, firstTree: seq<Node>, finalTree: seq<Node>)
    requires ParsesWell(env)
    ensures var parsed := env.parse(env.preClean(html)).0;
      TextOf(firstTree) == TextOf(RemoveSet(parsed, Members(ElementsNamed(parsed, "script"))))
    ensures ElementsNamed(firstTree, "h1") == [] && ElementsNamed(firstTree, "script") == []
    ensures var sanitized := if purifierPresent then env.purify(LegacyAllowedTags(options), env.exportHtml(firstTree))
                             else env.exportHtml(firstTree);
      TextOf(finalTree) == TextOf(env.parse(BlankHtml + sanitized).0)
    ensures ElementsNamed(finalTree, "h1") == []
    ensures output == RemoveLastNewLine(env.exportHtml(finalTree))
  {
    var doc := Load(env, env.preClean(html));
    RemoveScriptTags(doc);
    var out1;
    ghost var stages, h1, shortBold, boldH2;
    out1, stages, h1, shortBold, boldH2 := LegacyObscureClean(doc, true, env);
    firstTree := doc.nodes;
    var allowedTags := LegacyAllowedTags(options);
    if purifierPresent {
      out1 := env.purify(allowedTags, out1);
    }
    var doc2 := Load(env, BlankHtml + out1);
    var exported;
    exported, stages, h1, shortBold, boldH2 := LegacyObscureClean(doc2, false, env);
    finalTree := doc2.nodes;
    output := RemoveLastNewLine(exported);
  }
}
