/**
 * The rewrite rules of the `Methods` class, each applied to a parsed
 * document in place: the document's node sequence is updated one DOM
 * operation at a time, over the node list a query returned beforehand
 * (a `DOMNodeList` from `DOMXPath::query` is a snapshot).
 */
module Methods {
  import opened Strings
  import opened Dom
  import opened DomEdit
  import opened DomUnwrap
  import opened DomReplace

  /** A `DOMDocument`: its top-level nodes and the identity the next created node gets. */
  class Document {
    var nodes: seq<Node>
    var next: nat

    ghost predicate Valid()
      reads this
    {
      Unique(nodes) && Below(nodes, next)
    }

    constructor (ns: seq<Node>, bound: nat)
      requires Unique(ns) && Below(ns, bound)
      ensures nodes == ns && next == bound && Valid()
    {
      nodes := ns;
      next := bound;
    }
  }

  function Members(xs: seq<nat>): set<nat> {
    set x | x in xs
  }

  lemma MembersStep(xs: seq<nat>, i: nat)
    requires i < |xs|
    ensures Members(xs[..i]) + {xs[i]} == Members(xs[..i + 1])
  {
    assert xs[..i + 1] == xs[..i] + [xs[i]];
  }

  lemma MembersAll(xs: seq<nat>)
    ensures Members(xs[..|xs|]) == Members(xs)
  {
    assert xs[..|xs|] == xs;
  }

  // ---- removeScriptTags --------------------------------------------------------

  /** Every `script` element is detached with everything inside it; nothing else changes. */
  method RemoveScriptTags(doc: Document)
    requires doc.Valid()
    modifies doc
    ensures doc.Valid() && doc.next == old(doc.next)
    ensures doc.nodes == RemoveSet(old(doc.nodes), Members(ElementsNamed(old(doc.nodes), "script")))
    ensures ElementsNamed(doc.nodes, "script") == []
  {
    var scripts := ElementsNamed(doc.nodes, "script");
    ghost var orig := doc.nodes;
    assert Members(scripts[..0]) == {};
    RemoveAbsent(orig, {});
    for i := 0 to |scripts|
      invariant doc.nodes == RemoveSet(orig, Members(scripts[..i]))
      invariant doc.Valid() && doc.next == old(doc.next)
    {
      RemoveCompose(orig, Members(scripts[..i]), {scripts[i]});
      MembersStep(scripts, i);
      RemoveBag(doc.nodes, {scripts[i]});
      UniqueSub(RemoveSet(doc.nodes, {scripts[i]}), doc.nodes);
      doc.nodes := RemoveSet(doc.nodes, {scripts[i]});
    }
    MembersAll(scripts);
    NoScriptLeft(orig);
  }

  /** After `removeScriptTags` no `script` element is left. */
  lemma NoScriptLeft(ns: seq<Node>)
    ensures ElementsNamed(RemoveSet(ns, Members(ElementsNamed(ns, "script"))), "script") == []
  {
    var r := RemoveSet(ns, Members(ElementsNamed(ns, "script")));
    RemoveNamed(ns, Members(ElementsNamed(ns, "script")), "script");
    EmptyWhenNoMember(ElementsNamed(r, "script"));
  }

  /** Unwrapping never brings back an element called `name`. */
  lemma UnwrapKeepsAbsent(ns: seq<Node>, S: set<nat>, name: string)
    requires ElementsNamed(ns, name) == []
    ensures ElementsNamed(UnwrapSet(ns, S), name) == []
  {
    UnwrapNamed(ns, S, name);
    EmptyWhenNoMember(ElementsNamed(UnwrapSet(ns, S), name));
  }

  /** Replacing with headings never brings back an element called `name`, unless it is `h2`. */
  lemma ReplaceKeepsAbsent(ns: seq<Node>, made: map<nat, nat>, name: string)
    requires name != "h2" && ElementsNamed(ns, name) == []
    ensures ElementsNamed(ReplaceTop(ns, made), name) == []
  {
    ReplaceNamed(ns, made, name);
    EmptyWhenNoMember(ElementsNamed(ReplaceTop(ns, made), name));
  }

  lemma EmptyWhenNoMember(xs: seq<nat>)
    ensures (forall x :: x !in xs) ==> xs == []
  {
    if xs != [] {
      assert xs[0] in xs;
    }
  }

  // ---- unwrapping (removeObscureSpanStylings, removeObscureParagraphsInsideLineItems) ----

  /**
   * One matched node: each of its children, first to last, is moved in front
   * of it (`insertBefore`), then the emptied node is detached (`removeChild`).
   */
  method UnwrapElement(doc: Document, x: nat)
    requires doc.Valid()
    modifies doc
    ensures doc.Valid() && doc.next == old(doc.next)
    ensures doc.nodes == UnwrapSet(old(doc.nodes), {x})
  {
    UnwrapKeepsValid(doc.nodes, {x}, doc.next);
    doc.nodes := UnwrapNode(doc.nodes, x);
  }

  method UnwrapNode(t0: seq<Node>, x: nat) returns (t: seq<Node>)
    requires Unique(t0)
    ensures t == UnwrapSet(t0, {x})
  {
    t := t0;
    var found := FindNode(t, x);
    if found.Some? && found.value.Element? {
      var kids := found.value.children;
      SplitZero(t0, x);
      for k := 0 to |kids|
        invariant t == SplitAt(t0, x, k)
      {
        MoveStep(t0, x, k);
        t := MoveFirstChildOut(t, x);
      }
      SplitFinish(t0, x, |kids|);
      t := RemoveSet(t, {x});
    } else if found.Some? {
      UnwrapNonElement(t0, x);
    } else {
      UnwrapAbsent(t0, {x});
    }
  }

  lemma UnwrapKeepsValid(ns: seq<Node>, S: set<nat>, bound: nat)
    requires Unique(ns) && Below(ns, bound)
    ensures Unique(UnwrapSet(ns, S)) && Below(UnwrapSet(ns, S), bound)
  {
    UnwrapBag(ns, S);
    UniqueSub(UnwrapSet(ns, S), ns);
    BelowSub(UnwrapSet(ns, S), ns, bound);
  }

  /** Each node of a query's snapshot in turn is unwrapped. */
  method UnwrapAll(doc: Document, matches: seq<nat>)
    requires doc.Valid()
    modifies doc
    ensures doc.Valid() && doc.next == old(doc.next)
    ensures doc.nodes == UnwrapSet(old(doc.nodes), Members(matches))
  {
    ghost var orig := doc.nodes;
    assert Members(matches[..0]) == {};
    UnwrapAbsent(orig, {});
    for i := 0 to |matches|
      invariant doc.nodes == UnwrapSet(orig, Members(matches[..i]))
      invariant doc.Valid() && doc.next == old(doc.next)
    {
      UnwrapCompose(orig, Members(matches[..i]), {matches[i]});
      MembersStep(matches, i);
      UnwrapElement(doc, matches[i]);
    }
    MembersAll(matches);
  }

  /** `removeObscureSpanStylings`: every `span` whose parent is a `p` gives way to its children. */
  method RemoveObscureSpanStylings(doc: Document)
    requires doc.Valid()
    modifies doc
    ensures doc.Valid() && doc.next == old(doc.next)
    ensures doc.nodes == UnwrapSet(old(doc.nodes), Members(Seconds(ParentChildPairs(old(doc.nodes), "p", "span"))))
    ensures TextOf(doc.nodes) == TextOf(old(doc.nodes))
  {
    var spans := Seconds(ParentChildPairs(doc.nodes, "p", "span"));
    UnwrapText(doc.nodes, Members(spans));
    UnwrapAll(doc, spans);
  }

  /**
   * The match list is taken before any change. In `<p><span><span>x</span></span></p>`
   * only the outer `span` is a child of the `p` when the query runs; unwrapping
   * it makes the inner one a child of the `p`, and that one stays.
   */
  lemma SnapshotKeepsExposedSpan(x: string)
    ensures var doc := [Element(1, "p", [], [Element(2, "span", [], [Element(3, "span", [], [Text(4, x)])])])];
      var after := [Element(1, "p", [], [Element(3, "span", [], [Text(4, x)])])];
      Seconds(ParentChildPairs(doc, "p", "span")) == [2]
      && UnwrapSet(doc, Members([2])) == after
      && Seconds(ParentChildPairs(after, "p", "span")) == [3]
  {
    var text := [Text(4, x)];
    var inner := Element(3, "span", [], text);
    var outer := Element(2, "span", [], [inner]);
    var p := Element(1, "p", [], [outer]);
    assert text[1..] == [] && [inner][1..] == [] && [outer][1..] == [] && [p][1..] == [];
    assert Members([2]) == {2};
    assert UnwrapSet(text, {2}) == text;
    assert UnwrapSet([inner], {2}) == [inner];
    assert UnwrapSet([outer], {2}) == [inner];
    assert UnwrapSet([p], {2}) == [Element(1, "p", [], [inner])];
    assert ChildMatches(text, false, 3, "p", "span") == [];
    assert ChildMatches(text, true, 3, "p", "span") == [];
    assert ChildMatches([inner], false, 2, "p", "span") == [];
    assert ChildMatches([inner], true, 1, "p", "span") == [(1, 3)];
    assert ChildMatches([outer], true, 1, "p", "span") == [(1, 2)];
    assert ChildMatches([Element(1, "p", [], [inner])], false, 0, "p", "span") == [(1, 3)];
    assert ChildMatches([p], false, 0, "p", "span") == [(1, 2)];
  }

  /** The three location paths of `removeObscureParagraphsInsideLineItems`. */
  datatype ParagraphPath =
    | ListItemDescendant   // li//p, from the document element
    | ListItemChild        // li/p, from the document element
    | AnyListItemChild     // //li/p

  function PathsToClean(firstRun: bool): (r: seq<ParagraphPath>)
    ensures |r| == if firstRun then 2 else 3
    ensures r[0] == ListItemDescendant && r[1] == ListItemChild
    ensures !firstRun ==> r[2] == AnyListItemChild
  {
    [ListItemDescendant, ListItemChild] + if firstRun then [] else [AnyListItemChild]
  }

  /** What `DOMXPath::query` returns for one of the paths. */
  function Query(ns: seq<Node>, path: ParagraphPath): seq<nat> {
    match path
    case ListItemDescendant => ListItemDescendantParagraphs(ns)
    case ListItemChild => ListItemChildParagraphs(ns)
    case AnyListItemChild => Seconds(ParentChildPairs(ns, "li", "p"))
  }

  /** The paths in turn, each queried on the document the previous ones left. */
  function UnwrapPaths(ns: seq<Node>, paths: seq<ParagraphPath>): seq<Node>
    decreases |paths|
  {
    if paths == [] then ns else UnwrapPaths(UnwrapSet(ns, Members(Query(ns, paths[0]))), paths[1..])
  }

  lemma {:induction false} UnwrapPathsText(ns: seq<Node>, paths: seq<ParagraphPath>)
    ensures TextOf(UnwrapPaths(ns, paths)) == TextOf(ns)
    decreases |paths|
  {
    if paths != [] {
      UnwrapText(ns, Members(Query(ns, paths[0])));
      UnwrapPathsText(UnwrapSet(ns, Members(Query(ns, paths[0]))), paths[1..]);
    }
  }

  /** Running the queries one after the other never brings back an element called `name`. */
  lemma {:induction false} UnwrapPathsKeepsAbsent(ns: seq<Node>, paths: seq<ParagraphPath>, name: string)
    requires ElementsNamed(ns, name) == []
    ensures ElementsNamed(UnwrapPaths(ns, paths), name) == []
    decreases |paths|
  {
    if paths != [] {
      UnwrapKeepsAbsent(ns, Members(Query(ns, paths[0])), name);
      UnwrapPathsKeepsAbsent(UnwrapSet(ns, Members(Query(ns, paths[0]))), paths[1..], name);
    }
  }

  /** `removeObscureParagraphsInsideLineItems`: paragraphs in list items give way to their children. */
  method RemoveObscureParagraphsInsideLineItems(doc: Document, firstRun: bool)
    requires doc.Valid()
    modifies doc
    ensures doc.Valid() && doc.next == old(doc.next)
    ensures doc.nodes == UnwrapPaths(old(doc.nodes), PathsToClean(firstRun))
    ensures TextOf(doc.nodes) == TextOf(old(doc.nodes))
  {
    var paths := PathsToClean(firstRun);
    ghost var orig := doc.nodes;
    UnwrapPathsText(orig, paths);
    for i := 0 to |paths|
      invariant UnwrapPaths(doc.nodes, paths[i..]) == UnwrapPaths(orig, paths)
      invariant doc.Valid() && doc.next == old(doc.next)
    {
      var matches := Query(doc.nodes, paths[i]);
      assert paths[i..][1..] == paths[i + 1..];
      UnwrapAll(doc, matches);
    }
    assert paths[|paths|..] == [];
  }

  // ---- renameH1TagsToH2 ----------------------------------------------------------

  /** An identity below a new heading's stays absent when the heading replaces a node. */
  lemma AbsentAfterReplace(ns: seq<Node>, y: nat, k: nat, text: string, z: nat)
    requires Unique(ns) && z < k && z !in IdBag(ns)
    ensures z !in IdBag(ReplaceNode(ns, y, Heading(k, text)))
  {
    ReplaceNodeBag(ns, y, Heading(k, text));
  }

  lemma ElementText(n: Node)
    requires n.Element?
    ensures TextContent(n) == TextOf(n.children)
  {
    assert [n][1..] == [];
    assert TextOf([n]) == TextOf(n.children) + TextOf([]);
  }

  /** The node a loop step finds is the original element, unreplaced, with the same text. */
  lemma FoundUnreplaced(orig: seq<Node>, made: map<nat, nat>, b: nat, x: nat, P: Node)
    requires Unique(orig) && FreshFrom(made, b) && x < b
    requires FindNode(orig, x) == Some(P) && P.Element? && FindNode(ReplaceTop(orig, made), x).Some?
    ensures x !in made
    ensures FindNode(ReplaceTop(orig, made), x).value == ReplaceOne(P, made)
    ensures TextContent(ReplaceOne(P, made)) == TextOf(P.children)
  {
    FindThroughReplace(orig, made, b, x);
    FoundNotReplaced(orig, made, b, x);
    ReplaceOneText(P, made);
    ElementText(P);
  }

  /** A fresh heading in place of a node keeps the identities single, below the new bound, and absent ones absent. */
  lemma HeadingValid(t: seq<Node>, x: nat, next: nat, text: string)
    requires Unique(t) && Below(t, next)
    ensures Unique(ReplaceNode(t, x, Heading(next, text))) && Below(ReplaceNode(t, x, Heading(next, text)), next + 2)
    ensures forall z: nat :: z < next && z !in IdBag(t) ==> z !in IdBag(ReplaceNode(t, x, Heading(next, text)))
  {
    ReplaceKeepsValid(t, x, next, text);
    forall z: nat | z < next && z !in IdBag(t)
      ensures z !in IdBag(ReplaceNode(t, x, Heading(next, text)))
    {
      AbsentAfterReplace(t, x, next, text, z);
    }
  }

  /**
   * `renameH1TagsToH2`: each `h1` still in the document is replaced by a new
   * `h2` holding one text node with the `h1`'s text. `made` records the
   * identity of the heading each `h1` became.
   */
  method RenameH1TagsToH2(doc: Document) returns (ghost made: map<nat, nat>)
    requires doc.Valid()
    modifies doc
    ensures doc.Valid() && doc.next >= old(doc.next)
    ensures doc.nodes == ReplaceTop(old(doc.nodes), made) && FreshFrom(made, old(doc.next))
    ensures forall z :: z in made ==> z in ElementsNamed(old(doc.nodes), "h1")
    ensures forall z :: z in ElementsNamed(old(doc.nodes), "h1") ==> z in made || FindNode(doc.nodes, z).None?
    ensures ElementsNamed(doc.nodes, "h1") == []
    ensures TextOf(doc.nodes) == TextOf(old(doc.nodes))
  {
    var t, next;
    t, next, made := RenameH1(doc.nodes, doc.next);
    NoneLeftAfterReplace(doc.nodes, made, t, "h1");
    ReplaceTopText(doc.nodes, made);
    doc.nodes, doc.next := t, next;
  }

  /**
   * When every matched element was replaced or has gone, none called `name`
   * (other than `h2`, the name of the new headings) is left.
   */
  lemma NoneLeftAfterReplace(orig: seq<Node>, made: map<nat, nat>, t: seq<Node>, name: string)
    requires name != "h2" && t == ReplaceTop(orig, made)
    requires forall z :: z in ElementsNamed(orig, name) ==> z in made || z !in IdBag(t)
    ensures ElementsNamed(t, name) == []
  {
    ReplaceNamed(orig, made, name);
    ElementsNamedIds(t, name);
    EmptyWhenNoMember(ElementsNamed(t, name));
  }

  /** The tree in the loop of `renameH1TagsToH2`: the original with the headings of `made` in place. */
  ghost predicate Replaced(orig: seq<Node>, b: nat, t: seq<Node>, next: nat, made: map<nat, nat>) {
    t == ReplaceTop(orig, made) && Unique(t) && Below(t, next) && b <= next && FreshFrom(made, b)
  }

  /** Only matched nodes (`names`) were replaced, and each one visited (`seen`) was replaced or is gone. */
  ghost predicate Visited(names: set<nat>, seen: set<nat>, b: nat, t: seq<Node>, made: map<nat, nat>) {
    (forall z :: z in made ==> z in names)
    && (forall z :: z in seen ==> z in made || z !in IdBag(t))
    && (forall z :: z in names ==> z < b)
    && seen <= names
  }

  /** One replacement keeps the tree in step with `made`. */
  lemma ReplacedStep(orig: seq<Node>, b: nat, t: seq<Node>, next: nat, made: map<nat, nat>, x: nat)
    requires Unique(orig) && Replaced(orig, b, t, next, made) && x < b
    requires FindNode(orig, x).Some? && FindNode(orig, x).value.Element? && FindNode(t, x).Some?
    ensures Replaced(orig, b, ReplaceNode(t, x, Heading(next, TextContent(FindNode(t, x).value))), next + 2, made[x := next])
    ensures forall z: nat :: z < next && z !in IdBag(t) ==>
      z !in IdBag(ReplaceNode(t, x, Heading(next, TextContent(FindNode(t, x).value))))
  {
    var text := TextContent(FindNode(t, x).value);
    var t' := ReplaceNode(t, x, Heading(next, text));
    HeadingValid(t, x, next, text);
    assert FreshFrom(made[x := next], b);
    assert t' == ReplaceTop(orig, made[x := next]) by {
      AdvanceReplace(orig, made, b, x, next, FindNode(orig, x).value, t);
    }
  }

  /** Visiting `x`, replaced or not, keeps the record of visits. */
  lemma VisitedStep(names: set<nat>, seen: set<nat>, b: nat, t: seq<Node>, t': seq<Node>,
                    made: map<nat, nat>, made': map<nat, nat>, next: nat, x: nat)
    requires Visited(names, seen, b, t, made) && x in names && b <= next
    requires made' == made[x := next] || (made' == made && x !in IdBag(t) && t' == t)
    requires forall z: nat :: z < next && z !in IdBag(t) ==> z !in IdBag(t')
    ensures Visited(names, seen + {x}, b, t', made')
  {
    forall z | z in seen + {x}
      ensures z in made' || z !in IdBag(t')
    {
      if z !in made' {
        assert z in names;
      }
    }
  }

  method RenameH1(orig: seq<Node>, b: nat) returns (t: seq<Node>, next: nat, ghost made: map<nat, nat>)
    requires Unique(orig) && Below(orig, b)
    ensures Unique(t) && Below(t, next) && next >= b
    ensures t == ReplaceTop(orig, made) && FreshFrom(made, b)
    ensures forall z :: z in made ==> z in ElementsNamed(orig, "h1")
    ensures forall z :: z in ElementsNamed(orig, "h1") ==> z in made || z !in IdBag(t)
  {
    var matches := ElementsNamed(orig, "h1");
    t, next := orig, b;
    made := map[];
    ReplaceTopNone(orig);
    ElementsNamedIds(orig, "h1");
    assert Members(matches[..0]) == {};
    for i := 0 to |matches|
      invariant Replaced(orig, b, t, next, made)
      invariant Visited(Members(matches), Members(matches[..i]), b, t, made)
    {
      var x := matches[i];
      MembersStep(matches, i);
      var found := FindNode(t, x);
      if found.Some? {
        var text := TextContent(found.value);
        ElementFoundAt(orig, "h1", x);
        ReplacedStep(orig, b, t, next, made, x);
        VisitedStep(Members(matches), Members(matches[..i]), b, t, ReplaceNode(t, x, Heading(next, text)),
                    made, made[x := next], next, x);
        t := ReplaceNode(t, x, Heading(next, text));
        made := made[x := next];
        next := next + 2;
      } else {
        VisitedStep(Members(matches), Members(matches[..i]), b, t, t, made, made, next, x);
      }
    }
    MembersAll(matches);
  }

  /** One identity `//name` returned: an element called `name`, found by it. */
  lemma ElementFoundAt(orig: seq<Node>, name: string, x: nat)
    requires Unique(orig) && x in ElementsNamed(orig, name)
    ensures FindNode(orig, x).Some? && IsElementNamed(FindNode(orig, x).value, name)
  {
    ElementsNamedFound(orig, name);
  }

  lemma AdvanceReplace(orig: seq<Node>, made: map<nat, nat>, b: nat, x: nat, next: nat, P: Node, t: seq<Node>)
    requires Unique(orig) && FreshFrom(made, b) && x < b && b <= next && t == ReplaceTop(orig, made)
    requires FindNode(orig, x) == Some(P) && P.Element? && FindNode(t, x).Some?
    ensures ReplaceNode(t, x, Heading(next, TextContent(FindNode(t, x).value))) == ReplaceTop(orig, made[x := next])
  {
    FoundUnreplaced(orig, made, b, x, P);
    ReplaceStep(orig, made, b, x, next, P);
  }

  // ---- changeShortBoldToH2 and removeBoldH2Tags ----------------------------------------

  /**
   * The test both rules make of a `strong` and its parent: the parent holds no
   * text besides the `strong`'s, the `strong`'s first child is a text node,
   * and (for `changeShortBoldToH2`, `limited`) the text has at most eight words.
   */
  predicate ShortBold(p: Node, s: Node, limited: bool, wordCount: string -> nat) {
    TextContent(p) == TextContent(s)
    && (!limited || wordCount(TextContent(s)) <= 8)
    && Kids(s) != [] && Kids(s)[0].Text?
  }

  /** A pair of `//parent/strong`, judged on the document the query ran on. */
  predicate Qualifies(orig: seq<Node>, q: (nat, nat), parent: string, limited: bool, wordCount: string -> nat) {
    PairFound(orig, q, parent, "strong")
    && ShortBold(FindNode(orig, q.0).value, ChildById(FindNode(orig, q.0).value.children, q.1).value, limited, wordCount)
  }

  /** The parents of the qualifying pairs. */
  function QualifyingParents(orig: seq<Node>, pairs: seq<(nat, nat)>, parent: string, limited: bool,
                             wordCount: string -> nat): set<nat>
    decreases |pairs|
  {
    if pairs == [] then {}
    else
      var last := pairs[|pairs| - 1];
      QualifyingParents(orig, pairs[..|pairs| - 1], parent, limited, wordCount)
      + if Qualifies(orig, last, parent, limited, wordCount) then {last.0} else {}
  }

  lemma QualifyingStep(orig: seq<Node>, pairs: seq<(nat, nat)>, parent: string, limited: bool,
                       wordCount: string -> nat, i: nat)
    requires i < |pairs|
    ensures QualifyingParents(orig, pairs[..i + 1], parent, limited, wordCount)
      == QualifyingParents(orig, pairs[..i], parent, limited, wordCount)
         + if Qualifies(orig, pairs[i], parent, limited, wordCount) then {pairs[i].0} else {}
  {
    assert pairs[..i + 1][..i] == pairs[..i];
  }

  lemma {:induction false} QualifyingPrefix(orig: seq<Node>, pairs: seq<(nat, nat)>, parent: string, limited: bool,
                                            wordCount: string -> nat, i: nat)
    requires i <= |pairs|
    ensures QualifyingParents(orig, pairs[..i], parent, limited, wordCount)
      <= QualifyingParents(orig, pairs, parent, limited, wordCount)
    decreases |pairs|
  {
    if i < |pairs| {
      var init := pairs[..|pairs| - 1];
      assert init[..i] == pairs[..i];
      QualifyingPrefix(orig, init, parent, limited, wordCount, i);
    } else {
      assert pairs[..i] == pairs;
    }
  }

  /** Each qualifying parent is an element called `parent` of the document. */
  lemma {:induction false} QualifyingFound(orig: seq<Node>, pairs: seq<(nat, nat)>, parent: string, limited: bool,
                                           wordCount: string -> nat)
    ensures forall z :: z in QualifyingParents(orig, pairs, parent, limited, wordCount) ==>
      FindNode(orig, z).Some? && IsElementNamed(FindNode(orig, z).value, parent)
    decreases |pairs|
  {
    if pairs != [] {
      QualifyingFound(orig, pairs[..|pairs| - 1], parent, limited, wordCount);
    }
  }

  /** The `strong` of a pair is itself found by its identity, and so is never a replaced parent. */
  lemma StrongNotReplaced(orig: seq<Node>, q: (nat, nat), parent: string, made: map<nat, nat>)
    requires Unique(orig) && PairFound(orig, q, parent, "strong") && parent != "strong"
    requires forall z :: z in made ==> FindNode(orig, z).Some? && IsElementNamed(FindNode(orig, z).value, parent)
    ensures q.1 !in made
    ensures q.1 in IdBag(orig)
  {
    var P := FindNode(orig, q.0).value;
    var S := ChildById(P.children, q.1).value;
    var k :| 0 <= k < |P.children| && P.children[k] == S;
    OccursChild(P, orig, k);
    FindUnique(S, orig);
    OccursId(S, orig);
  }

  /** Every qualifying parent is an identity of the document. */
  lemma QualifyingBelow(orig: seq<Node>, pairs: seq<(nat, nat)>, parent: string, limited: bool,
                        wordCount: string -> nat, b: nat)
    requires Below(orig, b)
    ensures forall z :: z in QualifyingParents(orig, pairs, parent, limited, wordCount) ==> z < b
  {
    QualifyingFound(orig, pairs, parent, limited, wordCount);
  }

  /** A pair the query returned stands for a `strong` child of a `parent` element. */
  lemma PairFoundAt(orig: seq<Node>, parent: string, child: string, i: nat)
    requires Unique(orig) && i < |ParentChildPairs(orig, parent, child)|
    ensures PairFound(orig, ParentChildPairs(orig, parent, child)[i], parent, child)
  {
    ParentChildPairsFound(orig, parent, child);
    assert ParentChildPairs(orig, parent, child)[i] in ParentChildPairs(orig, parent, child);
  }

  /**
   * The test made during the loop, on the parent still in the document and
   * its `strong` child, gives the same answer as on the document the query
   * ran on: replacing other nodes changed neither.
   */
  lemma BoldCorrespond(orig: seq<Node>, pairs: seq<(nat, nat)>, parent: string, limited: bool, wordCount: string -> nat,
                       i: nat, b: nat, t: seq<Node>, next: nat, made: map<nat, nat>)
    requires Unique(orig) && Below(orig, b) && Replaced(orig, b, t, next, made) && parent != "strong"
    requires pairs == ParentChildPairs(orig, parent, "strong") && i < |pairs|
    requires Visited(QualifyingParents(orig, pairs, parent, limited, wordCount),
                     QualifyingParents(orig, pairs[..i], parent, limited, wordCount), b, t, made)
    requires FindNode(t, pairs[i].0).Some?
    ensures PairFound(orig, pairs[i], parent, "strong")
    ensures ChildById(Kids(FindNode(t, pairs[i].0).value), pairs[i].1).Some?
    ensures ShortBold(FindNode(t, pairs[i].0).value, ChildById(Kids(FindNode(t, pairs[i].0).value), pairs[i].1).value,
                      limited, wordCount)
            <==> Qualifies(orig, pairs[i], parent, limited, wordCount)
  {
    var q := pairs[i];
    PairFoundAt(orig, parent, "strong", i);
    QualifyingFound(orig, pairs, parent, limited, wordCount);
    var P := FindNode(orig, q.0).value;
    var S := ChildById(P.children, q.1).value;
    assert q.0 in IdBag(orig);
    FoundUnreplaced(orig, made, b, q.0, P);
    ReplaceOneShape(P, made);
    ReplaceOneText(P, made);
    StrongNotReplaced(orig, q, parent, made);
    ChildByIdReplace(P.children, made, b, q.1, S);
    ReplaceOneShape(S, made);
    ReplaceOneText(S, made);
    if Kids(S) != [] {
      assert ReplaceTop(Kids(S), made)[0] == ReplaceOne(Kids(S)[0], made);
      ReplaceOneKind(Kids(S)[0], made);
    }
  }

  /** Which pairs of `pairs` the loop has visited: the qualifying parents among the first `i`. */
  lemma BoldSkip(orig: seq<Node>, pairs: seq<(nat, nat)>, parent: string, limited: bool, wordCount: string -> nat,
                 i: nat, b: nat, t: seq<Node>, made: map<nat, nat>)
    requires i < |pairs|
    requires Visited(QualifyingParents(orig, pairs, parent, limited, wordCount),
                     QualifyingParents(orig, pairs[..i], parent, limited, wordCount), b, t, made)
    requires Qualifies(orig, pairs[i], parent, limited, wordCount) ==> pairs[i].0 !in IdBag(t)
    ensures Visited(QualifyingParents(orig, pairs, parent, limited, wordCount),
                    QualifyingParents(orig, pairs[..i + 1], parent, limited, wordCount), b, t, made)
  {
    QualifyingStep(orig, pairs, parent, limited, wordCount, i);
    QualifyingPrefix(orig, pairs, parent, limited, wordCount, i + 1);
    if Qualifies(orig, pairs[i], parent, limited, wordCount) {
      VisitedStep(QualifyingParents(orig, pairs, parent, limited, wordCount),
                  QualifyingParents(orig, pairs[..i], parent, limited, wordCount), b, t, t, made, made, b, pairs[i].0);
    }
  }

  /**
   * The loop shared by `changeShortBoldToH2` (`parent` = "p", `limited`) and
   * `removeBoldH2Tags` (`parent` = "h2"): for each pair of `//parent/strong`
   * in turn, a parent still in the document that passes the test is
   * replaced by a new `h2` holding the `strong`'s text.
   */
  method ReplaceBoldParents(orig: seq<Node>, b: nat, parent: string, limited: bool, wordCount: string -> nat)
    returns (t: seq<Node>, next: nat, ghost made: map<nat, nat>)
    requires Unique(orig) && Below(orig, b) && parent != "strong"
    ensures Replaced(orig, b, t, next, made)
    ensures forall z :: z in made ==>
      z in QualifyingParents(orig, ParentChildPairs(orig, parent, "strong"), parent, limited, wordCount)
    ensures forall z :: z in QualifyingParents(orig, ParentChildPairs(orig, parent, "strong"), parent, limited, wordCount) ==>
      z in made || z !in IdBag(t)
  {
    var pairs := ParentChildPairs(orig, parent, "strong");
    ghost var names := QualifyingParents(orig, pairs, parent, limited, wordCount);
    t, next := orig, b;
    made := map[];
    ReplaceTopNone(orig);
    QualifyingBelow(orig, pairs, parent, limited, wordCount, b);
    assert pairs[..0] == [];
    for i := 0 to |pairs|
      invariant Replaced(orig, b, t, next, made)
      invariant Visited(names, QualifyingParents(orig, pairs[..i], parent, limited, wordCount), b, t, made)
    {
      t, next, made := VisitBoldPair(orig, pairs, parent, limited, wordCount, i, b, t, next, made);
    }
    assert pairs[..|pairs|] == pairs;
  }

  /**
   * One pass of the loop: if the pair's parent is still in the document and
   * passes the test on its `strong` child, it is replaced by a new `h2`
   * holding the `strong`'s text, taking the next two identities; otherwise
   * the tree, the counter and the replacement map are left alone.
   */
  method VisitBoldPair(orig: seq<Node>, pairs: seq<(nat, nat)>, parent: string, limited: bool, wordCount: string -> nat,
                       i: nat, b: nat, t0: seq<Node>, next0: nat, ghost made0: map<nat, nat>)
    returns (t: seq<Node>, next: nat, ghost made: map<nat, nat>)
    requires Unique(orig) && Below(orig, b) && parent != "strong"
    requires pairs == ParentChildPairs(orig, parent, "strong") && i < |pairs|
    requires Replaced(orig, b, t0, next0, made0)
    requires Visited(QualifyingParents(orig, pairs, parent, limited, wordCount),
                     QualifyingParents(orig, pairs[..i], parent, limited, wordCount), b, t0, made0)
    ensures Replaced(orig, b, t, next, made)
    ensures Visited(QualifyingParents(orig, pairs, parent, limited, wordCount),
                    QualifyingParents(orig, pairs[..i + 1], parent, limited, wordCount), b, t, made)
    ensures FindNode(t0, pairs[i].0).Some? && Qualifies(orig, pairs[i], parent, limited, wordCount) ==>
      t == ReplaceNode(t0, pairs[i].0, Heading(next0, TextContent(FindNode(t0, pairs[i].0).value)))
      && next == next0 + 2 && made == made0[pairs[i].0 := next0]
    ensures !(FindNode(t0, pairs[i].0).Some? && Qualifies(orig, pairs[i], parent, limited, wordCount)) ==>
      t == t0 && next == next0 && made == made0
  {
    t, next, made := t0, next0, made0;
    var q := pairs[i];
    var p := FindNode(t, q.0);
    if p.Some? {
      BoldCorrespond(orig, pairs, parent, limited, wordCount, i, b, t, next, made);
      var s := ChildById(Kids(p.value), q.1);
      if s.Some? && ShortBold(p.value, s.value, limited, wordCount) {
        var text := TextContent(s.value);
        BoldAdvance(orig, pairs, parent, limited, wordCount, i, b, t, next, made);
        t := ReplaceNode(t, q.0, Heading(next, text));
        made := made[q.0 := next];
        next := next + 2;
      } else {
        BoldSkip(orig, pairs, parent, limited, wordCount, i, b, t, made);
      }
    } else {
      BoldSkip(orig, pairs, parent, limited, wordCount, i, b, t, made);
    }
  }

  lemma BoldAdvance(orig: seq<Node>, pairs: seq<(nat, nat)>, parent: string, limited: bool, wordCount: string -> nat,
                    i: nat, b: nat, t: seq<Node>, next: nat, made: map<nat, nat>)
    requires Unique(orig) && Below(orig, b) && i < |pairs| && parent != "strong"
    requires PairFound(orig, pairs[i], parent, "strong") && Qualifies(orig, pairs[i], parent, limited, wordCount)
    requires Replaced(orig, b, t, next, made)
    requires Visited(QualifyingParents(orig, pairs, parent, limited, wordCount),
                     QualifyingParents(orig, pairs[..i], parent, limited, wordCount), b, t, made)
    requires FindNode(t, pairs[i].0).Some?
    ensures Replaced(orig, b, ReplaceNode(t, pairs[i].0, Heading(next, TextContent(FindNode(t, pairs[i].0).value))),
                     next + 2, made[pairs[i].0 := next])
    ensures Visited(QualifyingParents(orig, pairs, parent, limited, wordCount),
                    QualifyingParents(orig, pairs[..i + 1], parent, limited, wordCount),
                    b, ReplaceNode(t, pairs[i].0, Heading(next, TextContent(FindNode(t, pairs[i].0).value))),
                    made[pairs[i].0 := next])
  {
    var x := pairs[i].0;
    assert x in IdBag(orig);
    ReplacedStep(orig, b, t, next, made, x);
    QualifyingStep(orig, pairs, parent, limited, wordCount, i);
    QualifyingPrefix(orig, pairs, parent, limited, wordCount, i + 1);
    VisitedStep(QualifyingParents(orig, pairs, parent, limited, wordCount),
                QualifyingParents(orig, pairs[..i], parent, limited, wordCount), b, t,
                ReplaceNode(t, x, Heading(next, TextContent(FindNode(t, x).value))), made, made[x := next], next, x);
  }

  /**
   * Every element of `names` that was replaced or left the document is no
   * longer found in it: a replaced element gave its place to its heading.
   */
  lemma GoneAfterReplace(orig: seq<Node>, made: map<nat, nat>, b: nat, t: seq<Node>, names: set<nat>)
    requires Unique(orig) && FreshFrom(made, b) && t == ReplaceTop(orig, made)
    requires forall z :: z in names ==> z < b && FindNode(orig, z).Some? && FindNode(orig, z).value.Element?
    requires forall z :: z in names ==> z in made || z !in IdBag(t)
    ensures forall z :: z in names ==> FindNode(t, z).None?
  {
    forall z | z in names ensures FindNode(t, z).None? {
      if z in made {
        ReplacedGone(orig, made, b, z);
      }
    }
  }

  /**
   * `changeShortBoldToH2`: each `p` with a `strong` child that holds all of
   * its text, begins with a text node and has at most eight words (by
   * `wordCount`, the model of `str_word_count`) becomes an `h2` with that text.
   */
  method ChangeShortBoldToH2(doc: Document, wordCount: string -> nat) returns (ghost made: map<nat, nat>)
    requires doc.Valid()
    modifies doc
    ensures doc.Valid() && doc.next >= old(doc.next)
    ensures doc.nodes == ReplaceTop(old(doc.nodes), made) && FreshFrom(made, old(doc.next))
    ensures forall z :: z in made ==>
      z in BoldTargets(old(doc.nodes), "p", true, wordCount)
    ensures forall z :: z in BoldTargets(old(doc.nodes), "p", true, wordCount) ==> FindNode(doc.nodes, z).None?
    ensures TextOf(doc.nodes) == TextOf(old(doc.nodes))
  {
    made := ReplaceBold(doc, "p", true, wordCount);
  }

  /**
   * `removeBoldH2Tags`: each `h2` whose `strong` child holds all of its text
   * and begins with a text node becomes a new `h2` with the plain text.
   */
  method RemoveBoldH2Tags(doc: Document) returns (ghost made: map<nat, nat>)
    requires doc.Valid()
    modifies doc
    ensures doc.Valid() && doc.next >= old(doc.next)
    ensures doc.nodes == ReplaceTop(old(doc.nodes), made) && FreshFrom(made, old(doc.next))
    ensures forall z :: z in made ==>
      z in BoldTargets(old(doc.nodes), "h2", false, AnyCount)
    ensures forall z :: z in BoldTargets(old(doc.nodes), "h2", false, AnyCount) ==> FindNode(doc.nodes, z).None?
    ensures TextOf(doc.nodes) == TextOf(old(doc.nodes))
  {
    made := ReplaceBold(doc, "h2", false, AnyCount);
  }

  /** The parents `//parent/strong` picks out that pass the test, on the document the query ran on. */
  function BoldTargets(orig: seq<Node>, parent: string, limited: bool, wordCount: string -> nat): set<nat> {
    QualifyingParents(orig, ParentChildPairs(orig, parent, "strong"), parent, limited, wordCount)
  }

  /** The word count `removeBoldH2Tags` never consults. */
  function AnyCount(s: string): nat { 0 }

  method ReplaceBold(doc: Document, parent: string, limited: bool, wordCount: string -> nat)
    returns (ghost made: map<nat, nat>)
    requires doc.Valid() && parent != "strong"
    modifies doc
    ensures doc.Valid() && doc.next >= old(doc.next)
    ensures doc.nodes == ReplaceTop(old(doc.nodes), made) && FreshFrom(made, old(doc.next))
    ensures forall z :: z in made ==>
      z in BoldTargets(old(doc.nodes), parent, limited, wordCount)
    ensures forall z :: z in BoldTargets(old(doc.nodes), parent, limited, wordCount) ==> FindNode(doc.nodes, z).None?
    ensures TextOf(doc.nodes) == TextOf(old(doc.nodes))
  {
    var t, next;
    ghost var pairs := ParentChildPairs(doc.nodes, parent, "strong");
    t, next, made := ReplaceBoldParents(doc.nodes, doc.next, parent, limited, wordCount);
    QualifyingBelow(doc.nodes, pairs, parent, limited, wordCount, doc.next);
    QualifyingFound(doc.nodes, pairs, parent, limited, wordCount);
    GoneAfterReplace(doc.nodes, made, doc.next, t, QualifyingParents(doc.nodes, pairs, parent, limited, wordCount));
    ReplaceTopText(doc.nodes, made);
    doc.nodes, doc.next := t, next;
  }
}
