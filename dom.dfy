/**
 * The part of the DOM the rewrite rules see: a document is the sequence of
 * its top-level nodes, each node carries an identity (`id`), and XPath
 * queries return the identities of the matched nodes in document order.
 */
module Dom {
  import opened Strings

  type Attr = (string, string)

  datatype Node =
    | Text(id: nat, data: string)
    | Comment(id: nat, data: string)
    | Element(id: nat, name: string, attrs: seq<Attr>, children: seq<Node>)

  predicate IsElementNamed(n: Node, name: string) {
    n.Element? && n.name == name
  }

  /** `textContent` of a sequence of siblings: the text nodes below them, in document order; comments add nothing. */
  function TextOf(ns: seq<Node>): string {
    if ns == [] then []
    else
      (match ns[0]
       case Text(_, d) => d
       case Comment(_, _) => []
       case Element(_, _, _, c) => TextOf(c)) + TextOf(ns[1..])
  }

  /** `textContent` of one node. */
  function TextContent(n: Node): string {
    TextOf([n])
  }

  lemma {:induction false} TextOfAppend(a: seq<Node>, b: seq<Node>)
    ensures TextOf(a + b) == TextOf(a) + TextOf(b)
  {
    if a == [] {
      assert a + b == b;
    } else {
      TextOfAppend(a[1..], b);
      assert (a + b)[0] == a[0];
      assert (a + b)[1..] == a[1..] + b;
      var h := match a[0] case Text(_, d) => d case Comment(_, _) => [] case Element(_, _, _, c) => TextOf(c);
      assert TextOf(a) == h + TextOf(a[1..]);
      assert TextOf(a + b) == h + TextOf(a[1..] + b);
      AppendAssoc(h, TextOf(a[1..]), TextOf(b));
    }
  }

  /** The identities of all nodes, in document order. */
  function IdSeq(ns: seq<Node>): seq<nat> {
    if ns == [] then []
    else
      (match ns[0]
       case Text(i, _) => [i]
       case Comment(i, _) => [i]
       case Element(i, _, _, c) => [i] + IdSeq(c)) + IdSeq(ns[1..])
  }

  /** The children of an element; other nodes have none. */
  function Kids(n: Node): seq<Node> {
    if n.Element? then n.children else []
  }

  lemma IdSeqUnfold(ns: seq<Node>)
    requires ns != []
    ensures IdSeq(ns) == [ns[0].id] + IdSeq(Kids(ns[0])) + IdSeq(ns[1..])
  {
    if !ns[0].Element? {
      assert IdSeq(Kids(ns[0])) == [];
    }
  }

  lemma {:induction false} IdSeqAppend(a: seq<Node>, b: seq<Node>)
    ensures IdSeq(a + b) == IdSeq(a) + IdSeq(b)
  {
    if a == [] {
      assert a + b == b;
    } else {
      IdSeqAppend(a[1..], b);
      assert (a + b)[0] == a[0];
      assert (a + b)[1..] == a[1..] + b;
      var h := [a[0].id] + IdSeq(Kids(a[0]));
      IdSeqUnfold(a);
      IdSeqUnfold(a + b);
      AppendAssoc(h, IdSeq(a[1..]), IdSeq(b));
    }
  }

  /** The identities of all nodes, counted with multiplicity. */
  function IdBag(ns: seq<Node>): multiset<nat> {
    multiset(IdSeq(ns))
  }

  lemma IdBagAppend(a: seq<Node>, b: seq<Node>)
    ensures IdBag(a + b) == IdBag(a) + IdBag(b)
  {
    IdSeqAppend(a, b);
  }

  lemma IdBagUnfold(ns: seq<Node>)
    requires ns != []
    ensures IdBag(ns) == multiset{ns[0].id} + IdBag(Kids(ns[0])) + IdBag(ns[1..])
  {
    IdSeqUnfold(ns);
  }

  /** No identity occurs twice: each node of the tree is one object. */
  predicate Unique(ns: seq<Node>) {
    forall x :: x in IdBag(ns) ==> IdBag(ns)[x] == 1
  }

  /** Every identity is below `bound`: the next one to hand out is fresh. */
  predicate Below(ns: seq<Node>, bound: nat) {
    forall x :: x in IdBag(ns) ==> x < bound
  }

  /** A bag no bigger than a bag without repeats has no repeats either. */
  lemma UniqueSub(a: seq<Node>, b: seq<Node>)
    requires Unique(b) && IdBag(a) <= IdBag(b)
    ensures Unique(a)
  {
    forall x | x in IdBag(a) ensures IdBag(a)[x] == 1 {
      assert IdBag(a)[x] <= IdBag(b)[x];
    }
  }

  lemma BelowSub(a: seq<Node>, b: seq<Node>, bound: nat)
    requires Below(b, bound) && IdBag(a) <= IdBag(b)
    ensures Below(a, bound)
  {
    forall x | x in IdBag(a) ensures x < bound {
      assert x in IdBag(b);
    }
  }

  /** The node `n` appears somewhere among `ns` or below them. */
  predicate Occurs(n: Node, ns: seq<Node>) {
    ns != [] && (ns[0] == n || (ns[0].Element? && Occurs(n, ns[0].children)) || Occurs(n, ns[1..]))
  }

  /** The first node, in document order, with identity `y`. */
  function FindNode(ns: seq<Node>, y: nat): (r: Option<Node>)
    ensures r.Some? ==> r.value.id == y && Occurs(r.value, ns)
    ensures r.None? <==> y !in IdBag(ns)
  {
    if ns == [] then None
    else if ns[0].id == y then Some(ns[0])
    else
      var inner := if ns[0].Element? then FindNode(ns[0].children, y) else None;
      if inner.Some? then inner else FindNode(ns[1..], y)
  }

  lemma {:induction false} OccursId(n: Node, ns: seq<Node>)
    requires Occurs(n, ns)
    ensures n.id in IdBag(ns)
  {
    if ns[0] != n {
      if ns[0].Element? && Occurs(n, ns[0].children) {
        OccursId(n, ns[0].children);
      } else {
        OccursId(n, ns[1..]);
      }
    }
  }

  /** The identities of the first node, of what is below it and of its later siblings. */
  lemma UniqueSplit(ns: seq<Node>)
    requires ns != [] && Unique(ns)
    ensures var kids := Kids(ns[0]);
      Unique(kids) && Unique(ns[1..]) && ns[0].id !in IdBag(kids) && ns[0].id !in IdBag(ns[1..])
      && forall x :: x in IdBag(kids) ==> x !in IdBag(ns[1..])
  {
    var kids := Kids(ns[0]);
    var rest := ns[1..];
    IdBagUnfold(ns);
    UniqueSub(kids, ns);
    UniqueSub(rest, ns);
    forall x | x in IdBag(kids) ensures x !in IdBag(rest) {
      assert IdBag(ns)[x] >= IdBag(kids)[x] + IdBag(rest)[x];
    }
  }

  /** In a tree without repeated identities, a node is found by its identity. */
  lemma {:induction false} FindUnique(n: Node, ns: seq<Node>)
    requires Unique(ns) && Occurs(n, ns)
    ensures FindNode(ns, n.id) == Some(n)
  {
    var kids := Kids(ns[0]);
    UniqueSplit(ns);
    if ns[0] == n {
    } else if ns[0].Element? && Occurs(n, kids) {
      OccursId(n, kids);
      FindUnique(n, kids);
      assert ns[0].id != n.id;
      assert FindNode(ns, n.id) == FindNode(kids, n.id);
    } else {
      assert Occurs(n, ns[1..]);
      OccursId(n, ns[1..]);
      FindUnique(n, ns[1..]);
      assert ns[0].id != n.id;
      assert n.id !in IdBag(kids);
      assert FindNode(ns, n.id) == FindNode(ns[1..], n.id);
    }
  }

  /** A child of a node that occurs also occurs. */
  lemma {:induction false} OccursChild(n: Node, ns: seq<Node>, k: nat)
    requires Occurs(n, ns) && n.Element? && k < |n.children|
    ensures Occurs(n.children[k], ns)
  {
    if ns[0] == n {
      OccursInSeq(n.children, k);
    } else if ns[0].Element? && Occurs(n, ns[0].children) {
      OccursChild(n, ns[0].children, k);
    } else {
      OccursChild(n, ns[1..], k);
    }
  }

  lemma {:induction false} OccursInSeq(ns: seq<Node>, k: nat)
    requires k < |ns|
    ensures Occurs(ns[k], ns)
  {
    if k > 0 {
      OccursInSeq(ns[1..], k - 1);
    }
  }

  // ---- queries ----------------------------------------------------------------

  /** `//name`: the identities of all elements called `name`, in document order. */
  function ElementsNamed(ns: seq<Node>, name: string): (r: seq<nat>)
  {
    if ns == [] then []
    else
      (if IsElementNamed(ns[0], name) then [ns[0].id] else [])
      + (if ns[0].Element? then ElementsNamed(ns[0].children, name) else [])
      + ElementsNamed(ns[1..], name)
  }

  /**
   * `//parent/child` below siblings `ns` whose own parent is the element
   * `pid` (when `underParent`): each matched child with its parent, in
   * document order of the children.
   */
  function ChildMatches(ns: seq<Node>, underParent: bool, pid: nat, parent: string, child: string): (r: seq<(nat, nat)>)
  {
    if ns == [] then []
    else
      (if underParent && IsElementNamed(ns[0], child) then [(pid, ns[0].id)] else [])
      + (if ns[0].Element? then ChildMatches(ns[0].children, IsElementNamed(ns[0], parent), ns[0].id, parent, child) else [])
      + ChildMatches(ns[1..], underParent, pid, parent, child)
  }

  /** `//parent/child` over a document: pairs of parent and child. */
  function ParentChildPairs(ns: seq<Node>, parent: string, child: string): seq<(nat, nat)> {
    ChildMatches(ns, false, 0, parent, child)
  }

  function Seconds(ps: seq<(nat, nat)>): (r: seq<nat>)
    ensures |r| == |ps| && forall k :: 0 <= k < |ps| ==> r[k] == ps[k].1
  {
    if ps == [] then [] else [ps[0].1] + Seconds(ps[1..])
  }

  /** The document element: the first element among the top-level nodes. */
  function RootElement(ns: seq<Node>): (r: Option<Node>)
    ensures r.Some? ==> r.value.Element? && r.value in ns
  {
    if ns == [] then None else if ns[0].Element? then Some(ns[0]) else RootElement(ns[1..])
  }

  /** Children of `ns` called `name`, in order. */
  function ChildrenNamed(ns: seq<Node>, name: string): (r: seq<Node>)
    ensures forall k :: 0 <= k < |r| ==> IsElementNamed(r[k], name) && r[k] in ns
  {
    if ns == [] then []
    else (if IsElementNamed(ns[0], name) then [ns[0]] else []) + ChildrenNamed(ns[1..], name)
  }

  /** `li/p` from the document element: `p` children of its `li` children. */
  function ListItemChildParagraphs(ns: seq<Node>): seq<nat> {
    match RootElement(ns)
    case None => []
    case Some(root) => ChildParagraphsOf(ChildrenNamed(root.children, "li"))
  }

  function ChildParagraphsOf(items: seq<Node>): seq<nat> {
    if items == [] then []
    else
      (if items[0].Element? then IdsOf(ChildrenNamed(items[0].children, "p")) else [])
      + ChildParagraphsOf(items[1..])
  }

  /** `li//p` from the document element: `p` descendants of its `li` children. */
  function ListItemDescendantParagraphs(ns: seq<Node>): seq<nat> {
    match RootElement(ns)
    case None => []
    case Some(root) => DescendantParagraphsOf(ChildrenNamed(root.children, "li"))
  }

  function DescendantParagraphsOf(items: seq<Node>): seq<nat> {
    if items == [] then []
    else
      (if items[0].Element? then ElementsNamed(items[0].children, "p") else [])
      + DescendantParagraphsOf(items[1..])
  }

  function IdsOf(ns: seq<Node>): (r: seq<nat>)
    ensures |r| == |ns| && forall k :: 0 <= k < |ns| ==> r[k] == ns[k].id
  {
    if ns == [] then [] else [ns[0].id] + IdsOf(ns[1..])
  }

  /** The child of `cs` with identity `y`, if any: the first one. */
  function ChildById(cs: seq<Node>, y: nat): (r: Option<Node>)
    ensures r.Some? ==> r.value.id == y && r.value in cs
  {
    if cs == [] then None else if cs[0].id == y then Some(cs[0]) else ChildById(cs[1..], y)
  }

  // ---- the queries return what they say ------------------------------------------

  /** Below a tree without repeated identities, each node's own children have none either. */
  lemma {:induction false} UniqueOccurs(n: Node, ns: seq<Node>)
    requires Unique(ns) && Occurs(n, ns)
    ensures Unique(Kids(n))
  {
    UniqueSplit(ns);
    if ns[0] == n {
    } else if ns[0].Element? && Occurs(n, ns[0].children) {
      UniqueOccurs(n, ns[0].children);
    } else {
      UniqueOccurs(n, ns[1..]);
    }
  }

  lemma {:induction false} ChildByIdUnique(cs: seq<Node>, d: nat)
    requires Unique(cs) && d < |cs|
    ensures ChildById(cs, cs[d].id) == Some(cs[d])
  {
    if d > 0 {
      UniqueSplit(cs);
      assert cs[d] == cs[1..][d - 1];
      OccursInSeq(cs[1..], d - 1);
      OccursId(cs[d], cs[1..]);
      ChildByIdUnique(cs[1..], d - 1);
    }
  }

  /** Every identity `//name` returns names an element called `name`, found by that identity. */
  lemma {:induction false} ElementsNamedSound(ns: seq<Node>, orig: seq<Node>, name: string)
    requires Unique(orig)
    requires forall k :: 0 <= k < |ns| ==> Occurs(ns[k], orig)
    ensures forall x :: x in ElementsNamed(ns, name) ==>
      FindNode(orig, x).Some? && IsElementNamed(FindNode(orig, x).value, name)
  {
    if ns != [] {
      var n := ns[0];
      assert Occurs(n, orig);
      FindUnique(n, orig);
      if n.Element? {
        forall k | 0 <= k < |n.children| ensures Occurs(n.children[k], orig) {
          OccursChild(n, orig, k);
        }
        ElementsNamedSound(n.children, orig, name);
      }
      assert forall k :: 0 <= k < |ns[1..]| ==> Occurs(ns[1..][k], orig) by {
        forall k | 0 <= k < |ns[1..]| ensures Occurs(ns[1..][k], orig) {
          assert ns[1..][k] == ns[k + 1];
        }
      }
      ElementsNamedSound(ns[1..], orig, name);
    }
  }

  /** `//name` over a whole document. */
  lemma ElementsNamedFound(orig: seq<Node>, name: string)
    requires Unique(orig)
    ensures forall x :: x in ElementsNamed(orig, name) ==>
      FindNode(orig, x).Some? && IsElementNamed(FindNode(orig, x).value, name)
  {
    forall k | 0 <= k < |orig| ensures Occurs(orig[k], orig) {
      OccursInSeq(orig, k);
    }
    ElementsNamedSound(orig, orig, name);
  }

  /** `//name` returns identities of the document. */
  lemma {:induction false} ElementsNamedIds(ns: seq<Node>, name: string)
    ensures forall x :: x in ElementsNamed(ns, name) ==> x in IdBag(ns)
  {
    if ns != [] {
      IdBagUnfold(ns);
      ElementsNamedIds(ns[1..], name);
      if ns[0].Element? {
        ElementsNamedIds(ns[0].children, name);
      }
    }
  }

  /** What a pair returned by `//parent/child` stands for. */
  predicate PairFound(orig: seq<Node>, q: (nat, nat), parent: string, child: string) {
    var p := FindNode(orig, q.0);
    p.Some? && IsElementNamed(p.value, parent)
    && ChildById(p.value.children, q.1).Some? && IsElementNamed(ChildById(p.value.children, q.1).value, child)
  }

  lemma {:induction false} ChildMatchesSound(orig: seq<Node>, ns: seq<Node>, underParent: bool, pid: nat,
                                             parent: string, child: string, P: Node, d: nat)
    requires Unique(orig)
    requires forall k :: 0 <= k < |ns| ==> Occurs(ns[k], orig)
    requires underParent ==>
               Occurs(P, orig) && P.id == pid && IsElementNamed(P, parent) && d <= |P.children| && ns == P.children[d..]
    ensures forall q :: q in ChildMatches(ns, underParent, pid, parent, child) ==> PairFound(orig, q, parent, child)
  {
    if ns != [] {
      var n := ns[0];
      assert Occurs(n, orig);
      if underParent && IsElementNamed(n, child) {
        FindUnique(P, orig);
        UniqueOccurs(P, orig);
        assert n == P.children[d];
        ChildByIdUnique(P.children, d);
      }
      if n.Element? {
        forall k | 0 <= k < |n.children| ensures Occurs(n.children[k], orig) {
          OccursChild(n, orig, k);
        }
        assert n.children[0..] == n.children;
        ChildMatchesSound(orig, n.children, IsElementNamed(n, parent), n.id, parent, child, n, 0);
      }
      assert forall k :: 0 <= k < |ns[1..]| ==> Occurs(ns[1..][k], orig) by {
        forall k | 0 <= k < |ns[1..]| ensures Occurs(ns[1..][k], orig) {
          assert ns[1..][k] == ns[k + 1];
        }
      }
      if underParent {
        assert ns[1..] == P.children[d + 1..];
      }
      ChildMatchesSound(orig, ns[1..], underParent, pid, parent, child, P, d + 1);
    }
  }

  /** Every pair `//parent/child` returns is a `child` element of the `parent` element it names. */
  lemma ParentChildPairsFound(orig: seq<Node>, parent: string, child: string)
    requires Unique(orig)
    ensures forall q :: q in ParentChildPairs(orig, parent, child) ==> PairFound(orig, q, parent, child)
  {
    forall k | 0 <= k < |orig| ensures Occurs(orig[k], orig) {
      OccursInSeq(orig, k);
    }
    ChildMatchesSound(orig, orig, false, 0, parent, child, Text(0, []), 0);
  }

  /** A node among the children of a node that occurs also occurs. */
  lemma ChildOccurs(n: Node, orig: seq<Node>, c: Node)
    requires Occurs(n, orig) && n.Element? && c in n.children
    ensures Occurs(c, orig)
  {
    var k :| 0 <= k < |n.children| && n.children[k] == c;
    OccursChild(n, orig, k);
  }

  /** The `li` children of the document element occur in the document. */
  lemma ListItemsOccur(orig: seq<Node>, root: Node)
    requires RootElement(orig) == Some(root)
    ensures forall k :: 0 <= k < |ChildrenNamed(root.children, "li")| ==>
      Occurs(ChildrenNamed(root.children, "li")[k], orig)
  {
    var j :| 0 <= j < |orig| && orig[j] == root;
    OccursInSeq(orig, j);
    var items := ChildrenNamed(root.children, "li");
    forall k | 0 <= k < |items| ensures Occurs(items[k], orig) {
      ChildOccurs(root, orig, items[k]);
    }
  }

  lemma {:induction false} ChildParagraphsSound(items: seq<Node>, orig: seq<Node>)
    requires Unique(orig)
    requires forall k :: 0 <= k < |items| ==> Occurs(items[k], orig)
    ensures forall x :: x in ChildParagraphsOf(items) ==>
      FindNode(orig, x).Some? && IsElementNamed(FindNode(orig, x).value, "p")
  {
    if items != [] {
      var n := items[0];
      assert Occurs(n, orig);
      if n.Element? {
        var ps := ChildrenNamed(n.children, "p");
        forall k | 0 <= k < |ps| ensures FindNode(orig, IdsOf(ps)[k]) == Some(ps[k]) {
          ChildOccurs(n, orig, ps[k]);
          FindUnique(ps[k], orig);
        }
      }
      assert forall k :: 0 <= k < |items[1..]| ==> Occurs(items[1..][k], orig) by {
        forall k | 0 <= k < |items[1..]| ensures Occurs(items[1..][k], orig) {
          assert items[1..][k] == items[k + 1];
        }
      }
      ChildParagraphsSound(items[1..], orig);
    }
  }

  lemma {:induction false} DescendantParagraphsSound(items: seq<Node>, orig: seq<Node>)
    requires Unique(orig)
    requires forall k :: 0 <= k < |items| ==> Occurs(items[k], orig)
    ensures forall x :: x in DescendantParagraphsOf(items) ==>
      FindNode(orig, x).Some? && IsElementNamed(FindNode(orig, x).value, "p")
  {
    if items != [] {
      var n := items[0];
      assert Occurs(n, orig);
      if n.Element? {
        forall k | 0 <= k < |n.children| ensures Occurs(n.children[k], orig) {
          OccursChild(n, orig, k);
        }
        ElementsNamedSound(n.children, orig, "p");
      }
      assert forall k :: 0 <= k < |items[1..]| ==> Occurs(items[1..][k], orig) by {
        forall k | 0 <= k < |items[1..]| ensures Occurs(items[1..][k], orig) {
          assert items[1..][k] == items[k + 1];
        }
      }
      DescendantParagraphsSound(items[1..], orig);
    }
  }

  /** Every identity `li/p` and `li//p` return, from the document element, names a `p` element of the document. */
  lemma ListItemParagraphsFound(orig: seq<Node>)
    requires Unique(orig)
    ensures forall x :: x in ListItemChildParagraphs(orig) ==>
      FindNode(orig, x).Some? && IsElementNamed(FindNode(orig, x).value, "p")
    ensures forall x :: x in ListItemDescendantParagraphs(orig) ==>
      FindNode(orig, x).Some? && IsElementNamed(FindNode(orig, x).value, "p")
  {
    match RootElement(orig)
    case None =>
    case Some(root) =>
      ListItemsOccur(orig, root);
      ChildParagraphsSound(ChildrenNamed(root.children, "li"), orig);
      DescendantParagraphsSound(ChildrenNamed(root.children, "li"), orig);
  }
}
