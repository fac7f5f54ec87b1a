/**
 * The tree edits the rewrite rules make, as functions on the sequence of
 * top-level nodes: removing nodes, unwrapping elements (their children take
 * their place), moving an element's first child out in front of it, and
 * replacing an element with a fresh `h2` holding its text.
 */
module DomEdit {
  import opened Strings
  import opened Dom

  // ---- removal ------------------------------------------------------------------

  /** `n` after detaching every node whose identity is in `S`: nothing, or `n` with its removals below. */
  function RemoveOne(n: Node, S: set<nat>): seq<Node>
    decreases n
  {
    if n.id in S then []
    else
      match n
      case Element(i, name, a, c) => [Element(i, name, a, RemoveSet(c, S))]
      case Text(_, _) => [n]
      case Comment(_, _) => [n]
  }

  /** Every node whose identity is in `S` is detached, together with everything below it. */
  function RemoveSet(ns: seq<Node>, S: set<nat>): seq<Node>
    decreases ns
  {
    if ns == [] then [] else RemoveOne(ns[0], S) + RemoveSet(ns[1..], S)
  }

  lemma {:induction false} RemoveAppend(a: seq<Node>, b: seq<Node>, S: set<nat>)
    ensures RemoveSet(a + b, S) == RemoveSet(a, S) + RemoveSet(b, S)
  {
    if a == [] {
      assert a + b == b;
    } else {
      var h := RemoveOne(a[0], S);
      RemoveAppend(a[1..], b, S);
      assert (a + b)[0] == a[0];
      assert (a + b)[1..] == a[1..] + b;
      assert RemoveSet(a + b, S) == h + RemoveSet(a[1..] + b, S);
      AppendAssoc(h, RemoveSet(a[1..], S), RemoveSet(b, S));
    }
  }

  /** Removing `A` and then `B` is removing both at once. */
  lemma {:induction false} RemoveCompose(ns: seq<Node>, A: set<nat>, B: set<nat>)
    ensures RemoveSet(RemoveSet(ns, A), B) == RemoveSet(ns, A + B)
    decreases ns
  {
    if ns != [] {
      RemoveAppend(RemoveOne(ns[0], A), RemoveSet(ns[1..], A), B);
      RemoveOneCompose(ns[0], A, B);
      RemoveCompose(ns[1..], A, B);
    }
  }

  lemma {:induction false} RemoveOneCompose(n: Node, A: set<nat>, B: set<nat>)
    ensures RemoveSet(RemoveOne(n, A), B) == RemoveOne(n, A + B)
    decreases n
  {
    if n.id !in A {
      var m := RemoveOne(n, A)[0];
      assert RemoveOne(n, A) == [m];
      assert RemoveSet([m], B) == RemoveOne(m, B) + RemoveSet([], B) by {
        assert [m][1..] == [];
      }
      match n
      case Element(i, name, a, c) => RemoveCompose(c, A, B);
      case Text(_, _) =>
      case Comment(_, _) =>
    }
  }

  /** Removing identities the tree lacks changes nothing. */
  lemma {:induction false} RemoveAbsent(ns: seq<Node>, S: set<nat>)
    requires forall x :: x in S ==> x !in IdBag(ns)
    ensures RemoveSet(ns, S) == ns
    decreases ns, 1
  {
    if ns != [] {
      AbsentParts(ns, S);
      RemoveOneAbsent(ns[0], S);
      RemoveAbsent(ns[1..], S);
      assert RemoveSet(ns, S) == [ns[0]] + ns[1..];
      assert ns == [ns[0]] + ns[1..];
    }
  }

  lemma {:induction false} RemoveOneAbsent(n: Node, S: set<nat>)
    requires forall x :: x in S ==> x != n.id && x !in IdBag(Kids(n))
    ensures RemoveOne(n, S) == [n]
    decreases n, 0
  {
    if n.Element? {
      RemoveAbsent(n.children, S);
    }
  }

  /** Identities a forest lacks are lacking in each of its parts. */
  lemma AbsentParts(ns: seq<Node>, S: set<nat>)
    requires ns != [] && forall x :: x in S ==> x !in IdBag(ns)
    ensures forall x :: x in S ==> x != ns[0].id && x !in IdBag(Kids(ns[0])) && x !in IdBag(ns[1..])
  {
    IdBagUnfold(ns);
  }

  /** Removal only drops identities. */
  lemma {:induction false} RemoveBag(ns: seq<Node>, S: set<nat>)
    ensures IdBag(RemoveSet(ns, S)) <= IdBag(ns)
    decreases ns
  {
    if ns != [] {
      IdBagUnfold(ns);
      RemoveBag(ns[1..], S);
      RemoveOneBag(ns[0], S);
      IdBagAppend(RemoveOne(ns[0], S), RemoveSet(ns[1..], S));
    }
  }

  lemma {:induction false} RemoveOneBag(n: Node, S: set<nat>)
    ensures IdBag(RemoveOne(n, S)) <= multiset{n.id} + IdBag(Kids(n))
    decreases n
  {
    if n.id !in S {
      var m := RemoveOne(n, S)[0];
      assert RemoveOne(n, S) == [m];
      IdBagUnfold([m]);
      assert [m][1..] == [];
      match n
      case Element(i, name, a, c) => RemoveBag(c, S);
      case Text(_, _) =>
      case Comment(_, _) =>
    }
  }

  /** An element called `name` that survives removal was one before it and was not removed. */
  lemma {:induction false} RemoveNamed(ns: seq<Node>, S: set<nat>, name: string)
    ensures forall x :: x in ElementsNamed(RemoveSet(ns, S), name) ==> x in ElementsNamed(ns, name) && x !in S
    decreases ns
  {
    if ns != [] {
      ElementsNamedAppend(RemoveOne(ns[0], S), RemoveSet(ns[1..], S), name);
      RemoveNamed(ns[1..], S, name);
      if ns[0].id !in S {
        var m := RemoveOne(ns[0], S)[0];
        assert RemoveOne(ns[0], S) == [m];
        assert [m][1..] == [];
        match ns[0]
        case Element(i, nm, a, c) => RemoveNamed(c, S, name);
        case Text(_, _) =>
        case Comment(_, _) =>
      }
    }
  }

  lemma {:induction false} ElementsNamedAppend(a: seq<Node>, b: seq<Node>, name: string)
    ensures ElementsNamed(a + b, name) == ElementsNamed(a, name) + ElementsNamed(b, name)
  {
    if a == [] {
      assert a + b == b;
    } else {
      ElementsNamedAppend(a[1..], b, name);
      assert (a + b)[0] == a[0];
      assert (a + b)[1..] == a[1..] + b;
      var h := (if IsElementNamed(a[0], name) then [a[0].id] else [])
        + (if a[0].Element? then ElementsNamed(a[0].children, name) else []);
      assert ElementsNamed(a, name) == h + ElementsNamed(a[1..], name);
      assert ElementsNamed(a + b, name) == h + ElementsNamed(a[1..] + b, name);
      AppendAssoc(h, ElementsNamed(a[1..], name), ElementsNamed(b, name));
    }
  }
}

module DomUnwrap {
  import opened Strings
  import opened Dom
  import opened DomEdit

  /** `n` with every element whose identity is in `S` unwrapped: an unwrapped element leaves its children in its place. */
  function UnwrapOne(n: Node, S: set<nat>): seq<Node>
    decreases n
  {
    match n
    case Element(i, name, a, c) => if i in S then UnwrapSet(c, S) else [Element(i, name, a, UnwrapSet(c, S))]
    case Text(_, _) => [n]
    case Comment(_, _) => [n]
  }

  /** Every element whose identity is in `S` is replaced by its own children, outermost first. */
  function UnwrapSet(ns: seq<Node>, S: set<nat>): seq<Node>
    decreases ns
  {
    if ns == [] then [] else UnwrapOne(ns[0], S) + UnwrapSet(ns[1..], S)
  }

  lemma {:induction false} UnwrapAppend(a: seq<Node>, b: seq<Node>, S: set<nat>)
    ensures UnwrapSet(a + b, S) == UnwrapSet(a, S) + UnwrapSet(b, S)
  {
    if a == [] {
      assert a + b == b;
    } else {
      var h := UnwrapOne(a[0], S);
      UnwrapAppend(a[1..], b, S);
      assert (a + b)[0] == a[0];
      assert (a + b)[1..] == a[1..] + b;
      assert UnwrapSet(a + b, S) == h + UnwrapSet(a[1..] + b, S);
      AppendAssoc(h, UnwrapSet(a[1..], S), UnwrapSet(b, S));
    }
  }

  /** Unwrapping creates no element: one called `name` afterwards was one before and was not unwrapped. */
  lemma {:induction false} UnwrapNamed(ns: seq<Node>, S: set<nat>, name: string)
    ensures forall x :: x in ElementsNamed(UnwrapSet(ns, S), name) ==> x in ElementsNamed(ns, name) && x !in S
    decreases ns
  {
    if ns != [] {
      ElementsNamedAppend(UnwrapOne(ns[0], S), UnwrapSet(ns[1..], S), name);
      UnwrapNamed(ns[1..], S, name);
      match ns[0]
      case Element(i, nm, a, c) =>
        UnwrapNamed(c, S, name);
        if i !in S {
          var m := Element(i, nm, a, UnwrapSet(c, S));
          assert [m][1..] == [];
        }
      case Text(_, _) =>
        assert [ns[0]][1..] == [];
      case Comment(_, _) =>
        assert [ns[0]][1..] == [];
    }
  }

  /** Unwrapping `A` and then `B` is unwrapping both at once. */
  lemma {:induction false} UnwrapCompose(ns: seq<Node>, A: set<nat>, B: set<nat>)
    ensures UnwrapSet(UnwrapSet(ns, A), B) == UnwrapSet(ns, A + B)
    decreases ns
  {
    if ns != [] {
      UnwrapAppend(UnwrapOne(ns[0], A), UnwrapSet(ns[1..], A), B);
      UnwrapOneCompose(ns[0], A, B);
      UnwrapCompose(ns[1..], A, B);
    }
  }

  lemma {:induction false} UnwrapOneCompose(n: Node, A: set<nat>, B: set<nat>)
    ensures UnwrapSet(UnwrapOne(n, A), B) == UnwrapOne(n, A + B)
    decreases n
  {
    match n
    case Element(i, name, a, c) =>
      UnwrapCompose(c, A, B);
      if i !in A {
        var m := Element(i, name, a, UnwrapSet(c, A));
        assert UnwrapSet([m], B) == UnwrapOne(m, B) + UnwrapSet([], B) by {
          assert [m][1..] == [];
        }
      }
    case Text(_, _) =>
      assert UnwrapSet([n], B) == UnwrapOne(n, B) + UnwrapSet([], B) by {
        assert [n][1..] == [];
      }
    case Comment(_, _) =>
      assert UnwrapSet([n], B) == UnwrapOne(n, B) + UnwrapSet([], B) by {
        assert [n][1..] == [];
      }
  }

  /** Unwrapping keeps the text of the document: only elements holding nothing but text go. */
  lemma {:induction false} UnwrapText(ns: seq<Node>, S: set<nat>)
    ensures TextOf(UnwrapSet(ns, S)) == TextOf(ns)
    decreases ns
  {
    if ns != [] {
      TextOfAppend(UnwrapOne(ns[0], S), UnwrapSet(ns[1..], S));
      UnwrapOneText(ns[0], S);
      UnwrapText(ns[1..], S);
      assert ns == [ns[0]] + ns[1..];
      TextOfAppend([ns[0]], ns[1..]);
    }
  }

  lemma {:induction false} UnwrapOneText(n: Node, S: set<nat>)
    ensures TextOf(UnwrapOne(n, S)) == TextContent(n)
    decreases n
  {
    assert [n][1..] == [];
    match n
    case Element(i, name, a, c) =>
      UnwrapText(c, S);
      assert TextOf([n]) == TextOf(c) + TextOf([n][1..]);
      if i !in S {
        var m := Element(i, name, a, UnwrapSet(c, S));
        assert [m][1..] == [];
        assert TextOf([m]) == TextOf(UnwrapSet(c, S)) + TextOf([]);
      }
    case Text(_, _) =>
    case Comment(_, _) =>
  }

  /** Unwrapping only drops identities. */
  lemma {:induction false} UnwrapBag(ns: seq<Node>, S: set<nat>)
    ensures IdBag(UnwrapSet(ns, S)) <= IdBag(ns)
    decreases ns
  {
    if ns != [] {
      IdBagUnfold(ns);
      UnwrapBag(ns[1..], S);
      UnwrapOneBag(ns[0], S);
      IdBagAppend(UnwrapOne(ns[0], S), UnwrapSet(ns[1..], S));
    }
  }

  lemma {:induction false} UnwrapOneBag(n: Node, S: set<nat>)
    ensures IdBag(UnwrapOne(n, S)) <= multiset{n.id} + IdBag(Kids(n))
    decreases n
  {
    match n
    case Element(i, name, a, c) =>
      UnwrapBag(c, S);
      if i !in S {
        var m := Element(i, name, a, UnwrapSet(c, S));
        IdBagUnfold([m]);
        assert [m][1..] == [];
      }
    case Text(_, _) =>
      IdBagUnfold([n]);
      assert [n][1..] == [];
    case Comment(_, _) =>
      IdBagUnfold([n]);
      assert [n][1..] == [];
  }

  /** Unwrapping identities the tree lacks changes nothing. */
  lemma {:induction false} UnwrapAbsent(ns: seq<Node>, S: set<nat>)
    requires forall x :: x in S ==> x !in IdBag(ns)
    ensures UnwrapSet(ns, S) == ns
    decreases ns, 1
  {
    if ns != [] {
      AbsentParts(ns, S);
      UnwrapOneAbsent(ns[0], S);
      UnwrapAbsent(ns[1..], S);
      assert UnwrapSet(ns, S) == [ns[0]] + ns[1..];
      assert ns == [ns[0]] + ns[1..];
    }
  }

  lemma {:induction false} UnwrapOneAbsent(n: Node, S: set<nat>)
    requires forall x :: x in S ==> x != n.id && x !in IdBag(Kids(n))
    ensures UnwrapOne(n, S) == [n]
    decreases n, 0
  {
    if n.Element? {
      UnwrapAbsent(n.children, S);
    }
  }

  /**
   * The element `x` after its first `k` children have been moved out in
   * front of it, in order (the unwrapping loop part way through).
   */
  function SplitOne(n: Node, x: nat, k: nat): seq<Node>
    decreases n
  {
    match n
    case Element(i, name, a, c) =>
      if i == x then
        var j := if k < |c| then k else |c|;
        c[..j] + [Element(i, name, a, c[j..])]
      else [Element(i, name, a, SplitAt(c, x, k))]
    case Text(_, _) => [n]
    case Comment(_, _) => [n]
  }

  function SplitAt(ns: seq<Node>, x: nat, k: nat): seq<Node>
    decreases ns
  {
    if ns == [] then [] else SplitOne(ns[0], x, k) + SplitAt(ns[1..], x, k)
  }

  /** `insertBefore($firstChild, $node)` on the element `x`: its first child becomes its previous sibling. */
  function MoveOne(n: Node, x: nat): seq<Node>
    decreases n
  {
    match n
    case Element(i, name, a, c) =>
      if i == x then (if c == [] then [n] else [c[0], Element(i, name, a, c[1..])])
      else [Element(i, name, a, MoveFirstChildOut(c, x))]
    case Text(_, _) => [n]
    case Comment(_, _) => [n]
  }

  function MoveFirstChildOut(ns: seq<Node>, x: nat): seq<Node>
    decreases ns
  {
    if ns == [] then [] else MoveOne(ns[0], x) + MoveFirstChildOut(ns[1..], x)
  }

  lemma {:induction false} MoveAppend(a: seq<Node>, b: seq<Node>, x: nat)
    ensures MoveFirstChildOut(a + b, x) == MoveFirstChildOut(a, x) + MoveFirstChildOut(b, x)
  {
    if a == [] {
      assert a + b == b;
    } else {
      var h := MoveOne(a[0], x);
      MoveAppend(a[1..], b, x);
      assert (a + b)[0] == a[0];
      assert (a + b)[1..] == a[1..] + b;
      assert MoveFirstChildOut(a + b, x) == h + MoveFirstChildOut(a[1..] + b, x);
      AppendAssoc(h, MoveFirstChildOut(a[1..], x), MoveFirstChildOut(b, x));
    }
  }

  /** Nothing has been moved before the loop starts. */
  lemma {:induction false} SplitZero(ns: seq<Node>, x: nat)
    ensures SplitAt(ns, x, 0) == ns
    decreases ns
  {
    if ns != [] {
      SplitZero(ns[1..], x);
      match ns[0]
      case Element(i, name, a, c) =>
        SplitZero(c, x);
        assert c[0..] == c;
      case Text(_, _) =>
      case Comment(_, _) =>
      assert ns == [ns[0]] + ns[1..];
    }
  }

  lemma {:induction false} SplitAbsent(ns: seq<Node>, x: nat, k: nat)
    requires x !in IdBag(ns)
    ensures SplitAt(ns, x, k) == ns
    decreases ns
  {
    if ns != [] {
      IdBagUnfold(ns);
      if ns[0].Element? {
        SplitAbsent(ns[0].children, x, k);
      }
      SplitAbsent(ns[1..], x, k);
      assert ns == [ns[0]] + ns[1..];
    }
  }

  lemma {:induction false} MoveAbsent(ns: seq<Node>, x: nat)
    requires x !in IdBag(ns)
    ensures MoveFirstChildOut(ns, x) == ns
    decreases ns
  {
    if ns != [] {
      IdBagUnfold(ns);
      if ns[0].Element? {
        MoveAbsent(ns[0].children, x);
      }
      MoveAbsent(ns[1..], x);
      assert ns == [ns[0]] + ns[1..];
    }
  }

  lemma PrefixBag(c: seq<Node>, j: nat)
    requires j <= |c|
    ensures IdBag(c[..j]) <= IdBag(c)
  {
    assert c == c[..j] + c[j..];
    IdBagAppend(c[..j], c[j..]);
  }

  lemma SingletonMove(e: Node, x: nat)
    ensures MoveFirstChildOut([e], x) == MoveOne(e, x)
  {
    assert [e][1..] == [];
  }

  lemma SingletonSplit(e: Node, x: nat, k: nat)
    ensures SplitAt([e], x, k) == SplitOne(e, x, k)
  {
    assert [e][1..] == [];
  }

  lemma SingletonRemove(e: Node, S: set<nat>)
    ensures RemoveSet([e], S) == RemoveOne(e, S)
  {
    assert [e][1..] == [];
  }

  lemma SingletonUnwrap(e: Node, S: set<nat>)
    ensures UnwrapSet([e], S) == UnwrapOne(e, S)
  {
    assert [e][1..] == [];
  }

  /** One more turn of the unwrapping loop moves the next child out. */
  lemma {:induction false} MoveStep(ns: seq<Node>, x: nat, k: nat)
    requires Unique(ns)
    ensures MoveFirstChildOut(SplitAt(ns, x, k), x) == SplitAt(ns, x, k + 1)
    decreases ns
  {
    if ns != [] {
      UniqueSplit(ns);
      MoveAppend(SplitOne(ns[0], x, k), SplitAt(ns[1..], x, k), x);
      MoveOneStep(ns[0], x, k);
      MoveStep(ns[1..], x, k);
    }
  }

  lemma {:induction false} MoveOneStep(n: Node, x: nat, k: nat)
    requires Unique(Kids(n)) && n.id !in IdBag(Kids(n))
    ensures MoveFirstChildOut(SplitOne(n, x, k), x) == SplitOne(n, x, k + 1)
    decreases n
  {
    match n
    case Element(i, name, a, c) =>
      if i == x {
        MoveAtTarget(i, name, a, c, k);
      } else {
        MoveStep(c, x, k);
        SingletonMove(Element(i, name, a, SplitAt(c, x, k)), x);
      }
    case Text(_, _) =>
      SingletonMove(n, x);
    case Comment(_, _) =>
      SingletonMove(n, x);
  }

  lemma MoveAtTarget(x: nat, name: string, a: seq<Attr>, c: seq<Node>, k: nat)
    requires x !in IdBag(c)
    ensures MoveFirstChildOut(SplitOne(Element(x, name, a, c), x, k), x) == SplitOne(Element(x, name, a, c), x, k + 1)
  {
    var n := Element(x, name, a, c);
    var j := if k < |c| then k else |c|;
    var e := Element(x, name, a, c[j..]);
    assert SplitOne(n, x, k) == c[..j] + [e];
    MoveBehindPrefix(c, j, e, x);
    if k < |c| {
      var e' := Element(x, name, a, c[j + 1..]);
      assert c[j..][1..] == c[j + 1..];
      assert MoveOne(e, x) == [c[j], e'];
      assert SplitOne(n, x, k + 1) == c[..j + 1] + [e'];
      assert c[..j + 1] == c[..j] + [c[j]];
      AppendAssoc(c[..j], [c[j]], [e']);
    } else {
      assert c[j..] == [];
      assert MoveOne(e, x) == [e];
      assert SplitOne(n, x, k + 1) == c[..j] + [e];
    }
  }

  /** Children already moved out of `x` are left alone by the next move. */
  lemma MoveBehindPrefix(c: seq<Node>, j: nat, e: Node, x: nat)
    requires j <= |c| && x !in IdBag(c)
    ensures MoveFirstChildOut(c[..j] + [e], x) == c[..j] + MoveOne(e, x)
  {
    PrefixBag(c, j);
    MoveAbsent(c[..j], x);
    MoveAppend(c[..j], [e], x);
    SingletonMove(e, x);
  }

  /**
   * When every child has been moved out, removing the emptied element `x`
   * leaves the document with `x` unwrapped.
   */
  lemma {:induction false} SplitFinish(ns: seq<Node>, x: nat, k: nat)
    requires Unique(ns) && FindNode(ns, x).Some? && FindNode(ns, x).value.Element?
    requires |FindNode(ns, x).value.children| <= k
    ensures RemoveSet(SplitAt(ns, x, k), {x}) == UnwrapSet(ns, {x})
    decreases ns, 0
  {
    UniqueSplit(ns);
    IdBagUnfold(ns);
    var rest := ns[1..];
    RemoveAppend(SplitOne(ns[0], x, k), SplitAt(rest, x, k), {x});
    if ns[0].id == x && !ns[0].Element? {
      assert false;
    }
    if ns[0].Element? && (ns[0].id == x || x in IdBag(ns[0].children)) {
      SplitAbsent(rest, x, k);
      RemoveAbsent(rest, {x});
      UnwrapAbsent(rest, {x});
      SplitOneFinish(ns[0].id, ns[0].name, ns[0].attrs, ns[0].children, x, k);
    } else {
      assert x !in IdBag([ns[0]]) by {
        IdBagUnfold([ns[0]]);
        assert [ns[0]][1..] == [];
      }
      assert FindNode(ns, x) == FindNode(rest, x);
      HeadAbsent(ns[0], x, k);
      SplitFinish(rest, x, k);
    }
  }

  lemma HeadAbsent(n: Node, x: nat, k: nat)
    requires x !in IdBag([n])
    ensures SplitOne(n, x, k) == [n] && RemoveOne(n, {x}) == [n] && UnwrapOne(n, {x}) == [n]
  {
    SplitAbsent([n], x, k);
    SingletonSplit(n, x, k);
    RemoveAbsent([n], {x});
    SingletonRemove(n, {x});
    UnwrapAbsent([n], {x});
    SingletonUnwrap(n, {x});
  }

  lemma {:induction false} SplitOneFinish(i: nat, name: string, a: seq<Attr>, c: seq<Node>, x: nat, k: nat)
    requires Unique(c) && i !in IdBag(c) && (i == x || x in IdBag(c))
    requires FindNode([Element(i, name, a, c)], x).value.Element?
    requires |FindNode([Element(i, name, a, c)], x).value.children| <= k
    ensures RemoveSet(SplitOne(Element(i, name, a, c), x, k), {x}) == UnwrapOne(Element(i, name, a, c), {x})
    decreases c, 1
  {
    var n := Element(i, name, a, c);
    if i == x {
      assert FindNode([n], x) == Some(n);
      UnwrapAbsent(c, {x});
      RemoveAbsent(c, {x});
      assert c[..|c|] == c;
      var e := Element(i, name, a, c[|c|..]);
      RemoveAppend(c, [e], {x});
      SingletonRemove(e, {x});
    } else {
      assert FindNode([n], x) == FindNode(c, x);
      SplitFinish(c, x, k);
      SingletonRemove(Element(i, name, a, SplitAt(c, x, k)), {x});
    }
  }

  /** A node `x` that is not an element has nothing to unwrap. */
  lemma {:induction false} UnwrapNonElement(ns: seq<Node>, x: nat)
    requires Unique(ns) && FindNode(ns, x).Some? && !FindNode(ns, x).value.Element?
    ensures UnwrapSet(ns, {x}) == ns
    decreases ns
  {
    UniqueSplit(ns);
    var rest := ns[1..];
    if ns[0].id == x {
      assert UnwrapOne(ns[0], {x}) == [ns[0]];
      UnwrapAbsent(rest, {x});
    } else if ns[0].Element? && x in IdBag(ns[0].children) {
      assert FindNode(ns, x) == FindNode(ns[0].children, x);
      UnwrapNonElement(ns[0].children, x);
      assert UnwrapOne(ns[0], {x}) == [ns[0]];
      UnwrapAbsent(rest, {x});
    } else {
      assert FindNode(ns, x) == FindNode(rest, x);
      UnwrapOneAbsent(ns[0], {x});
      UnwrapNonElement(rest, x);
    }
    UnwrapKeeps(ns, {x});
  }

  lemma UnwrapKeeps(ns: seq<Node>, S: set<nat>)
    requires ns != [] && UnwrapOne(ns[0], S) == [ns[0]] && UnwrapSet(ns[1..], S) == ns[1..]
    ensures UnwrapSet(ns, S) == ns
  {
    assert ns == [ns[0]] + ns[1..];
  }
}

module DomReplace {
  import opened Strings
  import opened Dom
  import opened DomEdit

  /** `createElement('h2')` given the identity `k`, holding one new text node (identity `k + 1`) with `text`. */
  function Heading(k: nat, text: string): (h: Node)
    ensures TextContent(h) == text && IdBag([h]) == multiset{k, k + 1}
  {
    var h := Element(k, "h2", [], [Text(k + 1, text)]);
    assert [h][1..] == [] && [Text(k + 1, text)][1..] == [];
    assert TextOf([h]) == TextOf(h.children) + TextOf([]);
    IdBagUnfold([h]);
    IdBagUnfold(h.children);
    h
  }

  /**
   * `n` with each element whose identity is a key of `made` replaced, outermost
   * first, by the heading `made` gives it: an `h2` holding the element's text.
   */
  function ReplaceOne(n: Node, made: map<nat, nat>): Node
    decreases n
  {
    match n
    case Element(i, name, a, c) =>
      if i in made then Heading(made[i], TextOf(c)) else Element(i, name, a, ReplaceTop(c, made))
    case Text(_, _) => n
    case Comment(_, _) => n
  }

  function ReplaceTop(ns: seq<Node>, made: map<nat, nat>): (r: seq<Node>)
    ensures |r| == |ns|
    decreases ns
  {
    if ns == [] then [] else [ReplaceOne(ns[0], made)] + ReplaceTop(ns[1..], made)
  }

  /** `replaceChild($h, $y)`: the element `y` is replaced by `h`. */
  function ReplaceNodeOne(n: Node, y: nat, h: Node): Node
    decreases n
  {
    match n
    case Element(i, name, a, c) => if i == y then h else Element(i, name, a, ReplaceNode(c, y, h))
    case Text(_, _) => n
    case Comment(_, _) => n
  }

  function ReplaceNode(ns: seq<Node>, y: nat, h: Node): (r: seq<Node>)
    ensures |r| == |ns|
    decreases ns
  {
    if ns == [] then [] else [ReplaceNodeOne(ns[0], y, h)] + ReplaceNode(ns[1..], y, h)
  }

  /** Fresh headings: every identity `made` hands out is at least `b`. */
  predicate FreshFrom(made: map<nat, nat>, b: nat) {
    forall x :: x in made ==> made[x] >= b
  }

  /** Replacing with headings keeps the text of the document. */
  lemma {:induction false} ReplaceTopText(ns: seq<Node>, made: map<nat, nat>)
    ensures TextOf(ReplaceTop(ns, made)) == TextOf(ns)
    decreases ns, 0
  {
    if ns != [] {
      TextOfAppend([ReplaceOne(ns[0], made)], ReplaceTop(ns[1..], made));
      ReplaceOneText(ns[0], made);
      ReplaceTopText(ns[1..], made);
      assert ns == [ns[0]] + ns[1..];
      TextOfAppend([ns[0]], ns[1..]);
    }
  }

  lemma {:induction false} ReplaceOneText(n: Node, made: map<nat, nat>)
    ensures TextContent(ReplaceOne(n, made)) == TextContent(n)
    decreases n, 1
  {
    assert [n][1..] == [];
    match n
    case Element(i, name, a, c) =>
      assert TextOf([n]) == TextOf(c) + TextOf([]);
      if i !in made {
        ReplaceTopText(c, made);
        var e := Element(i, name, a, ReplaceTop(c, made));
        assert [e][1..] == [];
        assert TextOf([e]) == TextOf(ReplaceTop(c, made)) + TextOf([]);
      }
    case Text(_, _) =>
    case Comment(_, _) =>
  }

  /** An identity below the fresh ones appears after replacing only if it appeared before. */
  lemma {:induction false} ReplaceTopAbsent(ns: seq<Node>, made: map<nat, nat>, b: nat, z: nat)
    requires FreshFrom(made, b) && z < b && z !in IdBag(ns)
    ensures z !in IdBag(ReplaceTop(ns, made))
    decreases ns
  {
    if ns != [] {
      IdBagUnfold(ns);
      var r := ReplaceTop(ns, made);
      IdBagUnfold(r);
      ReplaceTopAbsent(ns[1..], made, b, z);
      match ns[0]
      case Element(i, name, a, c) =>
        if i !in made {
          ReplaceTopAbsent(c, made, b, z);
        }
      case Text(_, _) =>
      case Comment(_, _) =>
    }
  }

  /** Keys the tree lacks are never consulted. */
  lemma {:induction false} ReplaceTopIgnore(ns: seq<Node>, made: map<nat, nat>, y: nat, k: nat)
    requires y !in IdBag(ns)
    ensures ReplaceTop(ns, made[y := k]) == ReplaceTop(ns, made)
    decreases ns
  {
    if ns != [] {
      IdBagUnfold(ns);
      ReplaceTopIgnore(ns[1..], made, y, k);
      match ns[0]
      case Element(i, name, a, c) =>
        ReplaceTopIgnore(c, made, y, k);
      case Text(_, _) =>
      case Comment(_, _) =>
    }
  }

  /** With no replacements the tree is unchanged. */
  lemma {:induction false} ReplaceTopNone(ns: seq<Node>)
    ensures ReplaceTop(ns, map[]) == ns
    decreases ns
  {
    if ns != [] {
      ReplaceTopNone(ns[1..]);
      assert ns == [ns[0]] + ns[1..];
      if ns[0].Element? {
        ReplaceTopNone(ns[0].children);
      }
    }
  }

  lemma {:induction false} ReplaceNodeAbsent(ns: seq<Node>, y: nat, h: Node)
    requires y !in IdBag(ns)
    ensures ReplaceNode(ns, y, h) == ns
    decreases ns, 1
  {
    if ns != [] {
      AbsentParts(ns, {y});
      ReplaceNodeOneAbsent(ns[0], y, h);
      ReplaceNodeAbsent(ns[1..], y, h);
      assert ReplaceNode(ns, y, h) == [ns[0]] + ns[1..];
      assert ns == [ns[0]] + ns[1..];
    }
  }

  lemma {:induction false} ReplaceNodeOneAbsent(n: Node, y: nat, h: Node)
    requires y != n.id && y !in IdBag(Kids(n))
    ensures ReplaceNodeOne(n, y, h) == n
    decreases n, 0
  {
    if n.Element? {
      ReplaceNodeAbsent(n.children, y, h);
    }
  }


  /** What replacing does to one node: a heading for a key, otherwise the same identity over replaced children. */
  lemma ReplaceOneShape(n: Node, made: map<nat, nat>)
    ensures n.Element? && n.id in made ==> ReplaceOne(n, made) == Heading(made[n.id], TextOf(n.children))
    ensures !(n.Element? && n.id in made) ==>
      ReplaceOne(n, made).id == n.id && Kids(ReplaceOne(n, made)) == ReplaceTop(Kids(n), made)
      && (n.Element? <==> ReplaceOne(n, made).Element?)
  {
  }

  lemma FindNodeHead(ns: seq<Node>, y: nat)
    requires ns != []
    ensures FindNode(ns, y) ==
      if ns[0].id == y then Some(ns[0])
      else if FindNode(Kids(ns[0]), y).Some? then FindNode(Kids(ns[0]), y)
      else FindNode(ns[1..], y)
  {
  }

  /**
   * A node still found by its identity after the replacements is the image
   * of the node that identity named before them.
   */
  lemma {:induction false} FindThroughReplace(ns: seq<Node>, made: map<nat, nat>, b: nat, y: nat)
    requires Unique(ns) && FreshFrom(made, b) && y < b
    requires FindNode(ReplaceTop(ns, made), y).Some?
    ensures FindNode(ns, y).Some?
    ensures FindNode(ReplaceTop(ns, made), y).value == ReplaceOne(FindNode(ns, y).value, made)
    decreases ns
  {
    var n := ns[0];
    var rest := ns[1..];
    var r := ReplaceTop(ns, made);
    assert r[0] == ReplaceOne(n, made) && r[1..] == ReplaceTop(rest, made);
    FindNodeHead(r, y);
    FindNodeHead(ns, y);
    ReplaceOneShape(n, made);
    UniqueSplit(ns);
    if n.Element? && n.id in made {
      PastHeading(ns, made, b, y);
      FindThroughReplace(rest, made, b, y);
      OccursId(FindNode(rest, y).value, rest);
    } else if n.id == y {
    } else if n.Element? && FindNode(ReplaceTop(n.children, made), y).Some? {
      FindThroughReplace(n.children, made, b, y);
      FindInFirstChildren(ns, y);
      FindInKeptHead(ns, made, y);
      FindCombine(ns, n.children, made, y);
    } else {
      FindThroughReplace(rest, made, b, y);
      OccursId(FindNode(rest, y).value, rest);
    }
  }

  /** Past a heading: its identities are fresh, so the search goes on among the later siblings. */
  lemma PastHeading(ns: seq<Node>, made: map<nat, nat>, b: nat, y: nat)
    requires FreshFrom(made, b) && y < b && ns != []
    requires ns[0].Element? && ns[0].id in made
    ensures FindNode(ReplaceTop(ns, made), y) == FindNode(ReplaceTop(ns[1..], made), y)
  {
    var r := ReplaceTop(ns, made);
    assert r[0] == ReplaceOne(ns[0], made);
    ReplaceOneShape(ns[0], made);
    assert r[1..] == ReplaceTop(ns[1..], made);
    FindPastHead(r, y);
  }


  /** Two searches that agree with two others that correspond correspond too. */
  lemma FindCombine(ns: seq<Node>, c: seq<Node>, made: map<nat, nat>, y: nat)
    requires FindNode(ns, y) == FindNode(c, y)
    requires FindNode(ReplaceTop(ns, made), y) == FindNode(ReplaceTop(c, made), y)
    requires FindNode(ReplaceTop(c, made), y).Some? && FindNode(c, y).Some?
    requires FindNode(ReplaceTop(c, made), y).value == ReplaceOne(FindNode(c, y).value, made)
    ensures FindNode(ns, y).Some?
    ensures FindNode(ReplaceTop(ns, made), y).value == ReplaceOne(FindNode(ns, y).value, made)
  {
  }

  lemma FindInFirstChildren(ns: seq<Node>, y: nat)
    requires ns != [] && ns[0].Element? && ns[0].id != y && FindNode(ns[0].children, y).Some?
    ensures FindNode(ns, y) == FindNode(ns[0].children, y)
  {
    FindNodeHead(ns, y);
  }

  lemma FindInKeptHead(ns: seq<Node>, made: map<nat, nat>, y: nat)
    requires ns != [] && ns[0].Element? && ns[0].id !in made && ns[0].id != y
    requires FindNode(ReplaceTop(ns[0].children, made), y).Some?
    ensures FindNode(ReplaceTop(ns, made), y) == FindNode(ReplaceTop(ns[0].children, made), y)
  {
    var n := ns[0];
    var c := n.children;
    var r := ReplaceTop(ns, made);
    assert r[0] == ReplaceOne(n, made);
    assert r[0] == Element(n.id, n.name, n.attrs, ReplaceTop(c, made));
    FindNodeHead(r, y);
  }

  /** An element replaced in the tree: its identity is no longer found. */
  lemma {:induction false} ReplacedGone(ns: seq<Node>, made: map<nat, nat>, b: nat, y: nat)
    requires Unique(ns) && FreshFrom(made, b) && y < b && y in made
    ensures FindNode(ns, y).Some? && FindNode(ns, y).value.Element? ==> FindNode(ReplaceTop(ns, made), y).None?
  {
    if FindNode(ns, y).Some? && FindNode(ns, y).value.Element? && FindNode(ReplaceTop(ns, made), y).Some? {
      FindThroughReplace(ns, made, b, y);
      assert false;
    }
  }

  lemma SingletonReplaceTop(n: Node, made: map<nat, nat>)
    ensures ReplaceTop([n], made) == [ReplaceOne(n, made)]
  {
    assert [n][1..] == [];
  }

  lemma SingletonReplaceNode(n: Node, y: nat, h: Node)
    ensures ReplaceNode([n], y, h) == [ReplaceNodeOne(n, y, h)]
  {
    assert [n][1..] == [];
  }

  /** A heading hides what was below the element it replaced. */
  lemma HeadingHides(ns: seq<Node>, made: map<nat, nat>, b: nat, y: nat)
    ensures FreshFrom(made, b) && y < b && ns != [] && ns[0].Element? && ns[0].id in made && y !in IdBag(ns[1..])
      ==> FindNode(ReplaceTop(ns, made), y).None?
  {
    if FreshFrom(made, b) && y < b && ns != [] && ns[0].Element? && ns[0].id in made && y !in IdBag(ns[1..]) {
      PastHeading(ns, made, b, y);
      ReplaceTopAbsent(ns[1..], made, b, y);
    }
  }

  /** A node found after the replacements was not itself replaced. */
  lemma FoundNotReplaced(ns: seq<Node>, made: map<nat, nat>, b: nat, y: nat)
    requires Unique(ns) && FreshFrom(made, b) && y < b
    requires FindNode(ReplaceTop(ns, made), y).Some? && FindNode(ns, y).Some? && FindNode(ns, y).value.Element?
    ensures y !in made
  {
    FindThroughReplace(ns, made, b, y);
    ReplaceOneShape(FindNode(ns, y).value, made);
  }

  /**
   * `replaceChild` of a fresh heading for the element `y`, still in the tree,
   * is the same as one more key in the replacement map.
   */
  lemma {:induction false} ReplaceStep(ns: seq<Node>, made: map<nat, nat>, b: nat, y: nat, k: nat, P: Node)
    requires Unique(ns) && FreshFrom(made, b) && y < b && k >= b
    requires FindNode(ns, y) == Some(P) && P.Element?
    requires FindNode(ReplaceTop(ns, made), y).Some?
    ensures ReplaceNode(ReplaceTop(ns, made), y, Heading(k, TextOf(P.children))) == ReplaceTop(ns, made[y := k])
    decreases ns
  {
    FoundNotReplaced(ns, made, b, y);
    var h := Heading(k, TextOf(P.children));
    var n := ns[0];
    var rest := ns[1..];
    UniqueSplit(ns);
    IdBagUnfold(ns);
    if y in IdBag(rest) {
      SingleBag(n, y);
      UntouchedHead(n, made, b, y, k, h);
      PastKeptHead(ns, made, b, y);
      FindPastHead(ns, y);
      ReplaceStep(rest, made, b, y, k, P);
    } else {
      UntouchedRest(rest, made, b, y, k, h);
      HeadFacts(ns, made, b, y, P);
      if n.id == y {
        ReplaceAtTarget(n, made, k);
      } else {
        ReplaceStep(n.children, made, b, y, k, P);
        KeptHeadStep(n, made, y, k, h);
      }
    }
    ConsStep(ns, made, y, k, h);
  }

  /** When `y` is in the first tree and not after it, the first tree is a kept element holding it, or is `y`. */
  lemma HeadFacts(ns: seq<Node>, made: map<nat, nat>, b: nat, y: nat, P: Node)
    requires FreshFrom(made, b) && y < b && ns != [] && y !in made && y !in IdBag(ns[1..])
    requires FindNode(ns, y) == Some(P) && P.Element?
    requires FindNode(ReplaceTop(ns, made), y).Some?
    ensures ns[0].Element? && ns[0].id !in made
    ensures ns[0].id == y ==> P == ns[0]
    ensures ns[0].id != y ==> FindNode(ns[0].children, y) == Some(P) && FindNode(ReplaceTop(ns[0].children, made), y).Some?
  {
    HeadIsElement(ns, y, P);
    HeadingHides(ns, made, b, y);
    if ns[0].id != y {
      FindInFirstChildren(ns, y);
      ReplaceTopAbsent(ns[1..], made, b, y);
      SearchKeptHead(ns, made, y);
    }
  }

  lemma HeadIsElement(ns: seq<Node>, y: nat, P: Node)
    requires ns != [] && y !in IdBag(ns[1..]) && FindNode(ns, y) == Some(P) && P.Element?
    ensures ns[0].Element?
    ensures ns[0].id == y ==> P == ns[0]
    ensures ns[0].id != y ==> FindNode(ns[0].children, y).Some?
  {
    FindNodeHead(ns, y);
  }

  lemma SearchKeptHead(ns: seq<Node>, made: map<nat, nat>, y: nat)
    requires ns != [] && ns[0].Element? && ns[0].id !in made && ns[0].id != y
    requires y !in IdBag(ReplaceTop(ns[1..], made))
    requires FindNode(ReplaceTop(ns, made), y).Some?
    ensures FindNode(ReplaceTop(ns[0].children, made), y).Some?
  {
    var n := ns[0];
    var r := ReplaceTop(ns, made);
    assert r[0] == ReplaceOne(n, made);
    assert r[0] == Element(n.id, n.name, n.attrs, ReplaceTop(n.children, made));
    assert r[1..] == ReplaceTop(ns[1..], made);
    FindNodeHead(r, y);
  }

  lemma ConsStep(ns: seq<Node>, made: map<nat, nat>, y: nat, k: nat, h: Node)
    requires ns != []
    requires ReplaceNodeOne(ReplaceOne(ns[0], made), y, h) == ReplaceOne(ns[0], made[y := k])
    requires ReplaceNode(ReplaceTop(ns[1..], made), y, h) == ReplaceTop(ns[1..], made[y := k])
    ensures ReplaceNode(ReplaceTop(ns, made), y, h) == ReplaceTop(ns, made[y := k])
  {
    var r := ReplaceTop(ns, made);
    assert r == [ReplaceOne(ns[0], made)] + ReplaceTop(ns[1..], made);
    assert r[0] == ReplaceOne(ns[0], made) && r[1..] == ReplaceTop(ns[1..], made);
  }

  lemma SingleBag(n: Node, y: nat)
    requires y != n.id && y !in IdBag(Kids(n))
    ensures y !in IdBag([n])
  {
    IdBagUnfold([n]);
    assert [n][1..] == [];
  }

  lemma FindPastHead(ns: seq<Node>, y: nat)
    requires ns != [] && y !in IdBag([ns[0]])
    ensures FindNode(ns, y) == FindNode(ns[1..], y)
  {
    FindNodeHead(ns, y);
    FindNodeHead([ns[0]], y);
    assert [ns[0]][1..] == [];
  }

  lemma UntouchedHead(n: Node, made: map<nat, nat>, b: nat, y: nat, k: nat, h: Node)
    requires FreshFrom(made, b) && y < b && y !in IdBag([n])
    ensures ReplaceNodeOne(ReplaceOne(n, made), y, h) == ReplaceOne(n, made[y := k])
  {
    ReplaceTopAbsent([n], made, b, y);
    SingletonReplaceTop(n, made);
    ReplaceNodeAbsent([ReplaceOne(n, made)], y, h);
    SingletonReplaceNode(ReplaceOne(n, made), y, h);
    ReplaceTopIgnore([n], made, y, k);
    SingletonReplaceTop(n, made[y := k]);
  }

  lemma UntouchedRest(rest: seq<Node>, made: map<nat, nat>, b: nat, y: nat, k: nat, h: Node)
    requires FreshFrom(made, b) && y < b && y !in IdBag(rest)
    ensures ReplaceNode(ReplaceTop(rest, made), y, h) == ReplaceTop(rest, made[y := k])
  {
    ReplaceTopAbsent(rest, made, b, y);
    ReplaceNodeAbsent(ReplaceTop(rest, made), y, h);
    ReplaceTopIgnore(rest, made, y, k);
  }

  lemma KeptHeadStep(n: Node, made: map<nat, nat>, y: nat, k: nat, h: Node)
    requires n.Element? && n.id !in made && n.id != y
    requires ReplaceNode(ReplaceTop(n.children, made), y, h) == ReplaceTop(n.children, made[y := k])
    ensures ReplaceNodeOne(ReplaceOne(n, made), y, h) == ReplaceOne(n, made[y := k])
  {
  }

  lemma PastKeptHead(ns: seq<Node>, made: map<nat, nat>, b: nat, y: nat)
    requires FreshFrom(made, b) && y < b && ns != [] && y !in IdBag([ns[0]])
    requires FindNode(ReplaceTop(ns, made), y).Some?
    ensures FindNode(ReplaceTop(ns[1..], made), y).Some?
  {
    ReplaceTopAbsent([ns[0]], made, b, y);
    SingletonReplaceTop(ns[0], made);
    var r := ReplaceTop(ns, made);
    assert r[0] == ReplaceOne(ns[0], made);
    assert r[1..] == ReplaceTop(ns[1..], made);
    FindNodeHead(r, y);
    FindNodeHead([r[0]], y);
    assert FindNode([r[0]], y).None?;
  }

  lemma ReplaceAtTarget(n: Node, made: map<nat, nat>, k: nat)
    requires n.Element? && n.id !in made
    ensures ReplaceNodeOne(ReplaceOne(n, made), n.id, Heading(k, TextOf(n.children))) == ReplaceOne(n, made[n.id := k])
  {
  }

  /** `replaceChild` of a node that occurs once brings in the identities of the new node and drops some. */
  lemma {:induction false} ReplaceNodeBag(ns: seq<Node>, y: nat, h: Node)
    requires Unique(ns)
    ensures IdBag(ReplaceNode(ns, y, h)) <= IdBag(ns) + IdBag([h])
    decreases ns, 0
  {
    if ns != [] {
      var n := ns[0];
      var rest := ns[1..];
      UniqueSplit(ns);
      IdBagUnfold(ns);
      var r := ReplaceNode(ns, y, h);
      assert r == [ReplaceNodeOne(n, y, h)] + ReplaceNode(rest, y, h);
      IdBagAppend([ReplaceNodeOne(n, y, h)], ReplaceNode(rest, y, h));
      IdBagUnfold([n]);
      assert [n][1..] == [];
      if y in IdBag(rest) {
        ReplaceNodeAbsent([n], y, h);
        SingletonReplaceNode(n, y, h);
        ReplaceNodeBag(rest, y, h);
      } else {
        ReplaceNodeAbsent(rest, y, h);
        ReplaceNodeOneBag(n, y, h);
      }
    }
  }

  lemma {:induction false} ReplaceNodeOneBag(n: Node, y: nat, h: Node)
    requires Unique(Kids(n))
    ensures IdBag([ReplaceNodeOne(n, y, h)]) <= IdBag([n]) + IdBag([h])
    decreases n, 1
  {
    var m := ReplaceNodeOne(n, y, h);
    IdBagUnfold([n]);
    IdBagUnfold([m]);
    assert [n][1..] == [] && [m][1..] == [];
    match n
    case Element(i, name, a, c) =>
      if i != y {
        ReplaceNodeBag(c, y, h);
        assert Kids(m) == ReplaceNode(c, y, h);
      }
    case Text(_, _) =>
    case Comment(_, _) =>
  }

  /** Replacing a node by a fresh heading keeps every identity single and below the new bound. */
  lemma ReplaceKeepsValid(ns: seq<Node>, y: nat, k: nat, text: string)
    requires Unique(ns) && Below(ns, k)
    ensures Unique(ReplaceNode(ns, y, Heading(k, text))) && Below(ReplaceNode(ns, y, Heading(k, text)), k + 2)
  {
    var h := Heading(k, text);
    var r := ReplaceNode(ns, y, h);
    ReplaceNodeBag(ns, y, h);
    forall z | z in IdBag(r) ensures IdBag(r)[z] == 1 && z < k + 2 {
      assert IdBag(r)[z] <= IdBag(ns)[z] + IdBag([h])[z];
      if z in IdBag(ns) {
        assert z < k;
        assert IdBag([h])[z] == 0;
      }
    }
  }

  /** An element not called `h2` after replacing was there before, and was not replaced. */
  lemma {:induction false} ReplaceNamed(ns: seq<Node>, made: map<nat, nat>, name: string)
    requires name != "h2"
    ensures forall z :: z in ElementsNamed(ReplaceTop(ns, made), name) ==> z in ElementsNamed(ns, name) && z !in made
    decreases ns, 0
  {
    if ns != [] {
      var r := ReplaceTop(ns, made);
      assert r == [ReplaceOne(ns[0], made)] + ReplaceTop(ns[1..], made);
      ElementsNamedAppend([ReplaceOne(ns[0], made)], ReplaceTop(ns[1..], made), name);
      ReplaceNamed(ns[1..], made, name);
      ReplaceOneNamed(ns[0], made, name);
      assert ns == [ns[0]] + ns[1..];
      ElementsNamedAppend([ns[0]], ns[1..], name);
    }
  }

  lemma {:induction false} ReplaceOneNamed(n: Node, made: map<nat, nat>, name: string)
    requires name != "h2"
    ensures forall z :: z in ElementsNamed([ReplaceOne(n, made)], name) ==>
      z in ElementsNamed([n], name) && z !in made
    decreases n, 1
  {
    var m := ReplaceOne(n, made);
    assert [m][1..] == [] && [n][1..] == [];
    match n
    case Element(i, nm, a, c) =>
      if i in made {
        var k := made[i];
        assert m == Element(k, "h2", [], [Text(k + 1, TextOf(c))]);
        assert [Text(k + 1, TextOf(c))][1..] == [];
        assert ElementsNamed(m.children, name) == [];
      } else {
        ReplaceNamed(c, made, name);
      }
    case Text(_, _) =>
    case Comment(_, _) =>
  }

  /** Replacing keeps a node a text node exactly when it was one. */
  lemma ReplaceOneKind(n: Node, made: map<nat, nat>)
    ensures ReplaceOne(n, made).Text? <==> n.Text?
  {
  }

  /** The child `y` of siblings, looked up after replacing, is the replaced child (when `y` is kept). */
  lemma {:induction false} ChildByIdReplace(cs: seq<Node>, made: map<nat, nat>, b: nat, y: nat, S: Node)
    requires FreshFrom(made, b) && y < b && ChildById(cs, y) == Some(S) && !(S.Element? && y in made)
    ensures ChildById(ReplaceTop(cs, made), y) == Some(ReplaceOne(S, made))
  {
    var r := ReplaceTop(cs, made);
    assert r[0] == ReplaceOne(cs[0], made);
    ReplaceOneShape(cs[0], made);
    if cs[0].id != y {
      assert r[0].id != y;
      assert r[1..] == ReplaceTop(cs[1..], made);
      ChildByIdReplace(cs[1..], made, b, y, S);
    }
  }
}
