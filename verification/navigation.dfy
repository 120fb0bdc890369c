/** Finding the active node of the category tree and the highlighting queries. */
module Navigation {
  import opened Wrappers
  import opened Catalog

  /** First node with id `activeId`, searching the list in order and, for each
      entry that is not itself the one, its subcategories before later entries. */
  function FindActive(activeId: string, categories: seq<Node>): Option<Node>
    decreases categories
  {
    if |categories| == 0 then None
    else
      var found := FindInNode(activeId, categories[0]);
      if found.Some? then found else FindActive(activeId, categories[1..])
  }

  function FindInNode(activeId: string, n: Node): Option<Node>
    decreases n, 1
  {
    if n.id == activeId then Some(n)
    else match n.subcategories
      case Absent => None
      case Present(cs) => FindAmongChildren(activeId, cs)
  }

  /** The same search over a keyed child collection. */
  function FindAmongChildren(activeId: string, cs: seq<Child>): Option<Node>
    decreases cs, 0
  {
    if |cs| == 0 then None
    else
      var found := FindInNode(activeId, cs[0].node);
      if found.Some? then found else FindAmongChildren(activeId, cs[1..])
  }

  /** Pre-order listing of a forest: each node before its subcategories, and an
      entry's whole subtree before the next entry. */
  function PreOrder(ns: seq<Node>): seq<Node>
    decreases ns
  {
    if |ns| == 0 then [] else PreOrderNode(ns[0]) + PreOrder(ns[1..])
  }

  function PreOrderNode(n: Node): seq<Node>
    decreases n, 1
  {
    match n.subcategories
    case Absent => [n]
    case Present(cs) => [n] + PreOrderChildren(cs)
  }

  function PreOrderChildren(cs: seq<Child>): seq<Node>
    decreases cs, 0
  {
    if |cs| == 0 then [] else PreOrderNode(cs[0].node) + PreOrderChildren(cs[1..])
  }

  /** `x` is one of the entries of `ns` or lies below one of them. */
  ghost predicate InTree(ns: seq<Node>, x: Node)
  {
    exists i :: 0 <= i < |ns| && (ns[i] == x || IsProperDescendant(x, ns[i]))
  }

  /** The first element of a flat sequence with the given id. */
  function FirstWithId(s: seq<Node>, activeId: string): (r: Option<Node>)
    ensures r.None? <==> forall k :: 0 <= k < |s| ==> s[k].id != activeId
    ensures r.Some? ==> exists k :: (0 <= k < |s| && s[k] == r.value && s[k].id == activeId
      && forall p :: 0 <= p < k ==> s[p].id != activeId)
  {
    if |s| == 0 then None
    else if s[0].id == activeId then Some(s[0])
    else
      var r := FirstWithId(s[1..], activeId);
      assert forall k :: 0 < k < |s| ==> s[k] == s[1..][k - 1];
      r
  }

  lemma {:induction false} FirstWithIdAppend(s: seq<Node>, t: seq<Node>, activeId: string)
    ensures FirstWithId(s + t, activeId) ==
      if FirstWithId(s, activeId).Some? then FirstWithId(s, activeId) else FirstWithId(t, activeId)
    decreases |s|
  {
    if |s| == 0 {
      assert s + t == t;
    } else {
      assert (s + t)[0] == s[0];
      assert (s + t)[1..] == s[1..] + t;
      FirstWithIdAppend(s[1..], t, activeId);
    }
  }

  lemma {:induction false} FindInNodeIsFirst(activeId: string, n: Node)
    ensures FindInNode(activeId, n) == FirstWithId(PreOrderNode(n), activeId)
    decreases n, 1
  {
    match n.subcategories
    case Absent =>
    case Present(cs) =>
      FindAmongChildrenIsFirst(activeId, cs);
      FirstWithIdAppend([n], PreOrderChildren(cs), activeId);
  }

  lemma {:induction false} FindAmongChildrenIsFirst(activeId: string, cs: seq<Child>)
    ensures FindAmongChildren(activeId, cs) == FirstWithId(PreOrderChildren(cs), activeId)
    decreases cs, 0
  {
    if |cs| > 0 {
      FindInNodeIsFirst(activeId, cs[0].node);
      FindAmongChildrenIsFirst(activeId, cs[1..]);
      FirstWithIdAppend(PreOrderNode(cs[0].node), PreOrderChildren(cs[1..]), activeId);
    }
  }

  lemma {:induction false} FindActiveIsFirst(activeId: string, ns: seq<Node>)
    ensures FindActive(activeId, ns) == FirstWithId(PreOrder(ns), activeId)
    decreases ns
  {
    if |ns| > 0 {
      FindInNodeIsFirst(activeId, ns[0]);
      FindActiveIsFirst(activeId, ns[1..]);
      FirstWithIdAppend(PreOrderNode(ns[0]), PreOrder(ns[1..]), activeId);
    }
  }

  /** The pre-order listing holds exactly the nodes of the tree. */
  lemma {:induction false} PreOrderNodeMembers(n: Node, x: Node)
    ensures x in PreOrderNode(n) <==> x == n || IsProperDescendant(x, n)
    decreases n, 1
  {
    match n.subcategories
    case Absent =>
    case Present(cs) => PreOrderChildrenMembers(cs, x);
  }

  lemma {:induction false} PreOrderChildrenMembers(cs: seq<Child>, x: Node)
    ensures x in PreOrderChildren(cs) <==>
      exists i :: 0 <= i < |cs| && (cs[i].node == x || IsProperDescendant(x, cs[i].node))
    decreases cs, 0
  {
    if |cs| > 0 {
      PreOrderNodeMembers(cs[0].node, x);
      PreOrderChildrenMembers(cs[1..], x);
      if exists i :: 0 <= i < |cs| && (cs[i].node == x || IsProperDescendant(x, cs[i].node)) {
        var i :| 0 <= i < |cs| && (cs[i].node == x || IsProperDescendant(x, cs[i].node));
        if i > 0 {
          assert cs[1..][i - 1] == cs[i];
        }
      }
      if exists i :: (0 <= i < |cs[1..]| && (cs[1..][i].node == x || IsProperDescendant(x, cs[1..][i].node))) {
        var i :| 0 <= i < |cs[1..]| && (cs[1..][i].node == x || IsProperDescendant(x, cs[1..][i].node));
        assert cs[1..][i] == cs[i + 1];
      }
    }
  }

  lemma {:induction false} PreOrderMembers(ns: seq<Node>, x: Node)
    ensures x in PreOrder(ns) <==> InTree(ns, x)
    decreases ns
  {
    if |ns| > 0 {
      PreOrderNodeMembers(ns[0], x);
      PreOrderMembers(ns[1..], x);
      if InTree(ns, x) {
        var i :| 0 <= i < |ns| && (ns[i] == x || IsProperDescendant(x, ns[i]));
        if i > 0 {
          assert ns[1..][i - 1] == ns[i];
        }
      }
      if InTree(ns[1..], x) {
        var i :| 0 <= i < |ns[1..]| && (ns[1..][i] == x || IsProperDescendant(x, ns[1..][i]));
        assert ns[1..][i] == ns[i + 1];
      }
    }
  }

  /** The search returns the first node of the pre-order listing with that id,
      and nothing exactly when no node has it. */
  lemma FindActiveIsFirstInPreOrder(activeId: string, categories: seq<Node>)
    ensures var po := PreOrder(categories);
      FindActive(activeId, categories).None? <==> forall k :: 0 <= k < |po| ==> po[k].id != activeId
    ensures var po := PreOrder(categories); var r := FindActive(activeId, categories);
      r.Some? ==> exists k :: (0 <= k < |po| && po[k] == r.value && po[k].id == activeId
        && forall p :: 0 <= p < k ==> po[p].id != activeId)
  {
    FindActiveIsFirst(activeId, categories);
  }

  /** Absence: nothing is found exactly when no node anywhere in the tree has the
      id; what is found is a node of the tree with that id. */
  lemma FindActiveInTree(activeId: string, categories: seq<Node>)
    ensures FindActive(activeId, categories).None? <==>
      forall x :: InTree(categories, x) ==> x.id != activeId
    ensures FindActive(activeId, categories).Some? ==>
      InTree(categories, FindActive(activeId, categories).value)
      && FindActive(activeId, categories).value.id == activeId
  {
    var po := PreOrder(categories);
    FindActiveIsFirstInPreOrder(activeId, categories);
    if FindActive(activeId, categories).None? {
      forall x | InTree(categories, x) ensures x.id != activeId {
        PreOrderMembers(categories, x);
      }
    } else {
      var x := FindActive(activeId, categories).value;
      PreOrderMembers(categories, x);
    }
  }

  /** With a unique node carrying the id, that node is what is found. */
  lemma FindActiveUnique(activeId: string, categories: seq<Node>, x: Node)
    requires InTree(categories, x) && x.id == activeId
    requires forall y :: InTree(categories, y) && y.id == activeId ==> y == x
    ensures FindActive(activeId, categories) == Some(x)
  {
    FindActiveInTree(activeId, categories);
  }

  /** `activeId` is an own key of the child collection. */
  predicate HasKey(cs: seq<Child>, activeId: string)
  {
    exists i :: 0 <= i < |cs| && cs[i].key == activeId
  }

  /** Shallow check: `activeId` is a key of the node's own child collection. */
  predicate IsActiveTab(activeId: string, n: Node)
  {
    match n.subcategories
    case Absent => false
    case Present(cs) => HasKey(cs, activeId)
  }

  /** `activeId` is a key of the child collection of the node or of some node below it. */
  predicate HasActiveDescendant(activeId: string, n: Node)
    decreases n, 1
  {
    match n.subcategories
    case Absent => false
    case Present(cs) => HasKey(cs, activeId) || SomeChildHas(activeId, cs)
  }

  predicate SomeChildHas(activeId: string, cs: seq<Child>)
    decreases cs, 0
  {
    |cs| > 0 && (HasActiveDescendant(activeId, cs[0].node) || SomeChildHas(activeId, cs[1..]))
  }

  lemma {:induction false} SomeChildHasIff(activeId: string, cs: seq<Child>)
    ensures SomeChildHas(activeId, cs) <==>
      exists i :: 0 <= i < |cs| && HasActiveDescendant(activeId, cs[i].node)
    decreases |cs|
  {
    if |cs| > 0 {
      SomeChildHasIff(activeId, cs[1..]);
      if exists i :: 0 <= i < |cs| && HasActiveDescendant(activeId, cs[i].node) {
        var i :| 0 <= i < |cs| && HasActiveDescendant(activeId, cs[i].node);
        if i > 0 {
          assert cs[1..][i - 1] == cs[i];
        }
      }
      if exists i :: 0 <= i < |cs[1..]| && HasActiveDescendant(activeId, cs[1..][i].node) {
        var i :| 0 <= i < |cs[1..]| && HasActiveDescendant(activeId, cs[1..][i].node);
        assert cs[1..][i] == cs[i + 1];
      }
    }
  }

  /** The recursive query is the key check applied to the node and to every node below it. */
  lemma {:induction false} HasActiveDescendantIff(activeId: string, n: Node)
    ensures HasActiveDescendant(activeId, n) <==>
      IsActiveTab(activeId, n) || exists d :: IsProperDescendant(d, n) && IsActiveTab(activeId, d)
    decreases n
  {
    match n.subcategories
    case Absent =>
    case Present(cs) =>
      SomeChildHasIff(activeId, cs);
      forall i | 0 <= i < |cs| {
        HasActiveDescendantIff(activeId, cs[i].node);
      }
      if exists d :: IsProperDescendant(d, n) && IsActiveTab(activeId, d) {
        var d :| IsProperDescendant(d, n) && IsActiveTab(activeId, d);
        var i :| 0 <= i < |cs| && (cs[i].node == d || IsProperDescendant(d, cs[i].node));
        assert HasActiveDescendant(activeId, cs[i].node);
      }
      if SomeChildHas(activeId, cs) {
        var i :| 0 <= i < |cs| && HasActiveDescendant(activeId, cs[i].node);
        if !IsActiveTab(activeId, cs[i].node) {
          var d :| IsProperDescendant(d, cs[i].node) && IsActiveTab(activeId, d);
          assert IsProperDescendant(d, n);
        }
      }
  }

  /** A shallow hit is also a deep hit; a node without a child collection has neither. */
  lemma ActiveTabImpliesDescendant(activeId: string, n: Node)
    ensures IsActiveTab(activeId, n) ==> HasActiveDescendant(activeId, n)
    ensures n.subcategories.Absent? ==> !HasActiveDescendant(activeId, n) && !IsActiveTab(activeId, n)
  {
  }

  /** Every child is keyed by its own id, all the way down. */
  predicate WellKeyed(n: Node)
    decreases n
  {
    match n.subcategories
    case Absent => true
    case Present(cs) => forall i :: 0 <= i < |cs| ==> cs[i].key == cs[i].node.id && WellKeyed(cs[i].node)
  }

  /** When keys are the children's ids, the shallow check asks whether some child has the id. */
  lemma WellKeyedActiveTab(activeId: string, n: Node)
    requires WellKeyed(n)
    ensures IsActiveTab(activeId, n) <==>
      n.subcategories.Present? && exists i :: 0 <= i < |n.subcategories.list| && n.subcategories.list[i].node.id == activeId
  {
  }

  /** When keys are the children's ids, the deep query asks whether some proper
      descendant has the id. */
  lemma {:induction false} WellKeyedActiveDescendant(activeId: string, n: Node)
    requires WellKeyed(n)
    ensures HasActiveDescendant(activeId, n) <==> exists d :: IsProperDescendant(d, n) && d.id == activeId
    decreases n
  {
    match n.subcategories
    case Absent =>
    case Present(cs) =>
      SomeChildHasIff(activeId, cs);
      forall i | 0 <= i < |cs| {
        WellKeyedActiveDescendant(activeId, cs[i].node);
      }
      if exists d :: IsProperDescendant(d, n) && d.id == activeId {
        var d :| IsProperDescendant(d, n) && d.id == activeId;
        var i :| 0 <= i < |cs| && (cs[i].node == d || IsProperDescendant(d, cs[i].node));
        if cs[i].node == d {
          assert HasKey(cs, activeId);
        } else {
          assert HasActiveDescendant(activeId, cs[i].node);
        }
      }
      if HasKey(cs, activeId) {
        var i :| 0 <= i < |cs| && cs[i].key == activeId;
        assert IsProperDescendant(cs[i].node, n);
      }
      if SomeChildHas(activeId, cs) {
        var i :| 0 <= i < |cs| && HasActiveDescendant(activeId, cs[i].node);
        var d :| IsProperDescendant(d, cs[i].node) && d.id == activeId;
        assert IsProperDescendant(d, n);
      }
  }
}
