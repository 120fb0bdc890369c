/** Resolving which nodes of a category subtree match an item. */
module Matching {
  import opened Wrappers
  import opened Catalog

  /** The nodes of the subtree of `n` that match `item`.
      A node without a child collection is tested on its own tags; a node with
      one, even an empty one, is never tested itself. Each child whose tags meet
      the item is emitted, followed by the matches of its own subtree; a child
      whose tags do not meet the item is skipped together with its subtree. */
  function Match(n: Node, item: Item): seq<Node>
    requires Evaluable(n, item)
    decreases n
  {
    match n.subcategories
    case Absent =>
      if n.tags.None? then []
      else if Meets(n.tags.value, item) then [n]
      else []
    case Present(cs) => MatchChildren(cs, item)
  }

  /** Concatenation, in child order, of each gating child followed by its subtree's matches. */
  function MatchChildren(cs: seq<Child>, item: Item): seq<Node>
    requires ChildrenEvaluable(cs, item)
    decreases cs
  {
    if |cs| == 0 then [] else Contribution(cs[0], item) + MatchChildren(cs[1..], item)
  }

  /** What one child adds: itself and its subtree's matches when its tags meet the
      item, nothing otherwise. */
  function Contribution(c: Child, item: Item): seq<Node>
    requires Gates(c, item) ==> Evaluable(c.node, item)
    decreases c
  {
    if Gates(c, item) then [c.node] + Match(c.node, item) else []
  }

  /** Declarative reading of a match: `x` is reached from `n` along a path of
      children whose tags all meet the item, or `n` is a leaf whose own tags meet it. */
  predicate Reaches(n: Node, x: Node, item: Item)
    decreases n
  {
    match n.subcategories
    case Absent => x == n && n.tags.Some? && Meets(n.tags.value, item)
    case Present(cs) => ReachesVia(cs, x, item)
  }

  /** Membership in the result is exactly reachability along a gated path. */
  lemma {:induction false} MatchMembership(n: Node, x: Node, item: Item)
    requires Evaluable(n, item)
    ensures x in Match(n, item) <==> Reaches(n, x, item)
    decreases n, 1
  {
    match n.subcategories
    case Absent =>
    case Present(cs) => MatchChildrenMembership(cs, x, item);
  }

  lemma {:induction false} MatchChildrenMembership(cs: seq<Child>, x: Node, item: Item)
    requires ChildrenEvaluable(cs, item)
    ensures x in MatchChildren(cs, item) <==> ReachesVia(cs, x, item)
    decreases cs, 0
  {
    if |cs| > 0 {
      if Gates(cs[0], item) {
        MatchMembership(cs[0].node, x, item);
      }
      MatchChildrenMembership(cs[1..], x, item);
      ReachesViaSplit(cs, x, item);
    }
  }

  /** `x` is reached through one of the children `cs`. */
  predicate ReachesVia(cs: seq<Child>, x: Node, item: Item)
  {
    exists i :: 0 <= i < |cs| && Gates(cs[i], item) && (x == cs[i].node || Reaches(cs[i].node, x, item))
  }

  lemma ReachesViaSplit(cs: seq<Child>, x: Node, item: Item)
    requires |cs| > 0
    ensures ReachesVia(cs, x, item) <==>
      (Gates(cs[0], item) && (x == cs[0].node || Reaches(cs[0].node, x, item))) || ReachesVia(cs[1..], x, item)
  {
  }

  /** Whatever is reached has tags meeting the item and is the start node itself
      (when it has no child collection) or lies below it. */
  lemma {:induction false} ReachesSound(n: Node, x: Node, item: Item)
    requires Reaches(n, x, item)
    ensures x.tags.Some? && Meets(x.tags.value, item)
    ensures (x == n && n.subcategories.Absent?) || IsProperDescendant(x, n)
    decreases n
  {
    match n.subcategories
    case Absent =>
    case Present(cs) =>
      var i :| 0 <= i < |cs| && Gates(cs[i], item) && (x == cs[i].node || Reaches(cs[i].node, x, item));
      if x != cs[i].node {
        ReachesSound(cs[i].node, x, item);
      }
  }

  /** Soundness: every returned node has tags meeting the item's tags, and it is the
      argument itself only when the argument has no child collection; otherwise it
      is a proper descendant. */
  lemma MatchSound(n: Node, item: Item)
    requires Evaluable(n, item)
    ensures forall x :: x in Match(n, item) ==> x.tags.Some? && Meets(x.tags.value, item)
    ensures forall x :: x in Match(n, item) ==>
      (x == n && n.subcategories.Absent?) || IsProperDescendant(x, n)
  {
    forall x | x in Match(n, item)
      ensures x.tags.Some? && Meets(x.tags.value, item)
      ensures (x == n && n.subcategories.Absent?) || IsProperDescendant(x, n)
    {
      MatchMembership(n, x, item);
      ReachesSound(n, x, item);
    }
  }

  /** Leaf case: a node without a child collection yields itself exactly when it
      has tags and one of them is among the item's tags, and nothing otherwise. */
  lemma LeafCase(n: Node, item: Item)
    requires n.subcategories.Absent?
    ensures Match(n, item) == [n] <==>
      n.tags.Some? && exists t :: t in n.tags.value && t in ItemTags(item)
    ensures Match(n, item) != [n] ==> Match(n, item) == []
  {
    if n.tags.Some? && exists t :: t in n.tags.value && t in ItemTags(item) {
      var t :| t in n.tags.value && t in ItemTags(item);
      assert t in Intersection(n.tags.value, ItemTags(item));
    }
    if Match(n, item) == [n] {
      var common := Intersection(n.tags.value, ItemTags(item));
      assert common[0] in common;
    }
  }

  /** A node that has a child collection, even an empty one, is never in its own result. */
  lemma InnerNodeNotInOwnResult(n: Node, item: Item)
    requires Evaluable(n, item)
    requires n.subcategories.Present?
    ensures n !in Match(n, item)
  {
    MatchSound(n, item);
    NotOwnDescendant(n);
  }

  /** The children's matches distribute over concatenation of the child sequence. */
  lemma {:induction false} MatchChildrenAppend(a: seq<Child>, b: seq<Child>, item: Item)
    requires ChildrenEvaluable(a, item) && ChildrenEvaluable(b, item)
    ensures ChildrenEvaluable(a + b, item)
    ensures MatchChildren(a + b, item) == MatchChildren(a, item) + MatchChildren(b, item)
    decreases |a|
  {
    AppendEvaluable(a, b, item);
    if |a| == 0 {
      assert a + b == b;
    } else {
      var ab := a + b;
      assert ab[0] == a[0];
      assert ab[1..] == a[1..] + b;
      AppendEvaluable(a[1..], b, item);
      MatchChildrenAppend(a[1..], b, item);
    }
  }

  lemma AppendEvaluable(a: seq<Child>, b: seq<Child>, item: Item)
    requires ChildrenEvaluable(a, item) && ChildrenEvaluable(b, item)
    ensures ChildrenEvaluable(a + b, item)
  {
  }

  /** Gating: a child whose tags do not meet the item contributes nothing, so its
      whole subtree is ignored even if deeper nodes would match. */
  lemma SkippedChild(n: Node, pre: seq<Child>, c: Child, post: seq<Child>, item: Item)
    requires n.subcategories == Present(pre + [c] + post)
    requires Evaluable(n, item)
    requires !Gates(c, item)
    ensures ChildrenEvaluable(pre + post, item)
    ensures Match(n, item) == MatchChildren(pre + post, item)
  {
    var tail := [c] + post;
    SplitEvaluable(pre, c, post, item);
    assert pre + [c] + post == pre + tail;
    assert Match(n, item) == MatchChildren(pre + tail, item);
    MatchChildrenAppend(pre, tail, item);
    MatchChildrenCons(c, post, item);
    MatchChildrenAppend(pre, post, item);
  }

  /** Order: a gating child is emitted right after the matches of the children
      before it and is immediately followed by the matches of its own subtree. */
  lemma MatchedChild(n: Node, pre: seq<Child>, c: Child, post: seq<Child>, item: Item)
    requires n.subcategories == Present(pre + [c] + post)
    requires Evaluable(n, item)
    requires Gates(c, item)
    ensures ChildrenEvaluable(pre, item) && Evaluable(c.node, item) && ChildrenEvaluable(post, item)
    ensures Match(n, item) ==
      MatchChildren(pre, item) + [c.node] + Match(c.node, item) + MatchChildren(post, item)
  {
    var tail := [c] + post;
    SplitEvaluable(pre, c, post, item);
    assert pre + [c] + post == pre + tail;
    assert Match(n, item) == MatchChildren(pre + tail, item);
    MatchChildrenAppend(pre, tail, item);
    MatchChildrenCons(c, post, item);
  }

  /** Matching a child sequence that starts with `c`. */
  lemma MatchChildrenCons(c: Child, post: seq<Child>, item: Item)
    requires ChildrenEvaluable([c] + post, item)
    ensures ChildrenEvaluable(post, item)
    ensures Gates(c, item) ==> Evaluable(c.node, item)
    ensures MatchChildren([c] + post, item) ==
      Contribution(c, item) + MatchChildren(post, item)
  {
    var s := [c] + post;
    assert s[0] == c;
    assert s[1..] == post;
  }

  /** A gating child without a child collection is returned twice in a row: once
      as a child and once more as the result of matching it as a leaf. */
  lemma MatchedLeafChildTwice(n: Node, pre: seq<Child>, c: Child, post: seq<Child>, item: Item)
    requires n.subcategories == Present(pre + [c] + post)
    requires Evaluable(n, item)
    requires Gates(c, item)
    requires c.node.subcategories.Absent?
    ensures ChildrenEvaluable(pre, item)
    ensures var k := |MatchChildren(pre, item)|;
      k + 1 < |Match(n, item)| && Match(n, item)[k] == c.node && Match(n, item)[k + 1] == c.node
  {
    MatchedChild(n, pre, c, post, item);
    assert Match(c.node, item) == [c.node];
  }

  lemma SplitEvaluable(pre: seq<Child>, c: Child, post: seq<Child>, item: Item)
    requires ChildrenEvaluable(pre + [c] + post, item)
    ensures ChildrenEvaluable(pre, item) && ChildrenEvaluable(post, item)
    ensures ChildrenEvaluable([c] + post, item) && ChildrenEvaluable(pre + post, item)
    ensures c.node.tags.Some? && (Gates(c, item) ==> Evaluable(c.node, item))
  {
    var s := pre + [c] + post;
    assert forall i :: 0 <= i < |pre| ==> pre[i] == s[i];
    assert forall i :: 0 <= i < |post| ==> post[i] == s[|pre| + 1 + i];
    assert c == s[|pre|];
  }

  lemma NothingMeetsUntagged(tags: seq<string>, item: Item)
    requires ItemTags(item) == []
    ensures !Meets(tags, item)
    decreases |tags|
  {
    if |tags| > 0 {
      NothingMeetsUntagged(tags[1..], item);
    }
  }

  /** An item without tags matches nothing, whatever the tree. */
  lemma UntaggedItemMatchesNothing(n: Node, item: Item)
    requires Evaluable(n, item)
    requires ItemTags(item) == []
    ensures Match(n, item) == []
  {
    var r := Match(n, item);
    MatchSound(n, item);
    if r != [] {
      assert r[0] in r;
      NothingMeetsUntagged(r[0].tags.value, item);
    }
  }
}
