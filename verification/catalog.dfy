/** Catalog data: items carrying tags, and the category tree they are filed under. */
module Catalog {
  import opened Wrappers

  /** Name of the bucket that receives every item. */
  const ALL_CATEGORY: string := "all"
  /** Name of the bucket that receives items no category matched. */
  const OTHER_CATEGORY: string := "other"

  /** A catalog item: its unique id and its optional tag list. */
  datatype Item = Item(uid: string, tags: Option<seq<string>>)

  /** A category or subcategory. Both the tag list and the child collection may be
      absent; an absent collection is different from an empty one. */
  datatype Node = Node(id: string, tags: Option<seq<string>>, subcategories: Children)

  /** The `subcategories` collection of a node: absent, or an ordered sequence of
      keyed children (the key is what an own-property lookup on the collection sees). */
  datatype Children = Absent | Present(list: seq<Child>)

  datatype Child = Child(key: string, node: Node)

  /** The tags an item is matched with: a missing tag list counts as empty. */
  function ItemTags(item: Item): seq<string>
  {
    item.tags.GetOr([])
  }

  /** The tags of `a` that also occur in `b`, in the order of `a` (a filter of `a`). */
  function Intersection(a: seq<string>, b: seq<string>): (r: seq<string>)
    ensures forall t :: t in r <==> t in a && t in b
    ensures |r| <= |a|
  {
    if |a| == 0 then []
    else if a[0] in b then [a[0]] + Intersection(a[1..], b)
    else Intersection(a[1..], b)
  }

  /** A node tag list meets an item when the intersection is not empty. */
  predicate Meets(tags: seq<string>, item: Item)
  {
    |Intersection(tags, ItemTags(item))| > 0
  }

  /** A child takes part in matching when it has tags that meet the item. */
  predicate Gates(c: Child, item: Item)
  {
    c.node.tags.Some? && Meets(c.node.tags.value, item)
  }

  /** Matching `n` against `item` never reads the tags of a child that has none:
      every child of an inner node has tags, and the subtree of every child whose
      tags meet the item is evaluable in turn. Subtrees behind a child whose tags
      do not meet the item are never visited and are unconstrained. */
  predicate Evaluable(n: Node, item: Item)
    decreases n, 1
  {
    match n.subcategories
    case Absent => true
    case Present(cs) => ChildrenEvaluable(cs, item)
  }

  predicate ChildrenEvaluable(cs: seq<Child>, item: Item)
    decreases cs, 0
  {
    forall i :: 0 <= i < |cs| ==>
      cs[i].node.tags.Some? && (Meets(cs[i].node.tags.value, item) ==> Evaluable(cs[i].node, item))
  }

  /** `d` lies strictly below `n` in the tree. */
  predicate IsProperDescendant(d: Node, n: Node)
    decreases n
  {
    match n.subcategories
    case Absent => false
    case Present(cs) =>
      exists i :: 0 <= i < |cs| && (cs[i].node == d || IsProperDescendant(d, cs[i].node))
  }

  /** Number of nodes in the subtree rooted at `n`. */
  function Size(n: Node): (r: nat)
    ensures r >= 1
    decreases n, 1
  {
    match n.subcategories
    case Absent => 1
    case Present(cs) => 1 + SizeOfChildren(cs)
  }

  function SizeOfChildren(cs: seq<Child>): nat
    decreases cs, 0
  {
    if |cs| == 0 then 0 else Size(cs[0].node) + SizeOfChildren(cs[1..])
  }

  lemma {:induction false} ChildSizeBound(cs: seq<Child>, i: nat)
    requires i < |cs|
    ensures Size(cs[i].node) <= SizeOfChildren(cs)
    decreases i
  {
    if i > 0 {
      ChildSizeBound(cs[1..], i - 1);
      assert cs[1..][i - 1] == cs[i];
    }
  }

  /** A proper descendant has a strictly smaller subtree. */
  lemma {:induction false} DescendantIsSmaller(d: Node, n: Node)
    requires IsProperDescendant(d, n)
    ensures Size(d) < Size(n)
    decreases n
  {
    var cs := n.subcategories.list;
    var i :| 0 <= i < |cs| && (cs[i].node == d || IsProperDescendant(d, cs[i].node));
    ChildSizeBound(cs, i);
    if cs[i].node != d {
      DescendantIsSmaller(d, cs[i].node);
    }
  }

  /** The tree is acyclic: no node is its own proper descendant. */
  lemma NotOwnDescendant(n: Node)
    ensures !IsProperDescendant(n, n)
  {
    if IsProperDescendant(n, n) {
      DescendantIsSmaller(n, n);
    }
  }
}
