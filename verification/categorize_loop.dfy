/** The categorizer written the way the catalog code runs it: three nested loops
    mutating one index and a per-item "categorized" flag. */
module CategorizeLoop {
  import opened Wrappers
  import opened Catalog
  import opened Matching
  import opened Index

  /** Builds the index in place; the result is the fold Categorize. */
  method CategorizeInPlace(items: seq<Item>, cats: seq<Node>) returns (index: Buckets)
    requires Evaluates(items, cats)
    ensures index == Categorize(items, cats)
  {
    index := map[];
    var j := 0;
    while j < |items|
      invariant 0 <= j <= |items|
      invariant Evaluates(items[..j], cats)
      invariant index == Categorize(items[..j], cats)
    {
      CategorizeStep(items, cats, j);
      index := FileItem(index, items[j], cats);
      j := j + 1;
    }
    assert items[..j] == items;
  }

  /** The body of the outer loop for one item. */
  method FileItem(index: Buckets, item: Item, cats: seq<Node>) returns (r: Buckets)
    requires AllEvaluable(cats, item)
    ensures r == CategorizeItem(index, item, cats)
  {
    var categorized := false;
    r := AddItem(index, item.uid, ALL_CATEGORY);
    ghost var withAll := r;
    var i := 0;
    while i < |cats|
      invariant 0 <= i <= |cats|
      invariant AllEvaluable(cats[..i], item)
      invariant r == AddCategories(withAll, item, cats[..i])
      invariant categorized == !Unmatched(item, cats[..i])
    {
      var matched := Match(cats[i], item);
      AddCategoriesStep(withAll, item, cats, i);
      r, categorized := FileMatches(r, item.uid, cats[i].id, matched, categorized);
      i := i + 1;
    }
    assert cats[..i] == cats;
    assert r == AddCategories(withAll, item, cats);
    if !categorized {
      r := AddItem(r, item.uid, OTHER_CATEGORY);
    }
  }

  /** The body of the middle loop for one top-level category and its matched
      nodes; the flag is set once per matched node. */
  method FileMatches(index: Buckets, uid: string, categoryId: string, matched: seq<Node>, wasCategorized: bool)
    returns (r: Buckets, categorized: bool)
    ensures r == AddMatches(index, uid, categoryId, matched)
    ensures categorized <==> wasCategorized || |matched| > 0
  {
    r := index;
    categorized := wasCategorized;
    var s := 0;
    while s < |matched|
      invariant 0 <= s <= |matched|
      invariant r == AddMatches(index, uid, categoryId, matched[..s])
      invariant categorized <==> wasCategorized || s > 0
    {
      AddMatchesStep(index, uid, categoryId, matched, s);
      r := AddItem(r, uid, categoryId);
      r := AddItem(r, uid, matched[s].id);
      categorized := true;
      s := s + 1;
    }
    assert matched[..s] == matched;
  }

  lemma AddMatchesStep(m: Buckets, uid: string, categoryId: string, ms: seq<Node>, s: nat)
    requires s < |ms|
    ensures AddMatches(m, uid, categoryId, ms[..s + 1]) ==
      AddItem(AddItem(AddMatches(m, uid, categoryId, ms[..s]), uid, categoryId), uid, ms[s].id)
  {
    assert ms[..s + 1][..s] == ms[..s];
  }

  lemma AddCategoriesStep(m: Buckets, item: Item, cats: seq<Node>, i: nat)
    requires AllEvaluable(cats, item) && i < |cats|
    ensures AllEvaluable(cats[..i], item) && AllEvaluable(cats[..i + 1], item)
    ensures AddCategories(m, item, cats[..i + 1]) ==
      AddMatches(AddCategories(m, item, cats[..i]), item.uid, cats[i].id, Match(cats[i], item))
    ensures Unmatched(item, cats[..i + 1]) <==> Unmatched(item, cats[..i]) && Match(cats[i], item) == []
  {
    PrefixEvaluable(cats, item, i);
    PrefixEvaluable(cats, item, i + 1);
    assert cats[..i + 1][..i] == cats[..i];
  }

  lemma CategorizeStep(items: seq<Item>, cats: seq<Node>, j: nat)
    requires Evaluates(items, cats) && j < |items|
    ensures Evaluates(items[..j], cats) && Evaluates(items[..j + 1], cats)
    ensures AllEvaluable(cats, items[j])
    ensures Categorize(items[..j + 1], cats) == CategorizeItem(Categorize(items[..j], cats), items[j], cats)
  {
    PrefixEvaluates(items, cats, j);
    PrefixEvaluates(items, cats, j + 1);
    assert items[..j + 1][..j] == items[..j];
  }
}
