/** Building the categorized-id index: bucket id -> item uids, each bucket an
    insertion-ordered list without repetitions. */
module Index {
  import opened Wrappers
  import opened Catalog
  import opened Matching

  type Buckets = map<string, seq<string>>

  /** No element occurs twice. */
  predicate NoDup(s: seq<string>)
  {
    forall i, j :: 0 <= i < j < |s| ==> s[i] != s[j]
  }

  /** Every bucket is free of repetitions. */
  predicate WellFormed(m: Buckets)
  {
    forall k :: k in m ==> NoDup(m[k])
  }

  /** Uid `u` is filed under bucket `k`. */
  predicate Filed(m: Buckets, k: string, u: string)
  {
    k in m && u in m[k]
  }

  /** Idempotent append of `itemId` to bucket `categoryId`, creating the bucket if needed. */
  function AddItem(m: Buckets, itemId: string, categoryId: string): (r: Buckets)
    ensures categoryId in r && itemId in r[categoryId]
    ensures Filed(m, categoryId, itemId) ==> r == m
    ensures categoryId in m && itemId !in m[categoryId] ==> r[categoryId] == m[categoryId] + [itemId]
    ensures categoryId !in m ==> r[categoryId] == [itemId]
    ensures r.Keys == m.Keys + {categoryId}
    ensures forall k :: k in m && k != categoryId ==> r[k] == m[k]
    ensures WellFormed(m) ==> WellFormed(r)
  {
    if categoryId !in m then m[categoryId := [itemId]]
    else if itemId !in m[categoryId] then m[categoryId := m[categoryId] + [itemId]]
    else m
  }

  /** Filing twice is filing once. */
  lemma AddItemIdempotent(m: Buckets, itemId: string, categoryId: string)
    ensures AddItem(AddItem(m, itemId, categoryId), itemId, categoryId) == AddItem(m, itemId, categoryId)
  {
  }

  /** Set view of AddItem: exactly the pair (categoryId, itemId) is added. */
  lemma AddItemFiled(m: Buckets, itemId: string, categoryId: string, k: string, u: string)
    ensures Filed(AddItem(m, itemId, categoryId), k, u) <==> Filed(m, k, u) || (k == categoryId && u == itemId)
  {
  }

  /** Some node of `ms` carries id `k`. */
  predicate IdIn(ms: seq<Node>, k: string)
  {
    exists j :: 0 <= j < |ms| && ms[j].id == k
  }

  /** Bucket `k` receives an item from top-level category `c`: either `k` is `c`'s
      own id and `c` matched something, or `k` is the id of a matched node. */
  predicate MatchedUnder(c: Node, item: Item, k: string)
    requires Evaluable(c, item)
  {
    var ms := Match(c, item);
    (|ms| > 0 && k == c.id) || IdIn(ms, k)
  }

  predicate AllEvaluable(cats: seq<Node>, item: Item)
  {
    forall i :: 0 <= i < |cats| ==> Evaluable(cats[i], item)
  }

  /** No top-level category matched the item. */
  predicate Unmatched(item: Item, cats: seq<Node>)
    requires AllEvaluable(cats, item)
  {
    forall i :: 0 <= i < |cats| ==> Match(cats[i], item) == []
  }

  /** The buckets a single item belongs to. */
  predicate ItemBelongs(item: Item, cats: seq<Node>, k: string)
    requires AllEvaluable(cats, item)
  {
    || k == ALL_CATEGORY
    || MatchedKey(item, cats, k)
    || (k == OTHER_CATEGORY && Unmatched(item, cats))
  }

  /** For every matched node, file `uid` under the top-level id and under the node's id. */
  function AddMatches(m: Buckets, uid: string, categoryId: string, ms: seq<Node>): (r: Buckets)
    ensures forall k :: k in m && uid in m[k] ==> k in r && r[k] == m[k]
    ensures WellFormed(m) ==> WellFormed(r)
  {
    if |ms| == 0 then m
    else AddItem(AddItem(AddMatches(m, uid, categoryId, ms[..|ms| - 1]), uid, categoryId), uid, ms[|ms| - 1].id)
  }

  lemma IdInSnoc(ms: seq<Node>, k: string)
    requires |ms| > 0
    ensures IdIn(ms, k) <==> IdIn(ms[..|ms| - 1], k) || ms[|ms| - 1].id == k
  {
  }

  /** AddMatches files `uid` exactly under the top-level id (when something
      matched) and under every matched node's id. */
  lemma {:induction false} AddMatchesFiled(m: Buckets, uid: string, categoryId: string, ms: seq<Node>, k: string, u: string)
    ensures Filed(AddMatches(m, uid, categoryId, ms), k, u) <==>
      Filed(m, k, u) || (u == uid && ((|ms| > 0 && k == categoryId) || IdIn(ms, k)))
    decreases |ms|
  {
    if |ms| > 0 {
      var before := AddMatches(m, uid, categoryId, ms[..|ms| - 1]);
      AddMatchesFiled(m, uid, categoryId, ms[..|ms| - 1], k, u);
      IdInSnoc(ms, k);
      AddItemFiled(before, uid, categoryId, k, u);
      AddItemFiled(AddItem(before, uid, categoryId), uid, ms[|ms| - 1].id, k, u);
    }
  }

  lemma PrefixEvaluable(cats: seq<Node>, item: Item, n: nat)
    requires AllEvaluable(cats, item) && n <= |cats|
    ensures AllEvaluable(cats[..n], item)
  {
  }

  /** File `item` under every top-level category in `cats` that matches it. */
  function AddCategories(m: Buckets, item: Item, cats: seq<Node>): (r: Buckets)
    requires AllEvaluable(cats, item)
    ensures forall k :: k in m && item.uid in m[k] ==> k in r && r[k] == m[k]
    ensures WellFormed(m) ==> WellFormed(r)
  {
    if |cats| == 0 then m
    else
      PrefixEvaluable(cats, item, |cats| - 1);
      var last := cats[|cats| - 1];
      AddMatches(AddCategories(m, item, cats[..|cats| - 1]), item.uid, last.id, Match(last, item))
  }

  /** Some category of `cats` files the item under `k`. */
  predicate MatchedKey(item: Item, cats: seq<Node>, k: string)
    requires AllEvaluable(cats, item)
  {
    exists i :: 0 <= i < |cats| && MatchedUnder(cats[i], item, k)
  }

  lemma {:induction false} AddCategoriesFiled(m: Buckets, item: Item, cats: seq<Node>, k: string, u: string)
    requires AllEvaluable(cats, item)
    ensures Filed(AddCategories(m, item, cats), k, u) <==>
      Filed(m, k, u) || (u == item.uid && MatchedKey(item, cats, k))
    decreases |cats|
  {
    if |cats| > 0 {
      var prefix := cats[..|cats| - 1];
      var last := cats[|cats| - 1];
      PrefixEvaluable(cats, item, |cats| - 1);
      AddCategoriesFiled(m, item, prefix, k, u);
      AddMatchesFiled(AddCategories(m, item, prefix), item.uid, last.id, Match(last, item), k, u);
      MatchedKeySnoc(item, cats, k);
    }
  }

  lemma MatchedKeySnoc(item: Item, cats: seq<Node>, k: string)
    requires AllEvaluable(cats, item) && |cats| > 0
    ensures AllEvaluable(cats[..|cats| - 1], item)
    ensures MatchedKey(item, cats, k) <==>
      MatchedKey(item, cats[..|cats| - 1], k) || MatchedUnder(cats[|cats| - 1], item, k)
  {
  }

  /** One iteration of the outer loop: file under `all`, under every matching
      category, and under `other` when nothing matched. */
  function CategorizeItem(m: Buckets, item: Item, cats: seq<Node>): (r: Buckets)
    requires AllEvaluable(cats, item)
    ensures ALL_CATEGORY in r && r[ALL_CATEGORY] == AddItem(m, item.uid, ALL_CATEGORY)[ALL_CATEGORY]
    ensures WellFormed(m) ==> WellFormed(r)
  {
    var filed := AddCategories(AddItem(m, item.uid, ALL_CATEGORY), item, cats);
    if Unmatched(item, cats) then AddItem(filed, item.uid, OTHER_CATEGORY) else filed
  }

  lemma CategorizeItemFiled(m: Buckets, item: Item, cats: seq<Node>, k: string, u: string)
    requires AllEvaluable(cats, item)
    ensures Filed(CategorizeItem(m, item, cats), k, u) <==>
      Filed(m, k, u) || (u == item.uid && ItemBelongs(item, cats, k))
  {
    var withAll := AddItem(m, item.uid, ALL_CATEGORY);
    var filed := AddCategories(withAll, item, cats);
    AddItemFiled(m, item.uid, ALL_CATEGORY, k, u);
    AddCategoriesFiled(withAll, item, cats, k, u);
    AddItemFiled(filed, item.uid, OTHER_CATEGORY, k, u);
    if !Unmatched(item, cats) {
      var i :| 0 <= i < |cats| && Match(cats[i], item) != [];
      assert MatchedUnder(cats[i], item, cats[i].id);
    }
  }

  /** Every top-level category can be matched against every item. */
  predicate Evaluates(items: seq<Item>, cats: seq<Node>)
  {
    forall j :: 0 <= j < |items| ==> AllEvaluable(cats, items[j])
  }

  function Uids(items: seq<Item>): (r: seq<string>)
    ensures |r| == |items|
    ensures forall j :: 0 <= j < |items| ==> r[j] == items[j].uid
  {
    seq(|items|, j requires 0 <= j < |items| => items[j].uid)
  }

  /** The elements of `s` in order of first occurrence, each once. */
  function Dedup(s: seq<string>): (r: seq<string>)
    ensures NoDup(r)
    ensures forall x :: x in r <==> x in s
  {
    if |s| == 0 then []
    else
      var d := Dedup(s[..|s| - 1]);
      assert forall x :: x in s <==> x in s[..|s| - 1] || x == s[|s| - 1] by {
        assert s == s[..|s| - 1] + [s[|s| - 1]];
      }
      if s[|s| - 1] in d then d else d + [s[|s| - 1]]
  }

  /** Uid `u` belongs in bucket `k` because of some item of `items` carrying it. */
  predicate Belongs(items: seq<Item>, cats: seq<Node>, k: string, u: string)
    requires Evaluates(items, cats)
  {
    exists j :: 0 <= j < |items| && items[j].uid == u && ItemBelongs(items[j], cats, k)
  }

  lemma PrefixEvaluates(items: seq<Item>, cats: seq<Node>, n: nat)
    requires Evaluates(items, cats) && n <= |items|
    ensures Evaluates(items[..n], cats)
  {
  }

  /** The categorized-id index of `items` over the top-level categories `cats`:
      a left fold of CategorizeItem over the items, from the empty index. */
  function Categorize(items: seq<Item>, cats: seq<Node>): (r: Buckets)
    requires Evaluates(items, cats)
    ensures WellFormed(r)
    ensures ALL_CATEGORY in r <==> |items| > 0
    ensures |items| > 0 ==> r[ALL_CATEGORY] == Dedup(Uids(items))
  {
    if |items| == 0 then map[]
    else
      PrefixEvaluates(items, cats, |items| - 1);
      assert Uids(items)[..|items| - 1] == Uids(items[..|items| - 1]);
      CategorizeItem(Categorize(items[..|items| - 1], cats), items[|items| - 1], cats)
  }

  /** Exact contents of the index: uid `u` is in bucket `k` iff some item with
      that uid belongs to `k`. */
  lemma {:induction false} CategorizeMembership(items: seq<Item>, cats: seq<Node>, k: string, u: string)
    requires Evaluates(items, cats)
    ensures Filed(Categorize(items, cats), k, u) <==> Belongs(items, cats, k, u)
    decreases |items|
  {
    if |items| > 0 {
      var prefix := items[..|items| - 1];
      var last := items[|items| - 1];
      PrefixEvaluates(items, cats, |items| - 1);
      CategorizeMembership(prefix, cats, k, u);
      CategorizeItemFiled(Categorize(prefix, cats), last, cats, k, u);
      BelongsSnoc(items, cats, k, u);
    }
  }

  lemma BelongsSnoc(items: seq<Item>, cats: seq<Node>, k: string, u: string)
    requires Evaluates(items, cats) && |items| > 0
    ensures Evaluates(items[..|items| - 1], cats)
    ensures Belongs(items, cats, k, u) <==>
      Belongs(items[..|items| - 1], cats, k, u) || (u == items[|items| - 1].uid && ItemBelongs(items[|items| - 1], cats, k))
  {
  }

  /** Bucket `k` of `m`, empty when there is none. */
  function Bucket(m: Buckets, k: string): seq<string>
  {
    if k in m then m[k] else []
  }

  /** The list `addItem` leaves in a bucket that held `s`. */
  function Push(s: seq<string>, u: string): seq<string>
  {
    if u in s then s else s + [u]
  }

  lemma AddItemBucket(m: Buckets, itemId: string, categoryId: string, k: string)
    ensures k in AddItem(m, itemId, categoryId) <==> k in m || k == categoryId
    ensures Bucket(AddItem(m, itemId, categoryId), k) ==
      if k == categoryId then Push(Bucket(m, k), itemId) else Bucket(m, k)
  {
  }

  /** Per bucket, AddMatches appends `uid` once when the bucket is the
      top-level id of a non-empty match or a matched node's id. */
  lemma {:induction false} AddMatchesBucket(m: Buckets, uid: string, categoryId: string, ms: seq<Node>, k: string)
    ensures k in AddMatches(m, uid, categoryId, ms) <==>
      k in m || (|ms| > 0 && k == categoryId) || IdIn(ms, k)
    ensures Bucket(AddMatches(m, uid, categoryId, ms), k) ==
      if (|ms| > 0 && k == categoryId) || IdIn(ms, k) then Push(Bucket(m, k), uid) else Bucket(m, k)
    decreases |ms|
  {
    if |ms| > 0 {
      var before := AddMatches(m, uid, categoryId, ms[..|ms| - 1]);
      AddMatchesBucket(m, uid, categoryId, ms[..|ms| - 1], k);
      IdInSnoc(ms, k);
      AddItemBucket(before, uid, categoryId, k);
      AddItemBucket(AddItem(before, uid, categoryId), uid, ms[|ms| - 1].id, k);
    }
  }

  /** Per bucket, AddCategories appends the uid once when some category files it there. */
  lemma {:induction false} AddCategoriesBucket(m: Buckets, item: Item, cats: seq<Node>, k: string)
    requires AllEvaluable(cats, item)
    ensures k in AddCategories(m, item, cats) <==> k in m || MatchedKey(item, cats, k)
    ensures Bucket(AddCategories(m, item, cats), k) ==
      if MatchedKey(item, cats, k) then Push(Bucket(m, k), item.uid) else Bucket(m, k)
    decreases |cats|
  {
    if |cats| > 0 {
      var prefix := cats[..|cats| - 1];
      var last := cats[|cats| - 1];
      PrefixEvaluable(cats, item, |cats| - 1);
      AddCategoriesBucket(m, item, prefix, k);
      AddMatchesBucket(AddCategories(m, item, prefix), item.uid, last.id, Match(last, item), k);
      MatchedKeySnoc(item, cats, k);
    }
  }

  /** Per bucket, one item appends its uid once to every bucket it belongs to. */
  lemma CategorizeItemBucket(m: Buckets, item: Item, cats: seq<Node>, k: string)
    requires AllEvaluable(cats, item)
    ensures k in CategorizeItem(m, item, cats) <==> k in m || ItemBelongs(item, cats, k)
    ensures Bucket(CategorizeItem(m, item, cats), k) ==
      if ItemBelongs(item, cats, k) then Push(Bucket(m, k), item.uid) else Bucket(m, k)
  {
    var withAll := AddItem(m, item.uid, ALL_CATEGORY);
    var filed := AddCategories(withAll, item, cats);
    AddItemBucket(m, item.uid, ALL_CATEGORY, k);
    AddCategoriesBucket(withAll, item, cats, k);
    AddItemBucket(filed, item.uid, OTHER_CATEGORY, k);
    if !Unmatched(item, cats) {
      var i :| 0 <= i < |cats| && Match(cats[i], item) != [];
      assert MatchedUnder(cats[i], item, cats[i].id);
    }
  }

  /** The uids of the items that belong to bucket `k`, in input order. */
  function BucketUids(items: seq<Item>, cats: seq<Node>, k: string): seq<string>
    requires Evaluates(items, cats)
  {
    if |items| == 0 then []
    else
      PrefixEvaluates(items, cats, |items| - 1);
      var last := items[|items| - 1];
      BucketUids(items[..|items| - 1], cats, k) + (if ItemBelongs(last, cats, k) then [last.uid] else [])
  }

  lemma DedupSnoc(s: seq<string>, x: string)
    ensures Dedup(s + [x]) == Push(Dedup(s), x)
  {
    assert (s + [x])[..|s|] == s;
  }

  lemma CategorizeSnoc(items: seq<Item>, cats: seq<Node>, k: string)
    requires Evaluates(items, cats) && |items| > 0
    ensures Evaluates(items[..|items| - 1], cats) && AllEvaluable(cats, items[|items| - 1])
    ensures Categorize(items, cats) == CategorizeItem(Categorize(items[..|items| - 1], cats), items[|items| - 1], cats)
    ensures BucketUids(items, cats, k) ==
      BucketUids(items[..|items| - 1], cats, k) + (if ItemBelongs(items[|items| - 1], cats, k) then [items[|items| - 1].uid] else [])
  {
    PrefixEvaluates(items, cats, |items| - 1);
  }

  /** Exact contents and order of every bucket, in terms of Bucket. */
  lemma {:induction false} CategorizeBucket(items: seq<Item>, cats: seq<Node>, k: string)
    requires Evaluates(items, cats)
    ensures k in Categorize(items, cats) <==> |BucketUids(items, cats, k)| > 0
    ensures Bucket(Categorize(items, cats), k) == Dedup(BucketUids(items, cats, k))
    decreases |items|
  {
    if |items| > 0 {
      var prefix := items[..|items| - 1];
      var last := items[|items| - 1];
      CategorizeSnoc(items, cats, k);
      var m := Categorize(prefix, cats);
      CategorizeBucket(prefix, cats, k);
      CategorizeItemBucket(m, last, cats, k);
      BucketStep(m, Categorize(items, cats), k, BucketUids(prefix, cats, k), last.uid, ItemBelongs(last, cats, k));
    }
  }

  lemma BucketStep(m: Buckets, r: Buckets, k: string, before: seq<string>, u: string, belongs: bool)
    requires k in m <==> |before| > 0
    requires Bucket(m, k) == Dedup(before)
    requires k in r <==> k in m || belongs
    requires Bucket(r, k) == if belongs then Push(Bucket(m, k), u) else Bucket(m, k)
    ensures k in r <==> |before + (if belongs then [u] else [])| > 0
    ensures Bucket(r, k) == Dedup(before + (if belongs then [u] else []))
  {
    if belongs {
      DedupSnoc(before, u);
    } else {
      assert before + [] == before;
    }
  }

  /** Exact contents and order of every bucket: bucket `k` exists iff some item
      belongs to it, and it lists the uids of those items in order of first
      occurrence, each once. */
  lemma CategorizeBuckets(items: seq<Item>, cats: seq<Node>, k: string)
    requires Evaluates(items, cats)
    ensures k in Categorize(items, cats) <==> |BucketUids(items, cats, k)| > 0
    ensures k in Categorize(items, cats) ==> Categorize(items, cats)[k] == Dedup(BucketUids(items, cats, k))
  {
    CategorizeBucket(items, cats, k);
  }
}
