/** Consequences of the exact contents of the categorized-id index. */
module IndexProperties {
  import opened Wrappers
  import opened Catalog
  import opened Matching
  import opened Index

  /** No two items share a uid. */
  predicate DistinctUids(items: seq<Item>)
  {
    forall j, j' :: 0 <= j < j' < |items| ==> items[j].uid != items[j'].uid
  }

  predicate Reserved(id: string)
  {
    id == ALL_CATEGORY || id == OTHER_CATEGORY
  }

  /** No node of the tree uses one of the two synthetic bucket ids. */
  ghost predicate ReservedIdsUnused(cats: seq<Node>)
  {
    forall i :: 0 <= i < |cats| ==>
      !Reserved(cats[i].id) && forall d :: IsProperDescendant(d, cats[i]) ==> !Reserved(d.id)
  }

  /** Every bucket holds only uids of input items, each at most once. */
  lemma BucketsHoldInputUids(items: seq<Item>, cats: seq<Node>, k: string, u: string)
    requires Evaluates(items, cats)
    requires Filed(Categorize(items, cats), k, u)
    ensures u in Uids(items)
    ensures NoDup(Categorize(items, cats)[k])
  {
    CategorizeMembership(items, cats, k, u);
    var j :| 0 <= j < |items| && items[j].uid == u && ItemBelongs(items[j], cats, k);
    assert Uids(items)[j] == u;
  }

  /** Every node a top-level category matches files the item under the category's
      id and under the node's own id. */
  lemma MatchedNodesRecorded(items: seq<Item>, cats: seq<Node>, j: nat, i: nat, s: Node)
    requires Evaluates(items, cats)
    requires j < |items| && i < |cats|
    requires AllEvaluable(cats, items[j]) && s in Match(cats[i], items[j])
    ensures Filed(Categorize(items, cats), cats[i].id, items[j].uid)
    ensures Filed(Categorize(items, cats), s.id, items[j].uid)
  {
    var ms := Match(cats[i], items[j]);
    var p :| 0 <= p < |ms| && ms[p] == s;
    assert IdIn(ms, s.id);
    assert MatchedUnder(cats[i], items[j], cats[i].id);
    assert ItemBelongs(items[j], cats, cats[i].id);
    assert ItemBelongs(items[j], cats, s.id);
    CategorizeMembership(items, cats, cats[i].id, items[j].uid);
    CategorizeMembership(items, cats, s.id, items[j].uid);
  }

  /** With distinct uids, the buckets holding an item's uid are exactly those the item belongs to. */
  lemma OwnBuckets(items: seq<Item>, cats: seq<Node>, j: nat, k: string)
    requires Evaluates(items, cats) && DistinctUids(items) && j < |items|
    ensures AllEvaluable(cats, items[j])
    ensures Filed(Categorize(items, cats), k, items[j].uid) <==> ItemBelongs(items[j], cats, k)
  {
    CategorizeMembership(items, cats, k, items[j].uid);
  }

  /** A reserved id is never a key a category files under, when the tree does not use it. */
  lemma ReservedNeverMatched(cats: seq<Node>, item: Item, i: nat, k: string)
    requires ReservedIdsUnused(cats) && AllEvaluable(cats, item) && i < |cats|
    requires Reserved(k)
    ensures !MatchedUnder(cats[i], item, k)
  {
    MatchSound(cats[i], item);
  }

  /** With distinct uids and no node using a reserved id, an item is filed under
      `other` exactly when no top-level category matched it, which is exactly when
      it is filed under no category bucket. */
  lemma OtherExactlyWhenUncategorized(items: seq<Item>, cats: seq<Node>, j: nat)
    requires Evaluates(items, cats) && DistinctUids(items) && ReservedIdsUnused(cats)
    requires j < |items|
    ensures AllEvaluable(cats, items[j])
    ensures Filed(Categorize(items, cats), OTHER_CATEGORY, items[j].uid) <==> Unmatched(items[j], cats)
    ensures Filed(Categorize(items, cats), OTHER_CATEGORY, items[j].uid) <==>
      forall k :: !Reserved(k) ==> !Filed(Categorize(items, cats), k, items[j].uid)
  {
    var item := items[j];
    var r := Categorize(items, cats);
    OwnBuckets(items, cats, j, OTHER_CATEGORY);
    if Filed(r, OTHER_CATEGORY, item.uid) && !Unmatched(item, cats) {
      var i :| 0 <= i < |cats| && MatchedUnder(cats[i], item, OTHER_CATEGORY);
      ReservedNeverMatched(cats, item, i, OTHER_CATEGORY);
    }
    if Unmatched(item, cats) {
      forall k | !Reserved(k) ensures !Filed(r, k, item.uid) {
        OwnBuckets(items, cats, j, k);
      }
    } else {
      var i :| 0 <= i < |cats| && Match(cats[i], item) != [];
      assert MatchedUnder(cats[i], item, cats[i].id);
      OwnBuckets(items, cats, j, cats[i].id);
    }
  }

  /** With distinct uids, an item without tags is filed under `all` and `other` only. */
  lemma UntaggedItemOnlyAllAndOther(items: seq<Item>, cats: seq<Node>, j: nat, k: string)
    requires Evaluates(items, cats) && DistinctUids(items)
    requires j < |items| && ItemTags(items[j]) == []
    ensures Filed(Categorize(items, cats), k, items[j].uid) <==> Reserved(k)
  {
    var item := items[j];
    OwnBuckets(items, cats, j, k);
    forall i | 0 <= i < |cats| ensures Match(cats[i], item) == [] {
      UntaggedItemMatchesNothing(cats[i], item);
    }
  }

  /** A worked example: a `db` category with an `sql` subcategory,
      and two items tagged `sql` and `nosql`. */
  const SqlNode := Node("sql", Some(["sql"]), Absent)
  const SqlChild := Child("0", SqlNode)
  const DbNode := Node("db", Some(["database"]), Present([SqlChild]))
  const SqlItem := Item("1", Some(["sql"]))
  const NoSqlItem := Item("2", Some(["nosql"]))

  /** The matched subcategory is returned twice; the `nosql` item matches nothing. */
  lemma ExampleMatches()
    ensures Evaluates([SqlItem, NoSqlItem], [DbNode])
    ensures Match(DbNode, SqlItem) == [SqlNode, SqlNode]
    ensures Match(DbNode, NoSqlItem) == []
    ensures AllEvaluable([DbNode], SqlItem) && AllEvaluable([DbNode], NoSqlItem)
  {
    assert [SqlChild][1..] == [];
    assert Intersection(["sql"], ["sql"]) == ["sql"];
    assert Intersection(["sql"], ["nosql"]) == [];
    assert Gates(SqlChild, SqlItem) && !Gates(SqlChild, NoSqlItem);
    assert ChildrenEvaluable([SqlChild], SqlItem) && ChildrenEvaluable([SqlChild], NoSqlItem);
    assert AllEvaluable([DbNode], SqlItem) && AllEvaluable([DbNode], NoSqlItem);
    assert Match(SqlNode, SqlItem) == [SqlNode];
    assert MatchChildren([SqlChild], SqlItem) == [SqlNode, SqlNode];
    assert MatchChildren([SqlChild], NoSqlItem) == [];
  }

  lemma ExampleFirstItem()
    ensures Evaluates([SqlItem], [DbNode])
    ensures Categorize([SqlItem], [DbNode]) == map["all" := ["1"], "db" := ["1"], "sql" := ["1"]]
  {
    ExampleMatches();
    assert AllEvaluable([DbNode], SqlItem);
    assert [SqlItem][..0] == [];
    assert [DbNode][..0] == [];
    var a1: Buckets := map["all" := ["1"]];
    assert [SqlNode, SqlNode][..1] == [SqlNode];
    assert [SqlNode][..0] == [];
    assert AddMatches(a1, "1", "db", [SqlNode]) == map["all" := ["1"], "db" := ["1"], "sql" := ["1"]];
    assert AddMatches(a1, "1", "db", [SqlNode, SqlNode]) == map["all" := ["1"], "db" := ["1"], "sql" := ["1"]];
    assert AddCategories(a1, SqlItem, [DbNode]) == map["all" := ["1"], "db" := ["1"], "sql" := ["1"]];
  }

  lemma ExampleSecondItem()
    ensures AllEvaluable([DbNode], NoSqlItem)
    ensures CategorizeItem(map["all" := ["1"], "db" := ["1"], "sql" := ["1"]], NoSqlItem, [DbNode]) ==
      map["all" := ["1", "2"], "db" := ["1"], "sql" := ["1"], "other" := ["2"]]
  {
    ExampleMatches();
    assert [DbNode][..0] == [];
    var m1: Buckets := map["all" := ["1"], "db" := ["1"], "sql" := ["1"]];
    var m2: Buckets := map["all" := ["1", "2"], "db" := ["1"], "sql" := ["1"]];
    assert "2" !in m1["all"];
    assert m1["all"] + ["2"] == ["1", "2"];
    assert AddItem(m1, "2", "all") == m2;
    assert AddCategories(m2, NoSqlItem, [DbNode]) == AddMatches(m2, "2", "db", []);
    assert Unmatched(NoSqlItem, [DbNode]);
  }

  /** The resulting index: all -> [1, 2], db -> [1], sql -> [1], other -> [2]. */
  lemma ExampleIndex()
    ensures Evaluates([SqlItem, NoSqlItem], [DbNode])
    ensures Categorize([SqlItem, NoSqlItem], [DbNode]) ==
      map["all" := ["1", "2"], "db" := ["1"], "sql" := ["1"], "other" := ["2"]]
  {
    ExampleMatches();
    ExampleFirstItem();
    ExampleSecondItem();
    var items := [SqlItem, NoSqlItem];
    assert items[..1] == [SqlItem];
    assert Categorize(items, [DbNode]) == CategorizeItem(Categorize([SqlItem], [DbNode]), NoSqlItem, [DbNode]);
  }
}
