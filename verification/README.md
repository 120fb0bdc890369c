# Catalog categorisation and category-tree helpers

A Dafny model of the catalog categorisation utilities of the application console
(`src/shared/components/catalog/utils/category-utils.ts`). The model covers:

- **matching** an item against a category subtree (`matchSubcategories`);
- **filing** item uids into buckets with an idempotent append (`addItem`);
- **categorising** a list of items into an index of buckets (`categorize`): a bucket
  for every category or node id some item was filed under, plus `all` (when there
  are items) and `other` (when some item matched nothing);
- **navigating** the tree: finding the active node (`findActiveCategory`), and the
  key checks used for highlighting (`hasActiveDescendant`, `isActiveTab`).

Files:

- `wrappers.dfy` defines `Option`.
- `catalog.dfy` holds the data model (`Item`, `Node`, `Children`, `Child`), tag
  intersection, the descendant relation, and the precondition `Evaluable`.
  `Evaluable` says that matching never reads the tags of an untagged child.
- `matching.dfy` models `matchSubcategories`.
- `index.dfy` models `addItem` and `categorize`, written as a left fold over the items.
- `index_props.dfy` holds consequences of the index contents and the worked example.
- `categorize_loop.dfy` is the imperative version with the source's nested loops,
  proved equal to the fold.
- `navigation.dfy` models `findActiveCategory`, `hasActiveDescendant` and `isActiveTab`.

Modelling choices:

- Tag lists and child collections are `Option`s, because the code tells an absent
  value apart from an empty one.
- `[]` is truthy in JavaScript. So a node whose child collection is present but
  empty is not treated as a leaf: its own tags are never tested.
- A child collection is a sequence of `(key, node)` pairs. lodash `has` is modelled
  as "the key is among the keys". lodash `each` and `some` go through the pairs in order.

Behaviour of the code worth noting:

- **Descent is gated.** A child's subtree is searched only when the child's own
  tags meet the item (lines 35-36). Nodes below a child whose tags do not meet the item are
  never reached, even if their own tags would meet it.
- **Leaf children appear twice.** A matched child that has no child collection is
  returned twice: once as a child, and once from the recursive leaf call.
- **Keys, not ids.** `hasActiveDescendant` and `isActiveTab` test keys of the child
  collection, not the children's `id` fields. `WellKeyedActiveTab` and
  `WellKeyedActiveDescendant` show that the two readings agree when every key is
  its child's id.
- **Untagged children are not "no match".** A child without tags that is reached
  during matching makes the code throw (line 32). It does not simply fail to match.
  The model rules this out with the exact precondition `Evaluable`.

## Model

| member | source | states |
|---|---|---|
| Catalog.Intersection | src/shared/components/catalog/utils/category-utils.ts:20-22 | the filtered list holds exactly the tags present in both lists and is no longer than the node's list |
| Matching.MatchSound | src/shared/components/catalog/utils/category-utils.ts:11-41 | every returned node has tags meeting the item's tags; it is the argument itself only when the argument has no child collection, otherwise it is a proper descendant |
| Matching.MatchMembership | src/shared/components/catalog/utils/category-utils.ts:15-40 | a node is in the result iff it is reached along a path of children whose tags all meet the item, or it is the argument as a leaf whose own tags meet the item |
| Matching.LeafCase | src/shared/components/catalog/utils/category-utils.ts:15-27 | a node without a child collection yields `[node]` iff it has tags and one of them is among the item's tags (absent item tags count as empty); otherwise it yields `[]` |
| Matching.InnerNodeNotInOwnResult | src/shared/components/catalog/utils/category-utils.ts:15-40 | a node whose child collection is present, even if empty, never appears in its own result |
| Matching.MatchChildrenAppend | src/shared/components/catalog/utils/category-utils.ts:31-38 | the matches of a concatenation of child lists are the concatenation of their matches: children contribute in collection order |
| Matching.SkippedChild | src/shared/components/catalog/utils/category-utils.ts:31-37 | a child whose tags do not meet the item contributes nothing, so its whole subtree is ignored even if deeper nodes would match |
| Matching.MatchedChild | src/shared/components/catalog/utils/category-utils.ts:35-36 | a child whose tags meet the item is emitted after the earlier children's matches and is immediately followed by its own subtree's matches |
| Matching.MatchedLeafChildTwice | src/shared/components/catalog/utils/category-utils.ts:31-37 | a matched child with no child collection occurs at two consecutive positions of the result |
| Matching.UntaggedItemMatchesNothing | src/shared/components/catalog/utils/category-utils.ts:15-37 | an item without tags matches nothing in any tree |
| Index.AddItem | src/shared/components/catalog/utils/category-utils.ts:44-55 | afterwards the uid is in the bucket; if it was there already, the map is unchanged; otherwise it is appended at the end, or a singleton bucket is created; other keys are untouched; buckets stay free of repetitions |
| Index.AddMatches | src/shared/components/catalog/utils/category-utils.ts:75-79 | a bucket that already holds the uid is left as it is, and buckets stay free of repetitions |
| Index.AddCategories | src/shared/components/catalog/utils/category-utils.ts:73-80 | a bucket that already holds the uid is left as it is, and buckets stay free of repetitions |
| Index.CategorizeItem | src/shared/components/catalog/utils/category-utils.ts:68-85 | the `all` bucket ends up exactly as filing the uid under `all` alone leaves it, later additions being no-ops; buckets stay free of repetitions |
| Index.AddItemIdempotent | src/shared/components/catalog/utils/category-utils.ts:50-54 | filing the same uid under the same bucket twice equals filing it once |
| Index.AddItemFiled | src/shared/components/catalog/utils/category-utils.ts:44-55 | as a set of (bucket, uid) pairs, exactly the one pair is added |
| Index.AddMatchesFiled | src/shared/components/catalog/utils/category-utils.ts:75-79 | iterating over the matched nodes files the uid under the top-level id (when anything matched) and under each matched node's id, and nothing else |
| Index.AddCategoriesFiled | src/shared/components/catalog/utils/category-utils.ts:73-80 | iterating over the top-level categories files the uid exactly under the buckets some category matched it into |
| Index.CategorizeItemFiled | src/shared/components/catalog/utils/category-utils.ts:68-85 | one item adds its uid exactly to `all`, to the buckets of its matches, and to `other` iff no top-level category matched it |
| Index.Categorize | src/shared/components/catalog/utils/category-utils.ts:61-88 | every bucket is free of repetitions; `all` exists iff there are items, and it is the input uids in order of first occurrence, each once (the order of every other bucket is `Index.CategorizeBuckets`) |
| Index.CategorizeBuckets | src/shared/components/catalog/utils/category-utils.ts:44-88 | a bucket exists iff some item belongs to it, and then it lists the uids of the items that belong to it in input order, each once |
| Index.AddMatchesBucket | src/shared/components/catalog/utils/category-utils.ts:75-79 | per bucket: the uid is appended once, at the end, exactly when the bucket is the top-level id of a non-empty match or a matched node's id; other buckets are untouched |
| Index.AddCategoriesBucket | src/shared/components/catalog/utils/category-utils.ts:73-80 | per bucket: the uid is appended once, at the end, exactly when some top-level category files it there |
| Index.CategorizeItemBucket | src/shared/components/catalog/utils/category-utils.ts:68-85 | per bucket: one item appends its uid once, at the end, to exactly the buckets it belongs to |
| Index.CategorizeMembership | src/shared/components/catalog/utils/category-utils.ts:61-88 | a uid is in a bucket iff some input item carrying that uid belongs to the bucket (`all`, a matched category or node id, or `other` when unmatched) |
| CategorizeLoop.CategorizeInPlace | src/shared/components/catalog/utils/category-utils.ts:61-88 | the three nested loops with the per-item flag compute the same index as the fold |
| CategorizeLoop.FileItem | src/shared/components/catalog/utils/category-utils.ts:68-85 | the outer loop body computes one fold step, with the flag set exactly when some category matched |
| CategorizeLoop.FileMatches | src/shared/components/catalog/utils/category-utils.ts:75-79 | the innermost loop files under the top-level id and each matched node's id in order, and sets the flag exactly when some node matched or it was already set |
| IndexProperties.BucketsHoldInputUids | src/shared/components/catalog/utils/category-utils.ts:65-85 | every bucket holds only uids of input items, none twice |
| IndexProperties.MatchedNodesRecorded | src/shared/components/catalog/utils/category-utils.ts:73-79 | for every top-level category and every node it matches, the item's uid is in both the category's bucket and the node's bucket |
| IndexProperties.OwnBuckets | src/shared/components/catalog/utils/category-utils.ts:68-85 | with distinct uids, an item's uid is in exactly the buckets that item belongs to |
| IndexProperties.ReservedNeverMatched | src/shared/components/catalog/utils/category-utils.ts:73-79 | when no node uses the `all` or `other` id, a category never files anything under those ids |
| IndexProperties.OtherExactlyWhenUncategorized | src/shared/components/catalog/utils/category-utils.ts:69-84 | with distinct uids and no node using a reserved id: in `other` iff no top-level category matched, iff in no category bucket |
| IndexProperties.UntaggedItemOnlyAllAndOther | src/shared/components/catalog/utils/category-utils.ts:68-85 | with distinct uids, an item without tags lands in `all` and `other` and nowhere else |
| IndexProperties.ExampleMatches | src/shared/components/catalog/utils/category-utils.ts:31-36 | in the `db`/`sql` example the `sql` item matches `[sql, sql]` and the `nosql` item matches nothing |
| IndexProperties.ExampleIndex | src/shared/components/catalog/utils/category-utils.ts:61-88 | the example index is all -> [1, 2], db -> [1], sql -> [1], other -> [2] |
| Navigation.FindActiveIsFirstInPreOrder | src/shared/components/catalog/utils/category-utils.ts:90-107 | the search returns nothing iff no node of the pre-order listing has the id, and otherwise the first such node of the listing |
| Navigation.FindActiveInTree | src/shared/components/catalog/utils/category-utils.ts:90-107 | the search returns nothing iff no node anywhere in the tree has the id; what it returns is a node of the tree with that id |
| Navigation.FindActiveUnique | src/shared/components/catalog/utils/category-utils.ts:90-107 | when exactly one node of the tree has the id, that node is returned |
| Navigation.PreOrderMembers | src/shared/components/catalog/utils/category-utils.ts:95-104 | the pre-order listing the search follows contains exactly the top-level entries and their descendants |
| Navigation.HasActiveDescendantIff | src/shared/components/catalog/utils/category-utils.ts:109-115 | true iff the id is a key of the child collection of the node or of some proper descendant |
| Navigation.ActiveTabImpliesDescendant | src/shared/components/catalog/utils/category-utils.ts:109-119 | a shallow key hit implies the deep one; a node without a child collection has neither |
| Navigation.WellKeyedActiveTab | src/shared/components/catalog/utils/category-utils.ts:117-119 | when keys are the children's ids, the shallow check asks whether a direct child has the id |
| Navigation.WellKeyedActiveDescendant | src/shared/components/catalog/utils/category-utils.ts:109-115 | when keys are the children's ids all the way down, the deep check asks whether some proper descendant has the id |

## Left out

- `src/hooks/useApplicationsInfo.ts` is not part of this model. It is an asynchronous Kubernetes fetch with React state and an unmount flag, so it is I/O and framework code.
- `src/shared/components/breadcrumbs/BreadCrumbs.tsx` is not part of this model. It only renders markup; its only logic is a last-element test.
- The `TypeError` thrown at line 32 is not modelled. It happens when a child reached during matching has no tags. `Evaluable` is a precondition that excludes exactly those inputs; subtrees behind a non-matching child stay unconstrained.
- lodash `has` path syntax is not modelled: ids containing `.` or `[` are treated as plain keys. The keys of a child collection are abstract. So array indices, and the own `length` key of an array, are not modelled.
- Bucket ids that name inherited properties of a plain JavaScript object (such as `constructor`) are not modelled. The index starts as the empty map.
- The key order of the returned record is not modelled. Neither is the unused `NO_GROUPING` constant (line 7).
- `categorize` mutates one accumulator. The model uses a pure fold, plus a method over an immutable map value that mirrors the loops.
