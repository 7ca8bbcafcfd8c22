# Inventory hash table, follower graph and factorial: a Dafny model

This project models the three coursework programs of the repository.
It covers their data structures and algorithms, not their console menus.

- **`inventory.dfy`, module `Inventory` (`Question_1.py`).** The baby-product store.
  - `HashTable` is an array of `size` bucket heads. Each bucket is a singly-linked chain of `Node`s.
  - A product goes to bucket `hash(product_id) % size`.
  - Insert walks to the chain's tail and appends there.
  - Search and delete scan one chain from its head and act on the first matching id. Delete tracks the previous node (`prev`), and unlinks the node or resets the bucket head.
  - `count` tracks the number of stored products.
  - `display_all` visits the buckets in index order.
  - `ArrayStorage` is the append-only list the table is compared against.
  - The comparison loads the same products into both structures and searches each id in both.

  The table is modelled with real mutable nodes:
  - Three ghost fields hold the abstraction. `Chains` holds the products of each bucket, head to tail. `Nodes` holds the nodes. `Position` records where each node sits, so no node is shared between two places.
  - `Chains` as a value is what every contract speaks about. Chain value functions specify each operation: `InsertChain`, `FirstMatch` and `RemoveFirst`.
  - `Flatten` specifies the enumeration. `InsertAll` specifies a sequence of inserts.
- **`socialgraph.dfy`, module `SocialGraph` (`Question_2.py`).** The directed follower graph.
  - The `vertices` and `edges` dictionaries have the same key set.
  - An insertion-order sequence `order` stands for Python's dictionary key order, which `get_all_vertices` and `list_incoming_adjacent_vertices` expose.
  - The graph also covers the checks the application performs before a follow or an unfollow.
- **`factorial.dfy`, module `Factorial` (`Question_3.py`).** The iterative factorial and the results list of one sequential round.
- **`options.dfy`, module `Options`.** Python's `None` results as an `Option`.

Invariants proved for every state change:
- **Hash table.** Every product lies in the bucket of its id. `count` is the number of stored products. The bucket heads and `next` links spell out exactly the ghost chains.
- **Graph.** The two dictionaries share their keys. `order` lists each vertex once. No edge list repeats a target. Every target is a vertex.

## Model

| member | source | states |
|---|---|---|
| Inventory.BucketOf | Question_1.py:37-40 | the bucket index lies in [0, size) for any hash value, negative ones included, when size > 0 |
| Inventory.FirstMatchIndex | Question_1.py:68-71 | the scan stops at a position holding the id with no earlier product holding it, or at the end when no product does |
| Inventory.FirstMatch | Question_1.py:130-135 | the scan returns None exactly when no product has the id; otherwise a product with that id taken from the chain |
| Inventory.FirstMatchConcat | Question_1.py:130-135 | scanning a concatenation finds the first part's match, otherwise the second part's |
| Inventory.RemoveFirstContents | Question_1.py:83-103 | delete takes out exactly the matched product, shortening the chain by one; with no match the chain is unchanged, so a repeated failed delete changes nothing |
| Inventory.RemoveFirstKeepsOthers | Question_1.py:83-95 | after a delete, searches for every other id return what they returned before |
| Inventory.SearchAfterRemoveFirst | Question_1.py:83-95 | after a successful delete, a search for the same id finds the next product with that id further down the chain, if any |
| Inventory.SearchAfterInsert | Question_1.py:42-74 | after an insert, a search finds the earlier match if there was one, otherwise the new product when it has the id; earlier duplicates stay in front |
| Inventory.BucketsConsistentAppend | Question_1.py:44-57 | appending a product to the bucket of its id keeps every product in its own bucket |
| Inventory.BucketsConsistentRemove | Question_1.py:86-91 | unlinking any node keeps every product in its own bucket |
| Inventory.EmptyChains | Question_1.py:34-35 | a new table has `size` buckets, all empty, and so enumerates no product |
| Inventory.FlattenUpdateLength | Question_1.py:59 | replacing one chain changes the number of stored products by the change in that chain's length (the `count` bookkeeping) |
| Inventory.FlattenUpdate | Question_1.py:50-91 | replacing one chain, as the links at lines 50 and 57 and the unlinks at lines 88 and 91 do, changes the stored products, as a multiset, by the difference between the old and new chain |
| Inventory.ContentsAfterInsert | Question_1.py:42-59 | an insert adds exactly the product to the table's contents, as a multiset |
| Inventory.ContentsAfterDelete | Question_1.py:76-103 | a delete takes exactly the bucket's first match out of the table's contents, and nothing when there is none |
| Inventory.FlattenMembership | Question_1.py:111-118 | a product is enumerated exactly when it is in some bucket's chain |
| Inventory.MatchesLieInOwnBucket | Question_1.py:62-74 | when every product sits in its own bucket, a miss in the id's bucket means no product in the table has the id |
| Inventory.FlattenOrderedByBucket | Question_1.py:111-118 | the enumeration visits products in non-decreasing bucket index |
| Inventory.InsertAllFromEmpty | Question_1.py:44-57 | after inserting products into an empty table, bucket b holds exactly the products of that bucket, in insertion order |
| Inventory.FirstMatchInBucket | Question_1.py:130-135 | scanning only the id's bucket of the inserted products finds the same product as scanning all of them |
| Inventory.HashSearchMatchesLinearSearch | Question_1.py:259-262 | after the same inserts, the table's search and the list's search return the same product |
| Inventory.FlattenIsEmpty | Question_1.py:34-35 | a table of empty buckets enumerates no product |
| Inventory.Node.constructor | Question_1.py:23-26 | a new node holds the product and links to nothing |
| Inventory.LinksAfterAppend | Question_1.py:57 | after the tail is pointed at the new node, and the new node at nothing, every node links to its successor in the longer chain |
| Inventory.LinksAfterRemove | Question_1.py:86-91 | after the node before the removed one is pointed past it, every node links to its successor in the shorter chain |
| Inventory.HashTable.constructor | Question_1.py:31-35 | the new table has `size` empty buckets and count 0 |
| Inventory.HashTable.Insert | Question_1.py:42-59 | the product goes at the end of its id's bucket, other buckets are unchanged, count grows by one, duplicates are kept and the invariant holds |
| Inventory.HashTable.LinkFirst | Question_1.py:48-50 | into an empty bucket, the new node becomes the head and the bucket's only node |
| Inventory.HashTable.LinkAfter | Question_1.py:53-57 | the new node is linked after the bucket's last node, giving it the longer chain |
| Inventory.HashTable.Search | Question_1.py:62-74 | returns the first product of the id's chain with that id, or None; None exactly when no stored product has the id; nothing changes |
| Inventory.HashTable.Delete | Question_1.py:76-103 | true exactly when the id's bucket holds the id; then the first match is unlinked and count drops by one; otherwise false with the table unchanged |
| Inventory.HashTable.UnlinkFirst | Question_1.py:86-88 | removing a bucket's first node makes its successor the head |
| Inventory.HashTable.UnlinkAfter | Question_1.py:89-91 | pointing the previous node past the k-th node removes exactly that node from the chain |
| Inventory.HashTable.DisplayAll | Question_1.py:105-119 | lists every stored product, bucket by bucket in increasing index and each chain head to tail: count products in non-decreasing bucket order |
| Inventory.HashTable.BucketListing | Question_1.py:114-118 | the walk from a bucket head visits exactly that bucket's chain, in order |
| Inventory.ArrayStorage.constructor | Question_1.py:124-125 | the list starts empty |
| Inventory.ArrayStorage.Insert | Question_1.py:127-128 | the product is appended at the end |
| Inventory.ArrayStorage.Search | Question_1.py:130-135 | returns the first inserted product with the id, or None |
| Inventory.BuildTable | Question_1.py:256-261 | a new default-size table holding the products inserted in order |
| Inventory.BuildList | Question_1.py:257-262 | a new list holding the products in order |
| Inventory.SearchTable | Question_1.py:270-279 | each id's table search result, in order |
| Inventory.SearchList | Question_1.py:288-294 | each id's list search result, in order |
| Inventory.PerformanceComparison | Question_1.py:255-299 | both structures return, for every searched id, the first product with that id among the loaded products, so their results agree |
| SocialGraph.IndexOf | Question_2.py:31-32 | the first position of a value in a list, or the list's length when it is absent |
| SocialGraph.RemoveValue | Question_2.py:32 | removing a present value shortens the list by one; removing an absent value changes nothing |
| SocialGraph.RemoveValueMembership | Question_2.py:29-34 | in a list without repeats, removing v drops exactly v, and the list stays without repeats |
| SocialGraph.RemoveAppended | Question_2.py:19-34 | removing the edge that an append just added restores the list |
| SocialGraph.FollowersMembership | Question_2.py:43-55 | a vertex is listed as incoming exactly when it is among the keys and its edge list holds the target |
| SocialGraph.FollowersNoDuplicates | Question_2.py:43-55 | the incoming list repeats no vertex |
| SocialGraph.Graph.constructor | Question_2.py:3-9 | the graph starts with no vertices and no edges |
| SocialGraph.Graph.AddVertex | Question_2.py:11-17 | true exactly for a new id, which gets its data, an empty edge list and the last place in the key order; otherwise false and nothing changes; after a successful add, the vertex's data is the data given |
| SocialGraph.Graph.AddEdge | Question_2.py:19-27 | true exactly when both ends are vertices and the edge is absent; then the target is appended to the source's list; otherwise nothing changes |
| SocialGraph.Graph.RemoveEdge | Question_2.py:29-34 | true exactly when the source is a vertex whose list holds the target; then the target is removed and the rest keeps its order; otherwise nothing changes |
| SocialGraph.Graph.ListOutgoing | Question_2.py:36-41 | the targets of the vertex, none for an unknown id, without repeats and all vertices |
| SocialGraph.Graph.ListIncoming | Question_2.py:43-55 | exactly the vertices with an edge to the target, in insertion order, each once |
| SocialGraph.Graph.GetVertexData | Question_2.py:57-59 | data exists exactly for the ids that `get_all_vertices` lists, and it is the data stored for that id |
| SocialGraph.Graph.GetAllVertices | Question_2.py:61-63 | every vertex id exactly once |
| SocialGraph.FollowThenUnfollow | Question_2.py:19-34 | following and then unfollowing the same user restores the edges |
| SocialGraph.FollowUser | Question_2.py:260-301 | reports the first failed check (unknown follower, unknown target, self-follow, already following); otherwise adds the edge, and never reaches the failure branch |
| SocialGraph.UnfollowUser | Question_2.py:303-344 | reports the first failed check (unknown user, follows nobody, not following the target); otherwise removes the edge, and never reaches the failure branch |
| Factorial.Fact | Question_3.py:10-20 | n! is at least 1, and at least n for n >= 1 |
| Factorial.FactMonotone | Question_3.py:10-20 | factorials never decrease |
| Factorial.ProductCompletesFact | Question_3.py:14-18 | multiplying (lo - 1)! by lo, ..., hi in turn gives hi! |
| Factorial.FactIsAscendingProduct | Question_3.py:10-20 | n! equals 1 * 2 * ... * n, the order in which the loop multiplies, for every n; both are 1 when n <= 0 |
| Factorial.CalculateFactorial | Question_3.py:10-20 | the loop returns n!, which is 1 when n <= 0 because the range is then empty |
| Factorial.SequentialRound | Question_3.py:128-138 | one result per number, the i-th being the factorial of the i-th number |

## Left out

- Console I/O: every `print` and `input`, the menu loops of `InventorySystem` and `SocialMediaApp`, and their interactive wrappers. The follow and unfollow requests take their two names as parameters.
- Python's built-in `hash`, which is randomized per run for strings. Each table receives its hash function as a parameter.
- `size > 0` is a precondition of the table constructor. The code does no validation. A size of 0 raises a division-by-zero error at the modulo (Question_1.py:40). A negative size gives an empty table (line 34) and a non-positive bucket index, so `insert`, `search` and `delete` fail indexing the table (lines 48, 65, 79), while the constructor and `display_all` do not fail. No `InvalidConfiguration` error exists in the code, so none is modelled.
- Products and profiles are values, and the product fields other than the id are opaque payload; `price` is a float in the source and a `real` here, and nothing reads it. Python object identity of products is not modelled, nor is the aliasing of the list that `list_outgoing_adjacent_vertices` returns.
- `HashTable.DisplayAll` returns the sequence of products it visits, without the bucket headings and formatting. `BabyProduct.__str__` and `Person.display_profile` are formatting only.
- `HashTable.Delete` is written as a scan that stops at the first match and then unlinks it. `HashTable.Insert` hands the linking to `LinkFirst` or `LinkAfter`. `insert` has the same if/else as the source, empty bucket or tail walk, and `delete` has the same branches and effects as the source's single loop.
- `PerformanceComparison` fills the list before the table, and puts the loading and the two search loops in helper methods. The two structures hold the same product objects in the source, but no product is ever mutated and neither structure's state depends on the other's, so the results are the same as with the source's interleaved insertions.
- The fixed test products and search ids of the comparison are parameters.
- Timing and floating point: `time.perf_counter`, `perf_counter_ns`, the averages, speedups and ratios.
- Threading: `FactorialThread` and `multithreading_test`.
- `sequential_test` repeats one identical round `rounds` times. Only one round is modelled, without its timings. The numbers `[50, 100, 200]` are a parameter.
- `add_user_profile` and `initialize_profiles` (Question_2.py:91-139, 233-258) are console input and fixed data around `AddVertex` and `AddEdge`; the privacy default of `add_user_profile` is not modelled.
