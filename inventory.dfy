/**
 * The baby-product inventory store: a hash table with separate chaining
 * (a fixed array of bucket heads, each bucket a singly-linked chain of
 * nodes) and the plain list it is compared against.
 *
 * Python's built-in `hash` is not modelled: every table is given its hash
 * function when it is created, and a product lands in bucket
 * `hash(id) % size`.
 */
module Inventory {
  import opened Options

  type ProductId = string

  /** A product record; the store only ever looks at `productId`. The other
      fields are opaque payload (`price` is a float in the source). */
  datatype BabyProduct = BabyProduct(
    productId: ProductId,
    name: string,
    category: string,
    price: real,
    stockQuantity: int,
    ageRange: string)

  /** The default number of buckets. */
  const HashTableSize: int := 10

  /** The hash function of a table: the bucket of `productId` among `size`.
      Python's `%` with a positive divisor lands in [0, size), as Dafny's does,
      whatever the sign of the hash value. */
  function BucketOf(hash: ProductId -> int, size: int, productId: ProductId): (r: int)
    requires size > 0
    ensures 0 <= r < size
  {
    hash(productId) % size
  }

  // ---------------------------------------------------------------------
  // Chains as values: scanning for the first match and removing it
  // ---------------------------------------------------------------------

  /** The position of the first product in `s` with id `productId`
      (|s| when there is none). */
  function FirstMatchIndex(s: seq<BabyProduct>, productId: ProductId): (k: nat)
    ensures k <= |s|
    ensures forall j | 0 <= j < k :: s[j].productId != productId
    ensures k < |s| ==> s[k].productId == productId
  {
    if s == [] then 0
    else if s[0].productId == productId then 0
    else 1 + FirstMatchIndex(s[1..], productId)
  }

  /** What a scan from the head of `s` returns: the first product with the
      id, or None. */
  function FirstMatch(s: seq<BabyProduct>, productId: ProductId): (r: Option<BabyProduct>)
    ensures r.None? <==> forall p | p in s :: p.productId != productId
    ensures r.Some? ==> r.value.productId == productId && r.value in s
  {
    var k := FirstMatchIndex(s, productId);
    if k < |s| then Some(s[k]) else None
  }

  /** `s` without its element at position `k`. */
  function RemoveAt<T>(s: seq<T>, k: int): (r: seq<T>)
    requires 0 <= k < |s|
    ensures |r| == |s| - 1
  {
    s[..k] + s[k + 1..]
  }

  lemma RemoveAtIndex<T>(s: seq<T>, k: int, j: int)
    requires 0 <= k < |s| && 0 <= j < |s| - 1
    ensures RemoveAt(s, k)[j] == if j < k then s[j] else s[j + 1]
  {
  }

  /** `s` with its first product of id `productId` unlinked. */
  function RemoveFirst(s: seq<BabyProduct>, productId: ProductId): seq<BabyProduct>
  {
    var k := FirstMatchIndex(s, productId);
    if k < |s| then RemoveAt(s, k) else s
  }

  /** The first match is determined by the scan's two facts. */
  lemma FirstMatchIndexUnique(s: seq<BabyProduct>, productId: ProductId, k: nat)
    requires k <= |s|
    requires forall j | 0 <= j < k :: s[j].productId != productId
    requires k < |s| ==> s[k].productId == productId
    ensures FirstMatchIndex(s, productId) == k
  {
  }

  /** Scanning `a + b` finds the first match in `a`, otherwise the first in `b`. */
  lemma FirstMatchConcat(a: seq<BabyProduct>, b: seq<BabyProduct>, productId: ProductId)
    ensures FirstMatch(a + b, productId)
         == if FirstMatch(a, productId).Some? then FirstMatch(a, productId) else FirstMatch(b, productId)
  {
    var ka := FirstMatchIndex(a, productId);
    var kb := FirstMatchIndex(b, productId);
    if ka < |a| {
      FirstMatchIndexUnique(a + b, productId, ka);
    } else {
      assert forall j | |a| <= j < |a| + kb :: (a + b)[j] == b[j - |a|];
      FirstMatchIndexUnique(a + b, productId, |a| + kb);
    }
  }

  /** Removing the first match takes out exactly that product; with no
      match the chain is unchanged, so a repeated removal changes nothing. */
  lemma RemoveFirstContents(s: seq<BabyProduct>, productId: ProductId)
    ensures FirstMatch(s, productId).None? ==> RemoveFirst(s, productId) == s
    ensures FirstMatch(s, productId).Some? ==>
              && |RemoveFirst(s, productId)| == |s| - 1
              && multiset(RemoveFirst(s, productId)) + multiset{FirstMatch(s, productId).value} == multiset(s)
  {
    var k := FirstMatchIndex(s, productId);
    if k < |s| {
      assert s == s[..k] + [s[k]] + s[k + 1..];
    }
  }

  /** A scan for any other id after the removal finds what it found before. */
  lemma RemoveFirstKeepsOthers(s: seq<BabyProduct>, productId: ProductId, other: ProductId)
    requires other != productId
    ensures FirstMatch(RemoveFirst(s, productId), other) == FirstMatch(s, other)
  {
    var k := FirstMatchIndex(s, productId);
    if k < |s| {
      var r := RemoveAt(s, k);
      var ko := FirstMatchIndex(s, other);
      // the other id's first match moves one place forward when it lies past k
      var ko' := if ko < k then ko else ko - 1;
      forall j | 0 <= j < |r|
        ensures r[j] == if j < k then s[j] else s[j + 1]
      {
      }
      FirstMatchIndexUnique(r, other, ko');
    }
  }

  /** After a successful removal a scan for the same id finds the next
      product with that id further down the chain, if there is one. */
  lemma SearchAfterRemoveFirst(s: seq<BabyProduct>, productId: ProductId)
    requires FirstMatch(s, productId).Some?
    ensures FirstMatch(RemoveFirst(s, productId), productId)
         == FirstMatch(s[FirstMatchIndex(s, productId) + 1..], productId)
  {
    var k := FirstMatchIndex(s, productId);
    FirstMatchIndexUnique(s[..k], productId, k);
    FirstMatchConcat(s[..k], s[k + 1..], productId);
  }

  // ---------------------------------------------------------------------
  // The whole table as a value: one chain per bucket
  // ---------------------------------------------------------------------

  /** Every product sits in the bucket its id hashes to. */
  ghost predicate BucketsConsistent(hash: ProductId -> int, size: int, chains: seq<seq<BabyProduct>>)
  {
    && size > 0
    && forall i, k | 0 <= i < |chains| && 0 <= k < |chains[i]| ::
         BucketOf(hash, size, chains[i][k].productId) == i
  }

  lemma BucketsConsistentAppend(hash: ProductId -> int, size: int, chains: seq<seq<BabyProduct>>,
                                product: BabyProduct)
    requires |chains| == size && BucketsConsistent(hash, size, chains)
    ensures BucketsConsistent(hash, size, InsertChain(hash, size, chains, product))
  {
    var b := BucketOf(hash, size, product.productId);
    var chains': seq<seq<BabyProduct>> := InsertChain(hash, size, chains, product);
    forall i, k | 0 <= i < |chains'| && 0 <= k < |chains'[i]|
      ensures BucketOf(hash, size, chains'[i][k].productId) == i
    {
      if i != b || k < |chains[b]| {
        assert chains'[i][k] == chains[i][k];
      }
    }
  }

  lemma BucketsConsistentRemove(hash: ProductId -> int, size: int, chains: seq<seq<BabyProduct>>,
                                b: int, k: int)
    requires BucketsConsistent(hash, size, chains) && 0 <= b < |chains| && 0 <= k < |chains[b]|
    ensures BucketsConsistent(hash, size, chains[b := RemoveAt(chains[b], k)])
  {
    var chains': seq<seq<BabyProduct>> := chains[b := RemoveAt(chains[b], k)];
    forall i, j | 0 <= i < |chains'| && 0 <= j < |chains'[i]|
      ensures BucketOf(hash, size, chains'[i][j].productId) == i
    {
      var m := if i == b && j >= k then j + 1 else j;
      assert chains'[i][j] == chains[i][m];
    }
  }

  /** The buckets in increasing index, each chain head to tail. */
  function Flatten(chains: seq<seq<BabyProduct>>): seq<BabyProduct>
  {
    if chains == [] then [] else Flatten(chains[..|chains| - 1]) + chains[|chains| - 1]
  }

  /** A table of `size` empty buckets, which holds no product. */
  function EmptyChains(size: nat): (r: seq<seq<BabyProduct>>)
    ensures |r| == size && forall i | 0 <= i < size :: r[i] == []
    ensures Flatten(r) == []
  {
    var r := seq(size, _ => []);
    FlattenIsEmpty(r);
    r
  }

  /** The table after one insert: the product goes at the end of its bucket. */
  function InsertChain(hash: ProductId -> int, size: int, chains: seq<seq<BabyProduct>>,
                       product: BabyProduct): seq<seq<BabyProduct>>
    requires size > 0 && |chains| == size
  {
    var b := BucketOf(hash, size, product.productId);
    chains[b := chains[b] + [product]]
  }

  /** The table after inserting `products` in order. */
  function InsertAll(hash: ProductId -> int, size: int, chains: seq<seq<BabyProduct>>,
                     products: seq<BabyProduct>): (r: seq<seq<BabyProduct>>)
    requires size > 0 && |chains| == size
    ensures |r| == size
  {
    if products == [] then chains
    else InsertChain(hash, size, InsertAll(hash, size, chains, products[..|products| - 1]),
                     products[|products| - 1])
  }

  /** A search after an insert finds what it found before, or else the
      inserted product when it has the id: duplicates stay behind the
      product inserted first. */
  lemma SearchAfterInsert(hash: ProductId -> int, size: int, chains: seq<seq<BabyProduct>>,
                          product: BabyProduct, productId: ProductId)
    requires size > 0 && |chains| == size
    ensures var b := BucketOf(hash, size, productId);
              FirstMatch(InsertChain(hash, size, chains, product)[b], productId)
              == if FirstMatch(chains[b], productId).Some? then FirstMatch(chains[b], productId)
                 else if product.productId == productId then Some(product)
                 else None
  {
    var b := BucketOf(hash, size, productId);
    if BucketOf(hash, size, product.productId) == b {
      FirstMatchConcat(chains[b], [product], productId);
    }
  }

  /** The products of `products`, in order, that belong to bucket `b`. */
  function InBucket(hash: ProductId -> int, size: int, products: seq<BabyProduct>, b: int): seq<BabyProduct>
    requires size > 0
  {
    if products == [] then []
    else
      var last := products[|products| - 1];
      InBucket(hash, size, products[..|products| - 1], b)
        + (if BucketOf(hash, size, last.productId) == b then [last] else [])
  }

  /** Replacing one chain changes the number of enumerated products by the
      difference in that chain's length. */
  lemma {:induction false} FlattenUpdateLength(chains: seq<seq<BabyProduct>>, b: int, s: seq<BabyProduct>)
    requires 0 <= b < |chains|
    ensures |Flatten(chains[b := s])| + |chains[b]| == |Flatten(chains)| + |s|
  {
    var n := |chains| - 1;
    if b == n {
      assert chains[b := s][..n] == chains[..n];
    } else {
      assert chains[b := s][..n] == chains[..n][b := s];
      FlattenUpdateLength(chains[..n], b, s);
    }
  }

  /** Replacing one chain changes the enumeration by exactly that chain. */
  lemma {:induction false} FlattenUpdate(chains: seq<seq<BabyProduct>>, b: int, s: seq<BabyProduct>)
    requires 0 <= b < |chains|
    ensures multiset(Flatten(chains[b := s])) + multiset(chains[b]) == multiset(Flatten(chains)) + multiset(s)
  {
    var n := |chains| - 1;
    if b == n {
      assert chains[b := s][..n] == chains[..n];
    } else {
      assert chains[b := s][..n] == chains[..n][b := s];
      FlattenUpdate(chains[..n], b, s);
      calc {
        multiset(Flatten(chains[b := s])) + multiset(chains[b]);
        multiset(Flatten(chains[..n][b := s])) + multiset(chains[n]) + multiset(chains[..n][b]);
        multiset(Flatten(chains[..n])) + multiset(s) + multiset(chains[n]);
        multiset(Flatten(chains)) + multiset(s);
      }
    }
  }

  /** An insert adds exactly the product to the table's contents. */
  lemma ContentsAfterInsert(hash: ProductId -> int, size: int, chains: seq<seq<BabyProduct>>,
                            product: BabyProduct)
    requires size > 0 && |chains| == size
    ensures multiset(Flatten(InsertChain(hash, size, chains, product)))
         == multiset(Flatten(chains)) + multiset{product}
  {
    var b := BucketOf(hash, size, product.productId);
    FlattenUpdate(chains, b, chains[b] + [product]);
    var x := multiset(chains[b]);
    var after, before := multiset(Flatten(InsertChain(hash, size, chains, product))), multiset(Flatten(chains));
    assert multiset(chains[b] + [product]) == x + multiset{product};
    assert after + x == (before + multiset{product}) + x;
    MultisetCancel(after, before + multiset{product}, x);
  }

  lemma MultisetCancel<T>(a: multiset<T>, b: multiset<T>, x: multiset<T>)
    requires a + x == b + x
    ensures a == b
  {
    forall e
      ensures a[e] == b[e]
    {
      assert (a + x)[e] == (b + x)[e];
    }
  }

  /** A delete takes exactly the first match of its bucket out of the
      table's contents, and nothing when there is no match. */
  lemma ContentsAfterDelete(hash: ProductId -> int, size: int, chains: seq<seq<BabyProduct>>,
                            productId: ProductId)
    requires size > 0 && |chains| == size
    ensures var b := BucketOf(hash, size, productId);
            var m := FirstMatch(chains[b], productId);
            multiset(Flatten(chains[b := RemoveFirst(chains[b], productId)]))
              + (if m.Some? then multiset{m.value} else multiset{})
            == multiset(Flatten(chains))
  {
    var b := BucketOf(hash, size, productId);
    var r := RemoveFirst(chains[b], productId);
    RemoveFirstContents(chains[b], productId);
    if FirstMatch(chains[b], productId).None? {
      assert chains[b := r] == chains;
    } else {
      FlattenUpdate(chains, b, r);
      var m := FirstMatch(chains[b], productId).value;
      var x := multiset(r);
      var after, before := multiset(Flatten(chains[b := r])), multiset(Flatten(chains));
      assert multiset(chains[b]) == x + multiset{m};
      assert (after + multiset{m}) + x == before + x;
      MultisetCancel(after + multiset{m}, before, x);
    }
  }

  /** A product is enumerated exactly when some bucket holds it. */
  lemma {:induction false} FlattenMembership(chains: seq<seq<BabyProduct>>, p: BabyProduct)
    ensures p in Flatten(chains) <==> exists i | 0 <= i < |chains| :: p in chains[i]
  {
    if chains != [] {
      var n := |chains| - 1;
      FlattenMembership(chains[..n], p);
      if p in Flatten(chains[..n]) {
        var i :| 0 <= i < n && p in chains[..n][i];
        assert p in chains[i];
      }
      if i :| 0 <= i < n && p in chains[i] {
        assert p in chains[..n][i];
      }
    }
  }

  /** A product with id `productId` can only be in that id's bucket, so
      searching that bucket is searching the whole table. */
  lemma MatchesLieInOwnBucket(hash: ProductId -> int, size: int, chains: seq<seq<BabyProduct>>,
                              productId: ProductId)
    requires |chains| == size && BucketsConsistent(hash, size, chains)
    ensures (forall p | p in Flatten(chains) :: p.productId != productId)
        <==> (forall p | p in chains[BucketOf(hash, size, productId)] :: p.productId != productId)
  {
    var b := BucketOf(hash, size, productId);
    forall p | p in Flatten(chains) && p.productId == productId
      ensures p in chains[b]
    {
      FlattenMembership(chains, p);
      var i :| 0 <= i < |chains| && p in chains[i];
      var k :| 0 <= k < |chains[i]| && chains[i][k] == p;
      assert BucketOf(hash, size, chains[i][k].productId) == i;
    }
    forall p | p in chains[b]
      ensures p in Flatten(chains)
    {
      FlattenMembership(chains, p);
    }
  }

  /** The enumeration visits the buckets in increasing index. */
  lemma {:induction false} FlattenOrderedByBucket(hash: ProductId -> int, size: int,
                                                  chains: seq<seq<BabyProduct>>)
    requires |chains| == size && BucketsConsistent(hash, size, chains)
    ensures forall j, l | 0 <= j < l < |Flatten(chains)| ::
              BucketOf(hash, size, Flatten(chains)[j].productId)
                <= BucketOf(hash, size, Flatten(chains)[l].productId)
  {
    OrderedPrefix(hash, size, chains, |chains|);
    assert chains[..|chains|] == chains;
  }

  lemma {:induction false} OrderedPrefix(hash: ProductId -> int, size: int,
                                         chains: seq<seq<BabyProduct>>, n: nat)
    requires |chains| == size && BucketsConsistent(hash, size, chains) && n <= size
    ensures forall j | 0 <= j < |Flatten(chains[..n])| ::
              BucketOf(hash, size, Flatten(chains[..n])[j].productId) < n
    ensures forall j, l | 0 <= j < l < |Flatten(chains[..n])| ::
              BucketOf(hash, size, Flatten(chains[..n])[j].productId)
                <= BucketOf(hash, size, Flatten(chains[..n])[l].productId)
  {
    if n > 0 {
      var front := chains[..n - 1];
      assert chains[..n][..n - 1] == front;
      OrderedPrefix(hash, size, chains, n - 1);
      var f := Flatten(chains[..n]);
      assert f == Flatten(front) + chains[n - 1];
      forall j | |Flatten(front)| <= j < |f|
        ensures BucketOf(hash, size, f[j].productId) == n - 1
      {
        assert f[j] == chains[n - 1][j - |Flatten(front)|];
      }
    }
  }

  /** Inserting into an empty table leaves in each bucket exactly the
      products that hash there, in insertion order. */
  lemma {:induction false} InsertAllFromEmpty(hash: ProductId -> int, size: int,
                                              products: seq<BabyProduct>, b: int)
    requires size > 0 && 0 <= b < size
    ensures InsertAll(hash, size, EmptyChains(size), products)[b] == InBucket(hash, size, products, b)
  {
    if products != [] {
      InsertAllFromEmpty(hash, size, products[..|products| - 1], b);
    }
  }

  /** Scanning the bucket of `productId` finds what scanning all products finds. */
  lemma {:induction false} FirstMatchInBucket(hash: ProductId -> int, size: int,
                                              products: seq<BabyProduct>, productId: ProductId)
    requires size > 0
    ensures FirstMatch(InBucket(hash, size, products, BucketOf(hash, size, productId)), productId)
         == FirstMatch(products, productId)
  {
    if products != [] {
      var n := |products| - 1;
      var b := BucketOf(hash, size, productId);
      var last := products[n];
      FirstMatchInBucket(hash, size, products[..n], productId);
      assert products == products[..n] + [last];
      FirstMatchConcat(products[..n], [last], productId);
      FirstMatchConcat(InBucket(hash, size, products[..n], b), [last], productId);
      if BucketOf(hash, size, last.productId) == b {
        assert InBucket(hash, size, products, b) == InBucket(hash, size, products[..n], b) + [last];
      } else {
        assert last.productId != productId;
        assert FirstMatch([last], productId).None?;
        assert InBucket(hash, size, products, b) == InBucket(hash, size, products[..n], b);
      }
    }
  }

  /** After the same inserts, the hash table's search and the linear
      search return the same product: products with equal ids share a
      bucket, in insertion order. */
  lemma HashSearchMatchesLinearSearch(hash: ProductId -> int, size: int,
                                      products: seq<BabyProduct>, productId: ProductId)
    requires size > 0
    ensures FirstMatch(InsertAll(hash, size, EmptyChains(size), products)[BucketOf(hash, size, productId)],
                       productId)
         == FirstMatch(products, productId)
  {
    InsertAllFromEmpty(hash, size, products, BucketOf(hash, size, productId));
    FirstMatchInBucket(hash, size, products, productId);
  }

  // ---------------------------------------------------------------------
  // The hash table itself: an array of chain heads and linked nodes
  // ---------------------------------------------------------------------

  /** A chain link. Its product is never reassigned; only `next` changes. */
  class Node {
    const product: BabyProduct
    var next: Node?

    constructor (product: BabyProduct)
      ensures this.product == product && next == null
    {
      this.product := product;
      next := null;
    }
  }

  /** The k-th node of a chain, or null past its end. */
  function NodeAt(nodes: seq<Node>, k: int): Node?
  {
    if 0 <= k < |nodes| then nodes[k] else null
  }

  /** The heap-free half of the table invariant: `nodes` has the shape of
      `chains` and carries its products, every node belongs to `repr`, and
      `position` records where each node sits, so no node is in two places. */
  ghost predicate Layout(nodes: seq<seq<Node>>, chains: seq<seq<BabyProduct>>,
                         position: map<Node, (int, int)>, repr: set<object>)
  {
    && |nodes| == |chains|
    && (forall i | 0 <= i < |nodes| :: |nodes[i]| == |chains[i]|)
    && (forall i, k | 0 <= i < |nodes| && 0 <= k < |nodes[i]| ::
          && nodes[i][k] in repr
          && nodes[i][k] in position && position[nodes[i][k]] == (i, k)
          && nodes[i][k].product == chains[i][k])
  }

  /** A node's position once the node at `removed` of bucket `b` is unlinked. */
  function Shifted(position: (int, int), b: int, removed: int): (int, int)
  {
    if position.0 == b && position.1 > removed then (b, position.1 - 1) else position
  }

  /** The positions once `removed`, the node at `k` of bucket `b`, is unlinked. */
  function Unplaced(position: map<Node, (int, int)>, removed: Node, b: int, k: int): map<Node, (int, int)>
  {
    map n | n in position && n != removed :: Shifted(position[n], b, k)
  }

  lemma LayoutAppend(nodes: seq<seq<Node>>, chains: seq<seq<BabyProduct>>,
                     position: map<Node, (int, int)>, repr: set<object>, b: int, node: Node)
    requires Layout(nodes, chains, position, repr) && 0 <= b < |nodes| && node !in repr
    ensures Layout(nodes[b := nodes[b] + [node]], chains[b := chains[b] + [node.product]],
                   position[node := (b, |nodes[b]|)], repr + {node})
  {
    var nodes', chains' := nodes[b := nodes[b] + [node]], chains[b := chains[b] + [node.product]];
    forall i, k | 0 <= i < |nodes'| && 0 <= k < |nodes'[i]| && (i != b || k != |nodes[b]|)
      ensures nodes'[i][k] == nodes[i][k] && chains'[i][k] == chains[i][k]
    {
    }
  }

  /** The node now at (i, j) of the shortened layout is placed there by the
      shifted positions and carries the product now at (i, j). */
  lemma LayoutRemoveOne(nodes: seq<seq<Node>>, chains: seq<seq<BabyProduct>>,
                        position: map<Node, (int, int)>, repr: set<object>, b: int, k: int,
                        i: int, j: int)
    requires Layout(nodes, chains, position, repr) && 0 <= b < |nodes| && 0 <= k < |nodes[b]|
    requires 0 <= i < |nodes| && 0 <= j < (if i == b then |nodes[b]| - 1 else |nodes[i]|)
    ensures var nodes': seq<seq<Node>> := nodes[b := RemoveAt(nodes[b], k)];
            var chains': seq<seq<BabyProduct>> := chains[b := RemoveAt(chains[b], k)];
            var position' := Unplaced(position, nodes[b][k], b, k);
            && nodes'[i][j] in repr
            && nodes'[i][j] in position' && position'[nodes'[i][j]] == (i, j)
            && nodes'[i][j].product == chains'[i][j]
  {
    // the node that now sits at (i, j) sat at (i, m)
    var m := if i == b && j >= k then j + 1 else j;
    if i == b {
      RemoveAtIndex(nodes[b], k, j);
      RemoveAtIndex(chains[b], k, j);
    }
    assert position[nodes[i][m]] == (i, m) && position[nodes[b][k]] == (b, k);
  }

  lemma LayoutRemove(nodes: seq<seq<Node>>, chains: seq<seq<BabyProduct>>,
                     position: map<Node, (int, int)>, repr: set<object>, b: int, k: int)
    requires Layout(nodes, chains, position, repr) && 0 <= b < |nodes| && 0 <= k < |nodes[b]|
    ensures Layout(nodes[b := RemoveAt(nodes[b], k)], chains[b := RemoveAt(chains[b], k)],
                   Unplaced(position, nodes[b][k], b, k), repr)
  {
    var nodes': seq<seq<Node>> := nodes[b := RemoveAt(nodes[b], k)];
    var chains': seq<seq<BabyProduct>> := chains[b := RemoveAt(chains[b], k)];
    var position' := Unplaced(position, nodes[b][k], b, k);
    forall i | 0 <= i < |nodes'|
      ensures |nodes'[i]| == |chains'[i]|
    {
    }
    forall i, j | 0 <= i < |nodes'| && 0 <= j < |nodes'[i]|
      ensures && nodes'[i][j] in repr
              && nodes'[i][j] in position' && position'[nodes'[i][j]] == (i, j)
              && nodes'[i][j].product == chains'[i][j]
    {
      LayoutRemoveOne(nodes, chains, position, repr, b, k, i, j);
    }
  }

  /** The links once the node at position k of bucket b is unlinked: the
      node before it, if any, now points at its successor, and no other
      node's link has changed. */
  twostate lemma LinksAfterRemove(new nodes: seq<seq<Node>>, new chains: seq<seq<BabyProduct>>,
                                  new position: map<Node, (int, int)>, new repr: set<object>,
                                  new b: int, new k: int)
    requires Layout(nodes, chains, position, repr) && 0 <= b < |nodes| && 0 <= k < |nodes[b]|
    requires forall i, j | 0 <= i < |nodes| && 0 <= j < |nodes[i]| :: old(allocated(nodes[i][j]))
    requires forall i, j {:trigger nodes[i][j].next} | 0 <= i < |nodes| && 0 <= j < |nodes[i]| ::
               old(nodes[i][j].next) == NodeAt(nodes[i], j + 1)
    requires k > 0 ==> nodes[b][k - 1].next == NodeAt(nodes[b], k + 1)
    requires forall i, j {:trigger nodes[i][j].next}
               | 0 <= i < |nodes| && 0 <= j < |nodes[i]| && (k == 0 || nodes[i][j] != nodes[b][k - 1]) ::
               nodes[i][j].next == old(nodes[i][j].next)
    ensures var after: seq<seq<Node>> := nodes[b := RemoveAt(nodes[b], k)];
            forall i, j {:trigger after[i][j].next} | 0 <= i < |after| && 0 <= j < |after[i]| ::
              after[i][j].next == NodeAt(after[i], j + 1)
  {
    var after: seq<seq<Node>> := nodes[b := RemoveAt(nodes[b], k)];
    forall i, j | 0 <= i < |after| && 0 <= j < |after[i]|
      ensures after[i][j].next == NodeAt(after[i], j + 1)
    {
      var m := if i == b && j >= k then j + 1 else j;
      assert after[i][j] == nodes[i][m];
      if k > 0 && (i != b || j != k - 1) {
        assert position[nodes[i][m]] == (i, m) && position[nodes[b][k - 1]] == (b, k - 1);
      }
    }
  }

  /** The links once `node` is appended to bucket b: the former last node,
      if any, now points at it, `node` ends the chain, and no other node's
      link has changed. */
  twostate lemma LinksAfterAppend(new nodes: seq<seq<Node>>, new chains: seq<seq<BabyProduct>>,
                                  new position: map<Node, (int, int)>, new repr: set<object>,
                                  new b: int, new node: Node)
    requires Layout(nodes, chains, position, repr) && 0 <= b < |nodes|
    requires forall i, j | 0 <= i < |nodes| && 0 <= j < |nodes[i]| :: old(allocated(nodes[i][j]))
    requires forall i, j {:trigger nodes[i][j].next} | 0 <= i < |nodes| && 0 <= j < |nodes[i]| ::
               old(nodes[i][j].next) == NodeAt(nodes[i], j + 1)
    requires |nodes[b]| > 0 ==> nodes[b][|nodes[b]| - 1].next == node
    requires node.next == null
    requires forall i, j {:trigger nodes[i][j].next}
               | 0 <= i < |nodes| && 0 <= j < |nodes[i]| && (|nodes[b]| == 0 || nodes[i][j] != nodes[b][|nodes[b]| - 1]) ::
               nodes[i][j].next == old(nodes[i][j].next)
    ensures var after: seq<seq<Node>> := nodes[b := nodes[b] + [node]];
            forall i, j {:trigger after[i][j].next} | 0 <= i < |after| && 0 <= j < |after[i]| ::
              after[i][j].next == NodeAt(after[i], j + 1)
  {
    var after: seq<seq<Node>> := nodes[b := nodes[b] + [node]];
    forall i, j | 0 <= i < |after| && 0 <= j < |after[i]|
      ensures after[i][j].next == NodeAt(after[i], j + 1)
    {
      if i != b || j < |nodes[b]| {
        assert after[i][j] == nodes[i][j];
        if |nodes[b]| > 0 && (i != b || j != |nodes[b]| - 1) {
          assert position[nodes[i][j]] == (i, j) && position[nodes[b][|nodes[b]| - 1]] == (b, |nodes[b]| - 1);
        }
      }
    }
  }

  class HashTable {
    const size: int
    const hash: ProductId -> int
    const table: array<Node?>
    var count: int

    // public view: the products of each bucket, head to tail
    ghost var Chains: seq<seq<BabyProduct>>
    // the nodes of each bucket, head to tail
    ghost var Nodes: seq<seq<Node>>
    // where each node sits
    ghost var Position: map<Node, (int, int)>
    ghost var Repr: set<object>

    ghost predicate Valid()
      reads this, Repr
    {
      Shape() && Links() && count == |Flatten(Chains)|
    }

    /** The part of the invariant that does not look at the nodes' links. */
    ghost predicate Shape()
      reads this
    {
      && this in Repr && table in Repr
      && 0 < size && table.Length == size && |Nodes| == size
      && Layout(Nodes, Chains, Position, Repr)
      && BucketsConsistent(hash, size, Chains)
    }

    /** Each bucket head is the first node of its chain and each node links
        to the next one, the last to null. */
    ghost predicate Links()
      requires Shape()
      reads this, Repr
    {
      && (forall i | 0 <= i < size :: table[i] == NodeAt(Nodes[i], 0))
      // triggered on the field read only, so that NodeAt's unfolding cannot
      // start a chain of instantiations down the list
      && (forall i, k {:trigger Nodes[i][k].next} | 0 <= i < size && 0 <= k < |Nodes[i]| ::
            Nodes[i][k].next == NodeAt(Nodes[i], k + 1))
    }

    constructor (size: int, hash: ProductId -> int)
      requires size > 0
      ensures Valid() && fresh(Repr)
      ensures this.size == size && this.hash == hash
      ensures Chains == EmptyChains(size) && count == 0
    {
      this.size := size;
      this.hash := hash;
      table := new Node?[size](_ => null);
      count := 0;
      Chains := EmptyChains(size);
      Nodes := seq(size, _ => []);
      Position := map[];
      Repr := {this, table};
    }

    /** Appends `product` at the tail of its bucket; duplicates are kept. */
    method Insert(product: BabyProduct)
      requires Valid()
      modifies Repr
      ensures Valid() && fresh(Repr - old(Repr))
      ensures Chains == InsertChain(hash, size, old(Chains), product)
      ensures count == old(count) + 1
    {
      var index := BucketOf(hash, size, product.productId);
      var newNode := new Node(product);
      if table[index] == null {
        LinkFirst(index, newNode);
      } else {
        var current: Node := table[index];
        ghost var k := 0;
        while current.next != null
          invariant 0 <= k < |Nodes[index]| && current == Nodes[index][k]
          decreases |Nodes[index]| - k
        {
          current := current.next;
          k := k + 1;
        }
        LinkAfter(index, current, newNode);
      }
    }

    /** Records in the ghost state that `node` joined the end of bucket `index`. */
    ghost method RecordAppend(index: int, node: Node)
      requires Shape() && 0 <= index < size && node !in Repr
      requires BucketOf(hash, size, node.product.productId) == index
      modifies this
      ensures Shape() && count == old(count)
      ensures Nodes == old(Nodes)[index := old(Nodes)[index] + [node]]
      ensures Chains == old(Chains)[index := old(Chains)[index] + [node.product]]
      ensures Repr == old(Repr) + {node}
      ensures |Flatten(Chains)| == |Flatten(old(Chains))| + 1
    {
      LayoutAppend(Nodes, Chains, Position, Repr, index, node);
      BucketsConsistentAppend(hash, size, Chains, node.product);
      FlattenUpdateLength(Chains, index, Chains[index] + [node.product]);
      Position := Position[node := (index, |Nodes[index]|)];
      Nodes := Nodes[index := Nodes[index] + [node]];
      Chains := Chains[index := Chains[index] + [node.product]];
      Repr := Repr + {node};
    }

    /** Makes `node` the only node of the empty bucket `index`. */
    method LinkFirst(index: int, node: Node)
      requires Valid() && 0 <= index < size && table[index] == null
      requires node !in Repr && node.next == null
      requires BucketOf(hash, size, node.product.productId) == index
      modifies table, this
      ensures Valid() && Repr == old(Repr) + {node}
      ensures Chains == old(Chains)[index := old(Chains)[index] + [node.product]]
      ensures count == old(count) + 1
    {
      table[index] := node;
      count := count + 1;
      RecordAppend(index, node);
      // no link changes: the new node is alone in its bucket and ends it
      forall i, k | 0 <= i < size && 0 <= k < |Nodes[i]|
        ensures Nodes[i][k].next == NodeAt(Nodes[i], k + 1)
      {
        if i != index {
          assert Nodes[i][k] == old(Nodes)[i][k];
        }
      }
    }

    /** Links `node` after `tail`, the last node of bucket `index`. */
    method LinkAfter(index: int, tail: Node, node: Node)
      requires Valid() && 0 <= index < size && |Nodes[index]| > 0
      requires tail == Nodes[index][|Nodes[index]| - 1]
      requires node !in Repr && node.next == null
      requires BucketOf(hash, size, node.product.productId) == index
      modifies tail, this
      ensures Valid() && Repr == old(Repr) + {node}
      ensures Chains == old(Chains)[index := old(Chains)[index] + [node.product]]
      ensures count == old(count) + 1
    {
      tail.next := node;
      count := count + 1;
      RecordAppend(index, node);
      LinksAfterAppend(old(Nodes), old(Chains), old(Position), old(Repr), index, node);
    }

    /** Scans the bucket of `productId` from its head for the first match.
        A miss there means no product in the table has that id. */
    method Search(productId: ProductId) returns (r: Option<BabyProduct>)
      requires Valid()
      ensures r == FirstMatch(Chains[BucketOf(hash, size, productId)], productId)
      ensures r.None? <==> forall p | p in Flatten(Chains) :: p.productId != productId
    {
      MatchesLieInOwnBucket(hash, size, Chains, productId);
      var index := BucketOf(hash, size, productId);
      var current := table[index];
      ghost var k := 0;
      while current != null
        invariant 0 <= k <= |Nodes[index]| && current == NodeAt(Nodes[index], k)
        invariant forall j | 0 <= j < k :: Chains[index][j].productId != productId
        decreases |Nodes[index]| - k
      {
        if current.product.productId == productId {
          FirstMatchIndexUnique(Chains[index], productId, k);
          return Some(current.product);
        }
        current := current.next;
        k := k + 1;
      }
      FirstMatchIndexUnique(Chains[index], productId, k);
      return None;
    }

    /** Unlinks the first product with id `productId` from its bucket
        (resetting the bucket head when it is the first node). With no
        match the table is left as it was. */
    method Delete(productId: ProductId) returns (deleted: bool)
      requires Valid()
      modifies Repr
      ensures Valid() && Repr == old(Repr)
      ensures deleted == FirstMatch(old(Chains)[BucketOf(hash, size, productId)], productId).Some?
      ensures var b := BucketOf(hash, size, productId);
              Chains == old(Chains)[b := RemoveFirst(old(Chains)[b], productId)]
      ensures !deleted ==> Chains == old(Chains)
      ensures count == if deleted then old(count) - 1 else old(count)
    {
      var index := BucketOf(hash, size, productId);
      var current := table[index];
      var prev: Node? := null;
      ghost var k := 0;
      // the scan stops at the first match; the unlinking follows it
      while current != null && current.product.productId != productId
        invariant 0 <= k <= |Nodes[index]| && current == NodeAt(Nodes[index], k)
        invariant prev == NodeAt(Nodes[index], k - 1)
        invariant forall j | 0 <= j < k :: Chains[index][j].productId != productId
        decreases |Nodes[index]| - k
      {
        prev := current;
        current := current.next;
        k := k + 1;
      }
      FirstMatchIndexUnique(Chains[index], productId, k);
      if current == null {
        return false;
      }
      if prev == null {
        UnlinkFirst(index);
      } else {
        UnlinkAfter(index, k, prev, current);
      }
      return true;
    }

    /** Records in the ghost state that the k-th node of bucket `index` left it. */
    ghost method RecordRemove(index: int, k: int)
      requires Shape() && 0 <= index < size && 0 <= k < |Nodes[index]|
      modifies this
      ensures Shape() && count == old(count)
      ensures Nodes == old(Nodes)[index := RemoveAt(old(Nodes)[index], k)]
      ensures Chains == old(Chains)[index := RemoveAt(old(Chains)[index], k)]
      ensures Repr == old(Repr)
      ensures |Flatten(Chains)| == |Flatten(old(Chains))| - 1
    {
      LayoutRemove(Nodes, Chains, Position, Repr, index, k);
      BucketsConsistentRemove(hash, size, Chains, index, k);
      FlattenUpdateLength(Chains, index, RemoveAt(Chains[index], k));
      Position := Unplaced(Position, Nodes[index][k], index, k);
      Nodes := Nodes[index := RemoveAt(Nodes[index], k)];
      Chains := Chains[index := RemoveAt(Chains[index], k)];
    }

    /** Unlinks the head node of bucket `index`: its successor becomes the head. */
    method UnlinkFirst(index: int)
      requires Valid() && 0 <= index < size && |Nodes[index]| > 0
      modifies table, this
      ensures Valid() && Repr == old(Repr)
      ensures Chains == old(Chains)[index := RemoveAt(old(Chains)[index], 0)]
      ensures count == old(count) - 1
    {
      table[index] := table[index].next;
      count := count - 1;
      RecordRemove(index, 0);
      LinksAfterRemove(old(Nodes), old(Chains), old(Position), old(Repr), index, 0);
    }

    /** Unlinks `current`, the k-th node of bucket `index`, by pointing
        `prev`, the node before it, at its successor. */
    method UnlinkAfter(index: int, ghost k: int, prev: Node, current: Node)
      requires Valid() && 0 <= index < size && 0 < k < |Nodes[index]|
      requires prev == Nodes[index][k - 1] && current == Nodes[index][k]
      modifies prev, this
      ensures Valid() && Repr == old(Repr)
      ensures Chains == old(Chains)[index := RemoveAt(old(Chains)[index], k)]
      ensures count == old(count) - 1
    {
      prev.next := current.next;
      count := count - 1;
      RecordRemove(index, k);
      LinksAfterRemove(old(Nodes), old(Chains), old(Position), old(Repr), index, k);
    }

    /** Lists every product: buckets in increasing index, each chain head
        to tail; exactly `count` of them. */
    method DisplayAll() returns (listing: seq<BabyProduct>)
      requires Valid()
      ensures listing == Flatten(Chains)
      ensures |listing| == count
      ensures forall j, l | 0 <= j < l < |listing| ::
                BucketOf(hash, size, listing[j].productId) <= BucketOf(hash, size, listing[l].productId)
    {
      FlattenOrderedByBucket(hash, size, Chains);
      listing := [];
      for i := 0 to size
        invariant listing == Flatten(Chains[..i])
      {
        var items := BucketListing(i);
        listing := listing + items;
        assert Chains[..i + 1][..i] == Chains[..i];
      }
      assert Chains[..size] == Chains;
    }

    /** Walks bucket `i` from its head: its products, head to tail. */
    method BucketListing(i: int) returns (items: seq<BabyProduct>)
      requires Valid() && 0 <= i < size
      ensures items == Chains[i]
    {
      items := [];
      var current := table[i];
      ghost var k := 0;
      while current != null
        invariant 0 <= k <= |Nodes[i]| && current == NodeAt(Nodes[i], k)
        invariant items == Chains[i][..k]
        decreases |Nodes[i]| - k
      {
        items := items + [current.product];
        current := current.next;
        k := k + 1;
      }
    }
  }

  lemma {:induction false} FlattenIsEmpty(chains: seq<seq<BabyProduct>>)
    requires forall i | 0 <= i < |chains| :: chains[i] == []
    ensures Flatten(chains) == []
  {
    if chains != [] {
      FlattenIsEmpty(chains[..|chains| - 1]);
    }
  }

  // ---------------------------------------------------------------------
  // The linear baseline
  // ---------------------------------------------------------------------

  /** An append-only list of products searched front to back. */
  class ArrayStorage {
    var products: seq<BabyProduct>

    constructor ()
      ensures products == []
    {
      products := [];
    }

    method Insert(product: BabyProduct)
      modifies this
      ensures products == old(products) + [product]
    {
      products := products + [product];
    }

    /** The first inserted product with the id, or None. */
    method Search(productId: ProductId) returns (r: Option<BabyProduct>)
      ensures r == FirstMatch(products, productId)
    {
      for i := 0 to |products|
        invariant forall j | 0 <= j < i :: products[j].productId != productId
      {
        if products[i].productId == productId {
          FirstMatchIndexUnique(products, productId, i);
          return Some(products[i]);
        }
      }
      FirstMatchIndexUnique(products, productId, |products|);
      return None;
    }
  }

  /** A new table of the default size holding `testProducts`, inserted in order. */
  method BuildTable(hash: ProductId -> int, testProducts: seq<BabyProduct>) returns (hashTable: HashTable)
    ensures fresh(hashTable) && fresh(hashTable.Repr) && hashTable.Valid()
    ensures hashTable.size == HashTableSize && hashTable.hash == hash
    ensures hashTable.Chains == InsertAll(hash, HashTableSize, EmptyChains(HashTableSize), testProducts)
    ensures hashTable.count == |testProducts|
  {
    hashTable := new HashTable(HashTableSize, hash);
    for i := 0 to |testProducts|
      invariant hashTable.Valid() && fresh(hashTable.Repr)
      invariant hashTable.size == HashTableSize && hashTable.hash == hash
      invariant hashTable.Chains == InsertAll(hash, HashTableSize, EmptyChains(HashTableSize), testProducts[..i])
      invariant hashTable.count == i
    {
      hashTable.Insert(testProducts[i]);
      assert testProducts[..i + 1][..i] == testProducts[..i];
    }
    assert testProducts[..|testProducts|] == testProducts;
  }

  /** A new list holding `testProducts`, inserted in order. */
  method BuildList(testProducts: seq<BabyProduct>) returns (arrayStorage: ArrayStorage)
    ensures fresh(arrayStorage) && arrayStorage.products == testProducts
  {
    arrayStorage := new ArrayStorage();
    for i := 0 to |testProducts|
      invariant arrayStorage.products == testProducts[..i]
    {
      arrayStorage.Insert(testProducts[i]);
      assert testProducts[..i + 1][..i] == testProducts[..i];
    }
    assert testProducts[..|testProducts|] == testProducts;
  }

  /** The correctness half of the comparison: the same products go into a
      table of the default size and into the list, then every id is
      searched in the table and then in the list. Both report the same
      results, which are those of a scan of the products. */
  method PerformanceComparison(hash: ProductId -> int, testProducts: seq<BabyProduct>,
                               searchIds: seq<ProductId>)
    returns (hashResults: seq<Option<BabyProduct>>, arrayResults: seq<Option<BabyProduct>>)
    ensures |hashResults| == |searchIds| && |arrayResults| == |searchIds|
    ensures forall i | 0 <= i < |searchIds| :: arrayResults[i] == FirstMatch(testProducts, searchIds[i])
    ensures hashResults == arrayResults
  {
    var arrayStorage := BuildList(testProducts);
    var hashTable := BuildTable(hash, testProducts);
    hashResults := SearchTable(hashTable, searchIds);
    arrayResults := SearchList(arrayStorage, searchIds);
    forall i | 0 <= i < |searchIds|
      ensures hashResults[i] == FirstMatch(testProducts, searchIds[i])
    {
      HashSearchMatchesLinearSearch(hash, HashTableSize, testProducts, searchIds[i]);
    }
  }

  /** Searches the table for each id in turn. */
  method SearchTable(hashTable: HashTable, searchIds: seq<ProductId>) returns (results: seq<Option<BabyProduct>>)
    requires hashTable.Valid()
    ensures |results| == |searchIds|
    ensures forall i | 0 <= i < |searchIds| ::
              results[i] == FirstMatch(hashTable.Chains[BucketOf(hashTable.hash, hashTable.size, searchIds[i])],
                                       searchIds[i])
  {
    results := [];
    for i := 0 to |searchIds|
      invariant |results| == i
      invariant forall j | 0 <= j < i ::
                  results[j] == FirstMatch(hashTable.Chains[BucketOf(hashTable.hash, hashTable.size, searchIds[j])],
                                           searchIds[j])
    {
      var result := hashTable.Search(searchIds[i]);
      results := results + [result];
    }
  }

  /** Searches the list for each id in turn. */
  method SearchList(arrayStorage: ArrayStorage, searchIds: seq<ProductId>) returns (results: seq<Option<BabyProduct>>)
    ensures |results| == |searchIds|
    ensures forall i | 0 <= i < |searchIds| :: results[i] == FirstMatch(arrayStorage.products, searchIds[i])
  {
    results := [];
    for i := 0 to |searchIds|
      invariant |results| == i
      invariant forall j | 0 <= j < i :: results[j] == FirstMatch(arrayStorage.products, searchIds[j])
    {
      var result := arrayStorage.Search(searchIds[i]);
      results := results + [result];
    }
  }
}
