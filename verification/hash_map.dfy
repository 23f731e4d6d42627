/** HashMap of src/indexer.h: a chained hash table from C-string terms to the
    posting lists (DynamicArray<uint32_t>) of the indexer.

    The source links the nodes of a bucket through `next` pointers and puts a
    new node at the head of its bucket; here each bucket is the sequence of its
    nodes from head to tail, so `next` is the following element. The map a
    table represents is the ghost field `Contents`, from key to the node's
    posting-list object. */
module HashMaps {
  import opened Bytes
  import opened DynamicArrays

  const SIZE_T_MODULUS: nat := 0x1_0000_0000_0000_0000

  /** `int c = *str` reads a plain char, which is signed on the x86-64 targets
      the source is built for: bytes from 0x80 up become negative. */
  function SignedChar(c: byte): int
  {
    if c as int >= 0x80 then c as int - 0x100 else c as int
  }

  /** The djb2 fold of HashMap::hash before its final reduction, in 64-bit
      size_t arithmetic: h = 5381, then h = h * 33 + c for every byte. */
  function Djb2(s: seq<cchar>): (h: nat)
    ensures h < SIZE_T_MODULUS
  {
    if s == [] then 5381
    else (Djb2(s[..|s| - 1]) * 33 + SignedChar(s[|s| - 1])) % SIZE_T_MODULUS
  }

  /** A node: a copy of the key and the posting list it owns (src/indexer.h:120-139). */
  class HashNode {
    const key: seq<cchar>
    const docIds: DynamicArray<nat>

    constructor (k: seq<cchar>)
      ensures key == k && fresh(docIds)
      ensures docIds.Valid() && docIds.Elements() == []
    {
      key := k;
      docIds := new DynamicArray<nat>();
    }
  }

  /** The keys of a bucket's nodes, head first. */
  function Keys(chain: seq<HashNode>): (ks: seq<seq<cchar>>)
    ensures |ks| == |chain|
    ensures forall i | 0 <= i < |chain| :: ks[i] == chain[i].key
  {
    seq(|chain|, i requires 0 <= i < |chain| => chain[i].key)
  }

  /** All nodes of a list of buckets, bucket by bucket, each bucket head first. */
  ghost function Flatten(chains: seq<seq<HashNode>>): seq<HashNode>
  {
    if chains == [] then [] else Flatten(chains[..|chains| - 1]) + chains[|chains| - 1]
  }

  /** Node `n` sits in bucket `b` of `count`, the one its key hashes to, and is
      the entry of `contents` for its key. */
  ghost predicate Placed(n: HashNode, b: nat, count: nat, contents: map<seq<cchar>, DynamicArray<nat>>)
  {
    count > 0 && Djb2(n.key) % count == b && n.key in contents && contents[n.key] == n.docIds
  }

  /** Every node sits in the bucket its key hashes to and is its key's entry. */
  ghost predicate AllPlaced(bs: seq<seq<HashNode>>, contents: map<seq<cchar>, DynamicArray<nat>>)
  {
    forall b, i | 0 <= b < |bs| && 0 <= i < |bs[b]| :: Placed(bs[b][i], b, |bs|, contents)
  }

  /** Every key of the map has a node in its bucket. */
  ghost predicate KeysPresent(bs: seq<seq<HashNode>>, contents: map<seq<cchar>, DynamicArray<nat>>)
    requires |bs| > 0
  {
    forall k | k in contents :: k in Keys(bs[Djb2(k) % |bs|])
  }

  /** No key comes twice in a bucket. */
  ghost predicate NoDuplicateKeys(bs: seq<seq<HashNode>>)
  {
    forall b, i, j | 0 <= b < |bs| && 0 <= i < j < |bs[b]| :: bs[b][i].key != bs[b][j].key
  }

  /** Every key owns a list of its own. */
  ghost predicate DistinctLists(contents: map<seq<cchar>, DynamicArray<nat>>)
  {
    forall k1, k2 | k1 in contents && k2 in contents && k1 != k2 :: contents[k1] != contents[k2]
  }

  /** The invariant of a table with buckets `bs` that represents `contents`. */
  ghost predicate TableInv(bs: seq<seq<HashNode>>, contents: map<seq<cchar>, DynamicArray<nat>>)
  {
    |bs| > 0 && AllPlaced(bs, contents) && KeysPresent(bs, contents) && NoDuplicateKeys(bs) && DistinctLists(contents)
  }

  /** Putting a node for a new key at the head of its bucket keeps the invariant. */
  lemma InsertKeepsInv(bs: seq<seq<HashNode>>, contents: map<seq<cchar>, DynamicArray<nat>>, n: HashNode, idx: nat)
    requires TableInv(bs, contents) && idx == Djb2(n.key) % |bs|
    requires n.key !in Keys(bs[idx])
    requires n.docIds !in contents.Values
    ensures n.key !in contents
    ensures TableInv(bs[idx := [n] + bs[idx]], contents[n.key := n.docIds])
  {
    InsertKeepsPlaced(bs, contents, n, idx);
    InsertKeepsPresent(bs, contents, n, idx);
    InsertKeepsNoDuplicate(bs, n, idx);
    var contents' := contents[n.key := n.docIds];
    forall k1, k2 | k1 in contents' && k2 in contents' && k1 != k2 ensures contents'[k1] != contents'[k2] {
      if k1 != n.key && k2 != n.key {
        assert contents[k1] != contents[k2];
      } else if k1 == n.key {
        assert contents[k2] in contents.Values;
      } else {
        assert contents[k1] in contents.Values;
      }
    }
  }

  lemma InsertKeepsPlaced(bs: seq<seq<HashNode>>, contents: map<seq<cchar>, DynamicArray<nat>>, n: HashNode, idx: nat)
    requires TableInv(bs, contents) && idx == Djb2(n.key) % |bs|
    requires n.key !in Keys(bs[idx])
    ensures n.key !in contents
    ensures AllPlaced(bs[idx := [n] + bs[idx]], contents[n.key := n.docIds])
  {
    var bs': seq<seq<HashNode>> := bs[idx := [n] + bs[idx]];
    var contents' := contents[n.key := n.docIds];
    forall b, i | 0 <= b < |bs'| && 0 <= i < |bs'[b]| ensures Placed(bs'[b][i], b, |bs'|, contents') {
      if b == idx && i > 0 {
        assert bs'[b][i] == bs[b][i - 1];
        assert Placed(bs[b][i - 1], b, |bs|, contents);
      } else if b != idx {
        assert Placed(bs[b][i], b, |bs|, contents);
      }
    }
  }

  lemma InsertKeepsPresent(bs: seq<seq<HashNode>>, contents: map<seq<cchar>, DynamicArray<nat>>, n: HashNode, idx: nat)
    requires |bs| > 0 && KeysPresent(bs, contents) && idx == Djb2(n.key) % |bs|
    ensures KeysPresent(bs[idx := [n] + bs[idx]], contents[n.key := n.docIds])
  {
    var bs': seq<seq<HashNode>> := bs[idx := [n] + bs[idx]];
    var contents' := contents[n.key := n.docIds];
    forall k | k in contents' ensures k in Keys(bs'[Djb2(k) % |bs'|]) {
      if k != n.key {
        var c := bs[Djb2(k) % |bs|];
        var i :| 0 <= i < |c| && Keys(c)[i] == k;
        if Djb2(k) % |bs| == idx {
          assert Keys(bs'[idx])[i + 1] == k;
        }
      } else {
        assert Keys(bs'[idx])[0] == k;
      }
    }
  }

  lemma InsertKeepsNoDuplicate(bs: seq<seq<HashNode>>, n: HashNode, idx: nat)
    requires NoDuplicateKeys(bs) && idx < |bs| && n.key !in Keys(bs[idx])
    ensures NoDuplicateKeys(bs[idx := [n] + bs[idx]])
  {
    var bs': seq<seq<HashNode>> := bs[idx := [n] + bs[idx]];
    forall b, i, j | 0 <= b < |bs'| && 0 <= i < j < |bs'[b]| ensures bs'[b][i].key != bs'[b][j].key {
      if b == idx && i == 0 {
        assert bs'[b][j].key == Keys(bs[idx])[j - 1];
      }
    }
  }

  /** The nodes of the first b buckets sit in those buckets, each as the
      entry of its key; no key comes twice; every key hashed to one of those
      buckets comes. */
  lemma {:induction false} FlattenPrefix(bs: seq<seq<HashNode>>, contents: map<seq<cchar>, DynamicArray<nat>>, b: nat)
    requires TableInv(bs, contents) && b <= |bs|
    ensures forall n | n in Flatten(bs[..b]) :: Djb2(n.key) % |bs| < b && Placed(n, Djb2(n.key) % |bs|, |bs|, contents)
    ensures forall i, j | 0 <= i < j < |Flatten(bs[..b])| :: Flatten(bs[..b])[i].key != Flatten(bs[..b])[j].key
    ensures forall k | k in contents && Djb2(k) % |bs| < b :: k in Keys(Flatten(bs[..b]))
  {
    if b > 0 {
      FlattenPrefix(bs, contents, b - 1);
      assert bs[..b][..b - 1] == bs[..b - 1];
      var front := Flatten(bs[..b - 1]);
      assert Flatten(bs[..b]) == front + bs[b - 1];
      FlattenStepPlaced(bs, contents, b, front);
      FlattenStepDistinct(bs, contents, b, front);
      FlattenStepCovers(bs, contents, b, front);
    }
  }

  lemma FlattenStepPlaced(bs: seq<seq<HashNode>>, contents: map<seq<cchar>, DynamicArray<nat>>, b: nat, front: seq<HashNode>)
    requires TableInv(bs, contents) && 0 < b <= |bs|
    requires forall n | n in front :: Djb2(n.key) % |bs| < b - 1 && Placed(n, Djb2(n.key) % |bs|, |bs|, contents)
    ensures forall n | n in front + bs[b - 1] :: Djb2(n.key) % |bs| < b && Placed(n, Djb2(n.key) % |bs|, |bs|, contents)
  {
    var chain := bs[b - 1];
    forall n: HashNode | n in front + chain
      ensures Djb2(n.key) % |bs| < b && Placed(n, Djb2(n.key) % |bs|, |bs|, contents)
    {
      if n !in front {
        var i :| 0 <= i < |chain| && chain[i] == n;
        assert Placed(chain[i], b - 1, |bs|, contents);
      }
    }
  }

  /** No key on two nodes. */
  ghost predicate DistinctKeys(ns: seq<HashNode>)
  {
    forall i, j | 0 <= i < j < |ns| :: ns[i].key != ns[j].key
  }

  lemma FlattenStepDistinct(bs: seq<seq<HashNode>>, contents: map<seq<cchar>, DynamicArray<nat>>, b: nat, front: seq<HashNode>)
    requires TableInv(bs, contents) && 0 < b <= |bs|
    requires forall n | n in front :: Djb2(n.key) % |bs| < b - 1
    requires DistinctKeys(front)
    ensures DistinctKeys(front + bs[b - 1])
  {
    var chain := bs[b - 1];
    forall i, j | 0 <= i < j < |front + chain| ensures (front + chain)[i].key != (front + chain)[j].key {
      if j >= |front| && i < |front| {
        assert front[i] in front;
        assert Placed(chain[j - |front|], b - 1, |bs|, contents);
      }
    }
  }

  lemma FlattenStepCovers(bs: seq<seq<HashNode>>, contents: map<seq<cchar>, DynamicArray<nat>>, b: nat, front: seq<HashNode>)
    requires TableInv(bs, contents) && 0 < b <= |bs|
    requires forall k | k in contents && Djb2(k) % |bs| < b - 1 :: k in Keys(front)
    ensures forall k | k in contents && Djb2(k) % |bs| < b :: k in Keys(front + bs[b - 1])
  {
    var chain := bs[b - 1];
    forall k | k in contents && Djb2(k) % |bs| < b ensures k in Keys(front + chain) {
      if Djb2(k) % |bs| == b - 1 {
        var i :| 0 <= i < |chain| && Keys(chain)[i] == k;
        assert Keys(front + chain)[|front| + i] == k;
      } else {
        var i :| 0 <= i < |front| && Keys(front)[i] == k;
        assert Keys(front + chain)[i] == k;
      }
    }
  }

  /** The walk along a bucket in get_or_create (src/indexer.h:180-186): the
      position of the node holding key, or the bucket's length if none does. */
  method FindInChain(chain: seq<HashNode>, key: seq<cchar>) returns (i: nat)
    ensures i <= |chain|
    ensures i < |chain| ==> chain[i].key == key
    ensures i == |chain| ==> key !in Keys(chain)
  {
    i := 0;
    while i < |chain|
      invariant i <= |chain| && forall j | 0 <= j < i :: chain[j].key != key
    {
      if chain[i].key == key {
        return;
      }
      i := i + 1;
    }
  }

  class HashMap {
    var buckets: array<seq<HashNode>>
    const bucketCount: nat
    var itemCount: nat
    ghost var Contents: map<seq<cchar>, DynamicArray<nat>>

    ghost predicate Valid()
      reads this, buckets
    {
      && buckets.Length == bucketCount
      && TableInv(buckets[..], Contents)
      && itemCount == |Contents|
    }

    /** All nodes, in the order the iterator visits them. */
    ghost function AllNodes(): seq<HashNode>
      reads this, buckets
    {
      Flatten(buckets[..])
    }

    /** The constructor (src/indexer.h:157-163): every bucket empty. The source
        reduces hashes modulo the bucket count, so it needs at least one. */
    constructor (numBuckets: nat)
      requires numBuckets > 0
      ensures Valid() && fresh(buckets)
      ensures bucketCount == numBuckets && Contents == map[] && itemCount == 0
    {
      buckets := new seq<HashNode>[numBuckets](_ => []);
      bucketCount := numBuckets;
      itemCount := 0;
      Contents := map[];
    }

    /** hash (src/indexer.h:147-154): the djb2 fold, reduced modulo bucket_count. */
    method Hash(key: seq<cchar>) returns (idx: nat)
      requires bucketCount > 0
      ensures idx == Djb2(key) % bucketCount
    {
      var h: nat := 5381;
      var i := 0;
      while i < |key|
        invariant 0 <= i <= |key|
        invariant h == Djb2(key[..i])
      {
        assert key[..i + 1][..i] == key[..i];
        h := (h * 33 + SignedChar(key[i])) % SIZE_T_MODULUS;
        i := i + 1;
      }
      assert key[..i] == key;
      idx := h % bucketCount;
    }

    /** get_or_create (src/indexer.h:177-194): a key already present yields its
        own list and changes nothing; a new key gets a fresh empty list at the
        head of its bucket and the item count grows by one. */
    method GetOrCreate(key: seq<cchar>) returns (list: DynamicArray<nat>)
      requires Valid()
      modifies this, buckets
      ensures Valid() && buckets == old(buckets)
      ensures key in old(Contents) ==> list == old(Contents)[key] && Contents == old(Contents)
      ensures key !in old(Contents) ==> fresh(list) && list.Valid() && list.Elements() == []
      ensures key !in old(Contents) ==> Contents == old(Contents)[key := list]
      ensures Contents.Keys == old(Contents).Keys + {key}
    {
      var idx := Hash(key);
      var chain := buckets[idx];
      var i := FindInChain(chain, key);
      if i < |chain| {
        assert Placed(buckets[..][idx][i], idx, bucketCount, Contents);
        list := chain[i].docIds;
      } else {
        list := Insert(key, idx);
      }
    }

    /** The part of get_or_create that adds a key not yet present: a node with
        a fresh empty list goes to the head of the key's bucket. */
    method Insert(key: seq<cchar>, idx: nat) returns (list: DynamicArray<nat>)
      requires Valid() && idx == Djb2(key) % bucketCount && key !in Keys(buckets[idx])
      modifies this, buckets
      ensures Valid() && buckets == old(buckets) && key !in old(Contents)
      ensures fresh(list) && list.Valid() && list.Elements() == []
      ensures Contents == old(Contents)[key := list]
    {
      ghost var bs := buckets[..];
      var node := new HashNode(key);
      InsertKeepsInv(bs, Contents, node, idx);
      buckets[idx] := [node] + buckets[idx];
      assert buckets[..] == bs[idx := [node] + bs[idx]];
      Contents := Contents[key := node.docIds];
      itemCount := itemCount + 1;
      list := node.docIds;
    }

    /** size (src/indexer.h:196): the number of distinct keys given to
        GetOrCreate since construction. */
    method Size() returns (n: nat)
      requires Valid()
      ensures n == |Contents|
    {
      n := itemCount;
    }

    /** The iteration order visits every entry of the map once: each node's key
        is in the map with that node's list, no key comes twice, and every key
        comes. */
    lemma AllNodesExact()
      requires Valid()
      ensures forall n | n in AllNodes() :: n.key in Contents && Contents[n.key] == n.docIds
      ensures forall i, j | 0 <= i < j < |AllNodes()| :: AllNodes()[i].key != AllNodes()[j].key
      ensures forall k | k in Contents :: k in Keys(AllNodes())
    {
      FlattenPrefix(buckets[..], Contents, buckets.Length);
      assert buckets[..][..buckets.Length] == buckets[..];
    }
  }

  /** HashMap::Iterator (src/indexer.h:198-236). The source's `current` pointer
      is the node at position `pos` of bucket `bucketIdx`; it is null once
      `bucketIdx` has run past the last bucket. */
  class Iterator {
    const table: HashMap
    /** The buckets of the table as they were when iteration began; the source
        iterates over a table nobody changes meanwhile. */
    ghost const Chains: seq<seq<HashNode>>
    var bucketIdx: nat
    var pos: nat
    ghost var Yielded: seq<HashNode>

    ghost predicate Valid()
      reads this, table, table.buckets
    {
      && table.buckets[..] == Chains
      && bucketIdx <= |Chains|
      && (bucketIdx < |Chains| ==> pos < |Chains[bucketIdx]|)
      && Yielded == Flatten(Chains[..bucketIdx]) + (if bucketIdx < |Chains| then Chains[bucketIdx][..pos] else [])
    }

    /** The constructor skips leading empty buckets (src/indexer.h:205-212). */
    constructor (m: HashMap)
      ensures Valid() && table == m && Chains == m.buckets[..] && Yielded == []
    {
      table := m;
      Chains := m.buckets[..];
      var b := 0;
      while b < m.buckets.Length && m.buckets[b] == []
        invariant b <= m.buckets.Length
        invariant Flatten(m.buckets[..b]) == []
      {
        assert m.buckets[..b + 1][..b] == m.buckets[..b];
        b := b + 1;
      }
      bucketIdx := b;
      pos := 0;
      Yielded := [];
    }

    /** has_next (src/indexer.h:214-216); once it is false every node of the
        table has been yielded, in bucket order. */
    method HasNext() returns (b: bool)
      requires Valid()
      ensures b <==> bucketIdx < |Chains|
      ensures !b ==> Yielded == table.AllNodes()
    {
      b := bucketIdx < table.buckets.Length;
      if !b {
        assert Chains[..bucketIdx] == Chains;
      }
    }

    /** next (src/indexer.h:218-235): yields the current node, then moves to
        the following node of its bucket or to the head of the next non-empty
        bucket. At the end it yields nothing. */
    method Next() returns (node: HashNode?)
      requires Valid()
      modifies this
      ensures Valid()
      ensures old(bucketIdx) >= |Chains| ==> node == null && Yielded == old(Yielded)
      ensures old(bucketIdx) < |Chains| ==> node == Chains[old(bucketIdx)][old(pos)]
      ensures old(bucketIdx) < |Chains| ==> Yielded == old(Yielded) + [node]
    {
      if bucketIdx >= table.buckets.Length {
        return null;
      }
      var chain := table.buckets[bucketIdx];
      node := chain[pos];
      Yielded := Yielded + [node];
      assert chain[..pos + 1] == chain[..pos] + [node];
      if pos + 1 < |chain| {
        pos := pos + 1;
      } else {
        var b := bucketIdx;
        assert Chains[..b + 1][..b] == Chains[..b];
        assert chain[..pos + 1] == chain;
        b := b + 1;
        while b < table.buckets.Length && table.buckets[b] == []
          invariant b <= |Chains|
          invariant Yielded == Flatten(Chains[..b])
        {
          assert Chains[..b + 1][..b] == Chains[..b];
          b := b + 1;
        }
        bucketIdx := b;
        pos := 0;
      }
    }
  }
}
