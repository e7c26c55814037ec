/** AddressMap (addressmap-inl.h): a hash table of clusters of blocks of entries that behaves as a map
    from addresses to values. */
module AddressMaps {

  import opened Wrappers

  const K_BLOCK: nat := 128
  const K_CLUSTER_BLOCKS: nat := 8192
  const K_CLUSTER: nat := 1048576
  const K_HASH_SIZE: nat := 4096

  datatype Entry<V> = Entry(key: nat, value: V)
  datatype Cluster<V> = Cluster(id: nat, blocks: seq<seq<Entry<V>>>)
  type Table<V> = seq<seq<Cluster<V>>>

  /** Multiplicative hash on 32 bits, top 12 bits of the product. */
  function HashInt(x: nat): (h: nat)
    ensures h < K_HASH_SIZE
  {
    (x % 0x1_0000_0000) * 2654435769 % 0x1_0000_0000 / 0x10_0000
  }

  function ClusterID(a: nat): nat { a / K_CLUSTER }

  function BlockID(a: nat): (b: nat)
    ensures b < K_CLUSTER_BLOCKS
  {
    a / K_BLOCK % K_CLUSTER_BLOCKS
  }

  /** A block is known by its cluster and its number inside it. */
  lemma BlockOf(a: nat)
    ensures a / K_BLOCK == ClusterID(a) * K_CLUSTER_BLOCKS + BlockID(a)
  {
  }

  // ------------------------------------------------------------------ chains

  /** The place of the cluster with that id in a hash chain, or its length. */
  function ClusterAt<V>(chain: seq<Cluster<V>>, id: nat): (i: nat)
    ensures i <= |chain| && (i < |chain| ==> chain[i].id == id)
    ensures forall j :: 0 <= j < i ==> chain[j].id != id
  {
    if chain == [] || chain[0].id == id then 0 else
      var i := 1 + ClusterAt(chain[1..], id);
      assert forall j :: 1 <= j < i ==> chain[j] == chain[1..][j - 1];
      i
  }

  function EntryAt<V>(block: seq<Entry<V>>, key: nat): (i: nat)
    ensures i <= |block| && (i < |block| ==> block[i].key == key)
    ensures forall j :: 0 <= j < i ==> block[j].key != key
  {
    if block == [] || block[0].key == key then 0 else
      var i := 1 + EntryAt(block[1..], key);
      assert forall j :: 1 <= j < i ==> block[j] == block[1..][j - 1];
      i
  }

  ghost predicate BlockOk<V>(block: seq<Entry<V>>, id: nat, b: nat) {
    && (forall i :: 0 <= i < |block| ==> ClusterID(block[i].key) == id && BlockID(block[i].key) == b)
    && (forall i, j :: 0 <= i < j < |block| ==> block[i].key != block[j].key)
  }

  ghost predicate ClusterOk<V>(c: Cluster<V>) {
    |c.blocks| == K_CLUSTER_BLOCKS && forall b :: 0 <= b < K_CLUSTER_BLOCKS ==> BlockOk(c.blocks[b], c.id, b)
  }

  ghost predicate ChainOk<V>(chain: seq<Cluster<V>>, h: nat) {
    && (forall i :: 0 <= i < |chain| ==> ClusterOk(chain[i]) && HashInt(chain[i].id) == h)
    && (forall i, j :: 0 <= i < j < |chain| ==> chain[i].id != chain[j].id)
  }

  ghost predicate TableOk<V>(t: Table<V>) {
    |t| == K_HASH_SIZE && forall h :: 0 <= h < K_HASH_SIZE ==> ChainOk(t[h], h)
  }

  /** The block chain an address belongs to; empty when its cluster was never made. */
  function BlockFor<V>(t: Table<V>, a: nat): seq<Entry<V>>
    requires |t| == K_HASH_SIZE
  {
    var chain := t[HashInt(ClusterID(a))];
    var i := ClusterAt(chain, ClusterID(a));
    if i < |chain| && BlockID(a) < |chain[i].blocks| then chain[i].blocks[BlockID(a)] else []
  }

  function Lookup<V>(t: Table<V>, key: nat): Option<V>
    requires |t| == K_HASH_SIZE
  {
    var block := BlockFor(t, key);
    var i := EntryAt(block, key);
    if i < |block| then Some(block[i].value) else None
  }

  lemma BlockForOk<V>(t: Table<V>, a: nat)
    requires TableOk(t)
    ensures BlockOk(BlockFor(t, a), ClusterID(a), BlockID(a))
  {
    var h := HashInt(ClusterID(a));
    var chain := t[h];
    assert ChainOk(chain, h);
    var i := ClusterAt(chain, ClusterID(a));
    if i < |chain| { assert ClusterOk(chain[i]); }
  }

  /** The block chain of `a` becomes `block`, in a cluster that is made if it is missing. */
  function SetBlock<V>(t: Table<V>, a: nat, block: seq<Entry<V>>): Table<V>
    requires TableOk(t)
  {
    var h := HashInt(ClusterID(a));
    var chain := WithCluster(t[h], ClusterID(a));
    var i := ClusterAt(chain, ClusterID(a));
    if i < |chain| && BlockID(a) < |chain[i].blocks| then
      t[h := chain[i := chain[i].(blocks := chain[i].blocks[BlockID(a) := block])]]
    else t
  }

  /** FindCluster with create. */
  function WithCluster<V>(chain: seq<Cluster<V>>, id: nat): seq<Cluster<V>> {
    if ClusterAt(chain, id) < |chain| then chain
    else [Cluster(id, seq(K_CLUSTER_BLOCKS, _ => []))] + chain
  }

  lemma WithClusterOk<V>(chain: seq<Cluster<V>>, id: nat)
    requires ChainOk(chain, HashInt(id))
    ensures ChainOk(WithCluster(chain, id), HashInt(id))
    ensures ClusterAt(WithCluster(chain, id), id) < |WithCluster(chain, id)|
    ensures forall x :: x != id ==> Same(chain, WithCluster(chain, id), x)
  {
    var chain' := WithCluster(chain, id);
    if ClusterAt(chain, id) == |chain| {
      assert forall i :: 0 < i < |chain'| ==> chain'[i] == chain[i - 1];
      forall x | x != id ensures Same(chain, chain', x) { assert chain'[1..] == chain; }
    }
  }

  /** Cluster `x` is present in both chains or in neither, with the same blocks. */
  ghost predicate Same<V>(a: seq<Cluster<V>>, b: seq<Cluster<V>>, x: nat) {
    var i, j := ClusterAt(a, x), ClusterAt(b, x);
    (i < |a| <==> j < |b|) && (i < |a| ==> a[i] == b[j])
  }

  lemma ClusterAtUnique<V>(chain: seq<Cluster<V>>, i: nat)
    requires i < |chain| && forall j, k :: 0 <= j < k < |chain| ==> chain[j].id != chain[k].id
    ensures ClusterAt(chain, chain[i].id) == i
  {
  }

  lemma SetClusterOk<V>(chain: seq<Cluster<V>>, h: nat, i: nat, b: nat, block: seq<Entry<V>>)
    requires ChainOk(chain, h) && i < |chain| && b < K_CLUSTER_BLOCKS && BlockOk(block, chain[i].id, b)
    ensures |chain[i].blocks| == K_CLUSTER_BLOCKS
    ensures var chain' := chain[i := chain[i].(blocks := chain[i].blocks[b := block])];
            && ChainOk(chain', h)
            && ClusterAt(chain', chain[i].id) == i
            && (forall x :: x != chain[i].id ==> Same(chain, chain', x))
  {
    assert ClusterOk(chain[i]);
    var chain' := chain[i := chain[i].(blocks := chain[i].blocks[b := block])];
    forall k | 0 <= k < |chain'| ensures ClusterOk(chain'[k]) && HashInt(chain'[k].id) == h { assert ClusterOk(chain[k]); }
    ClusterAtUnique(chain', i);
    assert forall k :: 0 <= k < |chain| ==> chain'[k].id == chain[k].id;
    forall x | x != chain[i].id ensures Same(chain, chain', x) {
      var k, k' := ClusterAt(chain, x), ClusterAt(chain', x);
      assert k < |chain| ==> chain'[k].id == x;
      assert k' < |chain| ==> chain[k'].id == x;
    }
  }

  /** SetBlock changes that block and no other. */
  lemma SetBlockSpec<V>(t: Table<V>, a: nat, block: seq<Entry<V>>)
    requires TableOk(t) && BlockOk(block, ClusterID(a), BlockID(a))
    ensures TableOk(SetBlock(t, a, block))
    ensures BlockFor(SetBlock(t, a, block), a) == block
    ensures forall x: nat :: x / K_BLOCK != a / K_BLOCK ==> BlockFor(SetBlock(t, a, block), x) == BlockFor(t, x)
  {
    var id, b := ClusterID(a), BlockID(a);
    var h := HashInt(id);
    assert ChainOk(t[h], h);
    WithClusterOk(t[h], id);
    var chain := WithCluster(t[h], id);
    var i := ClusterAt(chain, id);
    SetClusterOk(chain, h, i, b, block);
    var t' := SetBlock(t, a, block);
    forall k | 0 <= k < K_HASH_SIZE ensures ChainOk(t'[k], k) { assert ChainOk(t[k], k); }
    forall x: nat | x / K_BLOCK != a / K_BLOCK ensures BlockFor(t', x) == BlockFor(t, x) {
      OtherBlock(t, a, block, x);
    }
  }

  lemma OtherBlock<V>(t: Table<V>, a: nat, block: seq<Entry<V>>, x: nat)
    requires TableOk(t) && BlockOk(block, ClusterID(a), BlockID(a)) && x / K_BLOCK != a / K_BLOCK
    ensures |SetBlock(t, a, block)| == K_HASH_SIZE && BlockFor(SetBlock(t, a, block), x) == BlockFor(t, x)
  {
    var id := ClusterID(a);
    var h := HashInt(id);
    assert ChainOk(t[h], h);
    WithClusterOk(t[h], id);
    var chain := WithCluster(t[h], id);
    var i := ClusterAt(chain, id);
    SetClusterOk(chain, h, i, BlockID(a), block);
    BlockOf(a);
    BlockOf(x);
    if ClusterID(x) != id {
      if HashInt(ClusterID(x)) == h {
        assert Same(t[h], chain, ClusterID(x));
        assert Same(chain, SetBlock(t, a, block)[h], ClusterID(x));
      }
    } else {
      assert BlockID(x) != BlockID(a);
      if ClusterAt(t[h], id) == |t[h]| { assert chain[0].blocks[BlockID(x)] == []; }
    }
  }

  // ------------------------------------------------------------------ one block

  /** Insert into a block chain: overwrite in place or put in front. */
  function Inserted<V>(block: seq<Entry<V>>, key: nat, v: V): seq<Entry<V>> {
    var i := EntryAt(block, key);
    if i < |block| then block[i := Entry(key, v)] else [Entry(key, v)] + block
  }

  function Removed<V>(block: seq<Entry<V>>, key: nat): seq<Entry<V>> {
    var i := EntryAt(block, key);
    if i < |block| then block[..i] + block[i + 1..] else block
  }

  function LookupIn<V>(block: seq<Entry<V>>, key: nat): Option<V> {
    var i := EntryAt(block, key);
    if i < |block| then Some(block[i].value) else None
  }

  /** With distinct keys, any index with the key is the one found. */
  lemma EntryAtUnique<V>(block: seq<Entry<V>>, i: nat)
    requires i < |block| && forall j, k :: 0 <= j < k < |block| ==> block[j].key != block[k].key
    ensures EntryAt(block, block[i].key) == i
  {
  }

  lemma InsertedSpec<V>(block: seq<Entry<V>>, id: nat, b: nat, key: nat, v: V)
    requires BlockOk(block, id, b) && ClusterID(key) == id && BlockID(key) == b
    ensures BlockOk(Inserted(block, key, v), id, b)
    ensures LookupIn(Inserted(block, key, v), key) == Some(v)
    ensures forall k :: k != key ==> LookupIn(Inserted(block, key, v), k) == LookupIn(block, k)
  {
    var i := EntryAt(block, key);
    var block' := Inserted(block, key, v);
    if i < |block| {
      EntryAtUnique(block', i);
      assert forall j :: 0 <= j < |block| ==> block'[j].key == block[j].key;
      forall k | k != key ensures LookupIn(block', k) == LookupIn(block, k) {
        var j, j' := EntryAt(block, k), EntryAt(block', k);
        assert j < |block| ==> block'[j].key == k;
        assert j' < |block| ==> block[j'].key == k;
      }
    } else {
      assert block'[1..] == block;
    }
  }

  lemma RemovedSpec<V>(block: seq<Entry<V>>, id: nat, b: nat, key: nat)
    requires BlockOk(block, id, b)
    ensures BlockOk(Removed(block, key), id, b)
    ensures LookupIn(Removed(block, key), key) == None
    ensures forall k :: k != key ==> LookupIn(Removed(block, key), k) == LookupIn(block, k)
  {
    var i := EntryAt(block, key);
    var block' := Removed(block, key);
    if i < |block| {
      assert forall j :: 0 <= j < |block'| ==> block'[j] == block[if j < i then j else j + 1];
      forall k | k != key ensures LookupIn(block', k) == LookupIn(block, k) { RemovedOther(block, key, k); }
      forall j | 0 <= j < |block'| ensures block'[j].key != key {}
    }
  }

  lemma RemovedOther<V>(block: seq<Entry<V>>, key: nat, k: nat)
    requires k != key && forall i, j :: 0 <= i < j < |block| ==> block[i].key != block[j].key
    ensures LookupIn(Removed(block, key), k) == LookupIn(block, k)
  {
    var i := EntryAt(block, key);
    var block' := Removed(block, key);
    if i < |block| {
      assert forall j :: 0 <= j < |block'| ==> block'[j] == block[if j < i then j else j + 1];
      var j, j' := EntryAt(block, k), EntryAt(block', k);
      if j < |block| {
        EntryAtUnique(block', if j < i then j else j - 1);
      } else {
        forall x | 0 <= x < |block'| ensures block'[x].key != k {}
      }
    }
  }

  // ------------------------------------------------------------------ the map

  ghost predicate Represents<V>(t: Table<V>, m: map<nat, V>) {
    && TableOk(t)
    && (forall k: nat {:trigger Lookup(t, k)} :: k in m <==> Lookup(t, k).Some?)
    && (forall k: nat {:trigger Lookup(t, k)} :: k in m ==> Lookup(t, k) == Some(m[k]))
  }

  lemma SetLookup<V>(t: Table<V>, a: nat, block: seq<Entry<V>>, k: nat)
    requires TableOk(t) && BlockOk(block, ClusterID(a), BlockID(a))
    ensures TableOk(SetBlock(t, a, block))
    ensures Lookup(SetBlock(t, a, block), k) == if k / K_BLOCK == a / K_BLOCK then LookupIn(block, k) else Lookup(t, k)
  {
    SetBlockSpec(t, a, block);
    if k / K_BLOCK == a / K_BLOCK { SameBlock(SetBlock(t, a, block), k, a); }
  }

  lemma InsertedLookup<V>(t: Table<V>, key: nat, v: V, k: nat)
    requires TableOk(t)
    ensures var t' := SetBlock(t, key, Inserted(BlockFor(t, key), key, v));
            TableOk(t') && Lookup(t', k) == if k == key then Some(v) else Lookup(t, k)
  {
    BlockForOk(t, key);
    InsertedSpec(BlockFor(t, key), ClusterID(key), BlockID(key), key, v);
    SetLookup(t, key, Inserted(BlockFor(t, key), key, v), k);
    if k / K_BLOCK == key / K_BLOCK { SameBlock(t, k, key); }
  }

  lemma RemovedLookup<V>(t: Table<V>, key: nat, k: nat)
    requires TableOk(t)
    ensures var t' := SetBlock(t, key, Removed(BlockFor(t, key), key));
            TableOk(t') && Lookup(t', k) == if k == key then None else Lookup(t, k)
  {
    BlockForOk(t, key);
    RemovedSpec(BlockFor(t, key), ClusterID(key), BlockID(key), key);
    SetLookup(t, key, Removed(BlockFor(t, key), key), k);
    if k / K_BLOCK == key / K_BLOCK { SameBlock(t, k, key); }
  }

  /** Insert refines map update. */
  lemma InsertedTable<V>(t: Table<V>, m: map<nat, V>, key: nat, v: V)
    requires Represents(t, m)
    ensures Represents(SetBlock(t, key, Inserted(BlockFor(t, key), key, v)), m[key := v])
  {
    var t' := SetBlock(t, key, Inserted(BlockFor(t, key), key, v));
    InsertedLookup(t, key, v, key);
    forall k: nat ensures k in m[key := v] <==> Lookup(t', k).Some? { InsertedLookup(t, key, v, k); }
    forall k: nat | k in m[key := v] ensures Lookup(t', k) == Some(m[key := v][k]) { InsertedLookup(t, key, v, k); }
  }

  /** FindAndRemove refines map removal. */
  lemma RemovedTable<V>(t: Table<V>, m: map<nat, V>, key: nat)
    requires Represents(t, m)
    ensures Represents(SetBlock(t, key, Removed(BlockFor(t, key), key)), m - {key})
  {
    var t' := SetBlock(t, key, Removed(BlockFor(t, key), key));
    RemovedLookup(t, key, key);
    forall k: nat ensures k in m - {key} <==> Lookup(t', k).Some? { RemovedLookup(t, key, k); }
    forall k: nat | k in m - {key} ensures Lookup(t', k) == Some(m[k]) { RemovedLookup(t, key, k); }
  }

  lemma SameBlock<V>(t: Table<V>, a: nat, b: nat)
    requires |t| == K_HASH_SIZE && a / K_BLOCK == b / K_BLOCK
    ensures BlockFor(t, a) == BlockFor(t, b)
  {
    BlockOf(a);
    BlockOf(b);
  }

  /** The entries of a block are the entries of the map with addresses in that block. */
  lemma BlockEntries<V>(t: Table<V>, m: map<nat, V>, a: nat)
    requires Represents(t, m)
    ensures forall i :: 0 <= i < |BlockFor(t, a)| ==>
              var e := BlockFor(t, a)[i]; e.key / K_BLOCK == a / K_BLOCK && e.key in m && m[e.key] == e.value
    ensures forall k :: k in m && k / K_BLOCK == a / K_BLOCK ==> exists i :: 0 <= i < |BlockFor(t, a)| && BlockFor(t, a)[i].key == k
  {
    var block := BlockFor(t, a);
    BlockForOk(t, a);
    forall i | 0 <= i < |block| ensures block[i].key / K_BLOCK == a / K_BLOCK && block[i].key in m && m[block[i].key] == block[i].value {
      BlockOf(a);
      BlockOf(block[i].key);
      SameBlock(t, block[i].key, a);
      EntryAtUnique(block, i);
      assert Lookup(t, block[i].key) == Some(block[i].value);
    }
    forall k | k in m && k / K_BLOCK == a / K_BLOCK ensures exists i :: 0 <= i < |block| && block[i].key == k {
      SameBlock(t, k, a);
      assert Lookup(t, k).Some?;
      assert block[EntryAt(block, k)].key == k;
    }
  }

  // ------------------------------------------------------------------ ranges

  /** `key` points into the range at `e` (at its start, or inside it but not at its end). */
  predicate Inside(e: nat, size: nat, key: nat) {
    e == key || e <= key < e + size
  }

  ghost predicate Apart<V>(m: map<nat, V>, size: V -> nat, a: nat, b: nat) {
    a in m && b in m && a < b ==> a + size(m[a]) <= b
  }

  ghost predicate NonOverlapping<V>(m: map<nat, V>, size: V -> nat) {
    forall a: nat, b: nat {:trigger Apart(m, size, a, b)} :: Apart(m, size, a, b)
  }

  /** How far FindInside looks: the block of `key`, and earlier blocks whose last address is at most
      `maxSize` below `key`. */
  predicate WithinReach(e: nat, maxSize: nat, key: nat) {
    e / K_BLOCK == key / K_BLOCK || key - (e / K_BLOCK * K_BLOCK + K_BLOCK - 1) <= maxSize
  }

  /** Non-overlapping ranges: at most one contains a key. */
  lemma InsideUnique<V>(m: map<nat, V>, size: V -> nat, key: nat, a: nat, b: nat)
    requires NonOverlapping(m, size) && a in m && b in m
    requires Inside(a, size(m[a]), key) && Inside(b, size(m[b]), key)
    ensures a == b
  {
    assert Apart(m, size, a, b) && Apart(m, size, b, a);
  }

  /** Nothing in blocks above that of `num` starts at or below `key`. */
  ghost predicate NothingAbove<V>(m: map<nat, V>, num: nat, key: nat) {
    forall e :: e in m && e <= key ==> e / K_BLOCK <= num / K_BLOCK
  }

  /** No range with its start in reach contains `key`. */
  ghost predicate NoneInReach<V>(m: map<nat, V>, size: V -> nat, maxSize: nat, key: nat) {
    forall e :: e in m && Inside(e, size(m[e]), key) ==> !WithinReach(e, maxSize, key)
  }

  /** A smaller start that does not contain `key` shadows everything before it. */
  lemma Shadowed<V>(m: map<nat, V>, size: V -> nat, key: nat, e: nat)
    requires NonOverlapping(m, size) && e in m && e <= key && !Inside(e, size(m[e]), key)
    ensures forall x :: x in m && x < e ==> !Inside(x, size(m[x]), key)
  {
    forall x | x in m && x < e ensures !Inside(x, size(m[x]), key) { assert Apart(m, size, x, e); }
  }

  /** An offset of at most `maxSize` is always in reach. */
  lemma OffsetInReach(e: nat, maxSize: nat, key: nat)
    requires e <= key <= e + maxSize
    ensures WithinReach(e, maxSize, key)
  {
    assert e == e / K_BLOCK * K_BLOCK + e % K_BLOCK;
  }

  // ------------------------------------------------------------------ iteration

  function Concat<T>(ss: seq<seq<T>>): seq<T> {
    if ss == [] then [] else Concat(ss[..|ss| - 1]) + ss[|ss| - 1]
  }

  ghost predicate DistinctKeys<V>(q: seq<Entry<V>>) {
    forall i, j :: 0 <= i < j < |q| ==> q[i].key != q[j].key
  }

  lemma {:induction false} ConcatMembers<T>(ss: seq<seq<T>>)
    ensures forall i, x :: 0 <= i < |ss| && x in ss[i] ==> x in Concat(ss)
    ensures forall x :: x in Concat(ss) ==> exists i :: 0 <= i < |ss| && x in ss[i]
  {
    if ss != [] {
      var n := |ss| - 1;
      ConcatMembers(ss[..n]);
      forall x | x in Concat(ss) ensures exists i :: 0 <= i < |ss| && x in ss[i] {
        if x in Concat(ss[..n]) {
          var i :| 0 <= i < n && x in ss[..n][i];
          assert x in ss[i];
        }
      }
    }
  }

  lemma {:induction false} ConcatDistinct<V>(ss: seq<seq<Entry<V>>>)
    requires forall i :: 0 <= i < |ss| ==> DistinctKeys(ss[i])
    requires forall i, j, x, y :: 0 <= i < j < |ss| && x in ss[i] && y in ss[j] ==> x.key != y.key
    ensures DistinctKeys(Concat(ss))
  {
    if ss != [] {
      var n := |ss| - 1;
      ConcatDistinct(ss[..n]);
      ConcatMembers(ss[..n]);
      var a: seq<Entry<V>>, b: seq<Entry<V>> := Concat(ss[..n]), ss[n];
      forall i, j | 0 <= i < j < |a + b| ensures (a + b)[i].key != (a + b)[j].key {
        if i < |a| <= j {
          assert a[i] in a && b[j - |a|] in b;
          var k :| 0 <= k < n && a[i] in ss[..n][k];
          assert a[i] in ss[k];
        }
      }
    }
  }

  /** What Iterate visits, cluster by cluster and chain by chain. */
  function ClusterEntries<V>(c: Cluster<V>): seq<Entry<V>> { Concat(c.blocks) }

  function ChainEntries<V>(chain: seq<Cluster<V>>): seq<Entry<V>> {
    Concat(seq(|chain|, i requires 0 <= i < |chain| => ClusterEntries(chain[i])))
  }

  function TableEntries<V>(t: Table<V>): seq<Entry<V>> {
    Concat(seq(|t|, h requires 0 <= h < |t| => ChainEntries(t[h])))
  }

  lemma ClusterEntriesSpec<V>(c: Cluster<V>)
    requires ClusterOk(c)
    ensures DistinctKeys(ClusterEntries(c))
    ensures forall e: Entry<V> :: e in ClusterEntries(c) ==> ClusterID(e.key) == c.id && e in c.blocks[BlockID(e.key)]
    ensures forall e: Entry<V> :: ClusterID(e.key) == c.id && e in c.blocks[BlockID(e.key)] ==> e in ClusterEntries(c)
  {
    ConcatMembers(c.blocks);
    forall i | 0 <= i < |c.blocks| ensures DistinctKeys(c.blocks[i]) { assert BlockOk(c.blocks[i], c.id, i); }
    forall i, e | 0 <= i < |c.blocks| && e in c.blocks[i] ensures BlockID(e.key) == i && ClusterID(e.key) == c.id {
      assert BlockOk(c.blocks[i], c.id, i);
    }
    ConcatDistinct(c.blocks);
  }

  /** The parts of a chain or a table, visited in order, are told apart by `tag`. */
  ghost predicate Tagged<V>(ss: seq<seq<Entry<V>>>, tag: nat -> nat, of: nat -> nat) {
    && (forall i :: 0 <= i < |ss| ==> DistinctKeys(ss[i]))
    && (forall i, e: Entry<V> :: 0 <= i < |ss| && e in ss[i] ==> of(e.key) == tag(i))
    && (forall i: nat, j: nat :: i < j < |ss| ==> tag(i) != tag(j))
  }

  lemma TaggedDistinct<V>(ss: seq<seq<Entry<V>>>, tag: nat -> nat, of: nat -> nat)
    requires Tagged(ss, tag, of)
    ensures DistinctKeys(Concat(ss))
  {
    forall i, j, x: Entry<V>, y: Entry<V> | 0 <= i < j < |ss| && x in ss[i] && y in ss[j] ensures x.key != y.key {
      assert of(x.key) == tag(i) && of(y.key) == tag(j);
    }
    ConcatDistinct(ss);
  }

  lemma ChainEntriesSpec<V>(chain: seq<Cluster<V>>, h: nat)
    requires ChainOk(chain, h)
    ensures DistinctKeys(ChainEntries(chain))
    ensures forall e: Entry<V> :: e in ChainEntries(chain) ==>
              && HashInt(ClusterID(e.key)) == h
              && exists i :: 0 <= i < |chain| && chain[i].id == ClusterID(e.key) && e in ClusterEntries(chain[i])
    ensures forall i, e: Entry<V> :: 0 <= i < |chain| && e in ClusterEntries(chain[i]) ==> e in ChainEntries(chain)
  {
    var ss: seq<seq<Entry<V>>> := seq(|chain|, i requires 0 <= i < |chain| => ClusterEntries(chain[i]));
    var tag := (i: nat) => if i < |chain| then chain[i].id else 0;
    forall i | 0 <= i < |chain| ensures DistinctKeys(ss[i]) {
      ClusterEntriesSpec(chain[i]);
    }
    forall i, e: Entry<V> | 0 <= i < |chain| && e in ss[i] ensures ClusterID(e.key) == tag(i) {
      ClusterEntriesSpec(chain[i]);
    }
    TaggedDistinct(ss, tag, ClusterID);
    ConcatMembers(ss);
    assert forall i :: 0 <= i < |chain| ==> ss[i] == ClusterEntries(chain[i]);
    forall e: Entry<V> | e in ChainEntries(chain)
      ensures && HashInt(ClusterID(e.key)) == h
              && exists i :: 0 <= i < |chain| && chain[i].id == ClusterID(e.key) && e in ClusterEntries(chain[i])
    {
      var i :| 0 <= i < |ss| && e in ss[i];
      assert tag(i) == chain[i].id;
    }
  }

  lemma TableEntriesDistinct<V>(t: Table<V>)
    requires TableOk(t)
    ensures DistinctKeys(TableEntries(t))
    ensures forall e: Entry<V> :: e in TableEntries(t) ==> exists h :: 0 <= h < |t| && e in ChainEntries(t[h])
    ensures forall h, e: Entry<V> :: 0 <= h < |t| && e in ChainEntries(t[h]) ==> e in TableEntries(t)
  {
    var ss: seq<seq<Entry<V>>> := seq(|t|, h requires 0 <= h < |t| => ChainEntries(t[h]));
    var of := (k: nat) => HashInt(ClusterID(k));
    forall h | 0 <= h < |t| ensures DistinctKeys(ss[h]) {
      ChainEntriesSpec(t[h], h);
    }
    forall h, e: Entry<V> | 0 <= h < |t| && e in ss[h] ensures of(e.key) == h {
      ChainEntriesSpec(t[h], h);
    }
    TaggedDistinct(ss, (h: nat) => h, of);
    ConcatMembers(ss);
    assert forall h :: 0 <= h < |t| ==> ss[h] == ChainEntries(t[h]);
  }

  /** Iterate visits every key of the map once, with its value, and nothing else. */
  lemma TableEntriesSpec<V>(t: Table<V>, m: map<nat, V>)
    requires Represents(t, m)
    ensures DistinctKeys(TableEntries(t))
    ensures forall e: Entry<V> :: e in TableEntries(t) <==> e.key in m && m[e.key] == e.value
  {
    TableEntriesDistinct(t);
    forall e: Entry<V> ensures e in TableEntries(t) <==> e.key in m && m[e.key] == e.value {
      BlockForEntry(t, m, e);
      if e in TableEntries(t) {
        var h :| 0 <= h < |t| && e in ChainEntries(t[h]);
        EntryInChain(t, h, e);
      } else if e in BlockFor(t, e.key) {
        EntryInTable(t, e);
      }
    }
  }

  lemma EntryInChain<V>(t: Table<V>, h: nat, e: Entry<V>)
    requires TableOk(t) && h < K_HASH_SIZE && e in ChainEntries(t[h])
    ensures e in BlockFor(t, e.key)
  {
    assert ChainOk(t[h], h);
    ChainEntriesSpec(t[h], h);
    var i :| 0 <= i < |t[h]| && t[h][i].id == ClusterID(e.key) && e in ClusterEntries(t[h][i]);
    ClusterEntriesSpec(t[h][i]);
    ClusterAtUnique(t[h], i);
  }

  lemma EntryInTable<V>(t: Table<V>, e: Entry<V>)
    requires TableOk(t) && e in BlockFor(t, e.key)
    ensures e in ChainEntries(t[HashInt(ClusterID(e.key))])
  {
    var h := HashInt(ClusterID(e.key));
    assert ChainOk(t[h], h);
    var i := ClusterAt(t[h], ClusterID(e.key));
    ClusterEntriesSpec(t[h][i]);
    ChainEntriesSpec(t[h], h);
  }

  lemma BlockForEntry<V>(t: Table<V>, m: map<nat, V>, e: Entry<V>)
    requires Represents(t, m)
    ensures e in BlockFor(t, e.key) <==> e.key in m && m[e.key] == e.value
  {
    BlockForOk(t, e.key);
    var block := BlockFor(t, e.key);
    assert Lookup(t, e.key).Some? <==> e.key in m;
    if e in block {
      var i :| 0 <= i < |block| && block[i] == e;
      EntryAtUnique(block, i);
    } else if e.key in m {
      var i := EntryAt(block, e.key);
      assert i < |block| ==> block[i] in block;
    }
  }

  function EmptyTable<V>(): Table<V> { seq(K_HASH_SIZE, _ => []) }

  lemma EmptyRepresents<V>()
    ensures Represents<V>(EmptyTable(), map[])
  {
    forall k: nat ensures Lookup(EmptyTable<V>(), k) == None { assert EmptyTable<V>()[HashInt(ClusterID(k))] == []; }
  }

  class AddressMap<V> {
    const hashtable: array<seq<Cluster<V>>>
    ghost var contents: map<nat, V>

    ghost predicate Valid()
      reads this, hashtable
    {
      Represents(hashtable[..], contents)
    }

    constructor ()
      ensures Valid() && fresh(hashtable) && contents == map[]
    {
      hashtable := new seq<Cluster<V>>[K_HASH_SIZE](_ => []);
      contents := map[];
      new;
      assert hashtable[..] == EmptyTable();
      EmptyRepresents<V>();
    }

    /** FindCluster without create: the index in the hash chain, or its length. */
    method FindCluster(a: nat) returns (i: nat)
      requires hashtable.Length == K_HASH_SIZE
      ensures i == ClusterAt(hashtable[HashInt(ClusterID(a))], ClusterID(a))
    {
      var chain := hashtable[HashInt(ClusterID(a))];
      i := 0;
      while i < |chain| && chain[i].id != ClusterID(a)
        invariant i <= |chain| && forall j :: 0 <= j < i ==> chain[j].id != ClusterID(a)
      {
        i := i + 1;
      }
    }

    /** Iterate: the entries in the order the callback sees them. */
    method Iterate() returns (all: seq<Entry<V>>)
      requires Valid()
      ensures DistinctKeys(all)
      ensures forall e :: e in all <==> e.key in contents && contents[e.key] == e.value
    {
      ghost var t := hashtable[..];
      all := [];
      var h := 0;
      ghost var ss := seq(|t|, h requires 0 <= h < |t| => ChainEntries(t[h]));
      while h < K_HASH_SIZE
        invariant h <= K_HASH_SIZE && all == Concat(ss[..h])
      {
        var part := IterateChain(hashtable[h]);
        assert ss[..h + 1][..h] == ss[..h];
        all := all + part;
        h := h + 1;
      }
      assert ss[..h] == ss;
      TableEntriesSpec(t, contents);
    }

    static method IterateChain(chain: seq<Cluster<V>>) returns (all: seq<Entry<V>>)
      ensures all == ChainEntries(chain)
    {
      all := [];
      var i := 0;
      ghost var ss := seq(|chain|, i requires 0 <= i < |chain| => ClusterEntries(chain[i]));
      while i < |chain|
        invariant i <= |chain| && all == Concat(ss[..i])
      {
        var b := 0;
        var part := [];
        while b < |chain[i].blocks|
          invariant b <= |chain[i].blocks| && part == Concat(chain[i].blocks[..b])
        {
          assert chain[i].blocks[..b + 1][..b] == chain[i].blocks[..b];
          part := part + chain[i].blocks[b];
          b := b + 1;
        }
        assert chain[i].blocks[..b] == chain[i].blocks;
        assert ss[..i + 1][..i] == ss[..i];
        all := all + part;
        i := i + 1;
      }
      assert ss[..i] == ss;
    }

    static method FindEntry(block: seq<Entry<V>>, key: nat) returns (i: nat)
      ensures i == EntryAt(block, key)
    {
      i := 0;
      while i < |block| && block[i].key != key
        invariant i <= |block| && forall j :: 0 <= j < i ==> block[j].key != key
      {
        i := i + 1;
      }
    }

    method Find(key: nat) returns (r: Option<V>)
      requires Valid()
      ensures r == if key in contents then Some(contents[key]) else None
    {
      var chain := hashtable[HashInt(ClusterID(key))];
      var i := FindCluster(key);
      assert Lookup(hashtable[..], key).Some? <==> key in contents;
      if i == |chain| { return None; }
      assert ChainOk(hashtable[..][HashInt(ClusterID(key))], HashInt(ClusterID(key))) && ClusterOk(chain[i]);
      var block := chain[i].blocks[BlockID(key)];
      var j := FindEntry(block, key);
      return if j < |block| then Some(block[j].value) else None;
    }

    method Insert(key: nat, v: V)
      requires Valid()
      modifies this`contents, hashtable
      ensures Valid() && contents == old(contents)[key := v]
    {
      ghost var t := hashtable[..];
      var h := HashInt(ClusterID(key));
      assert ChainOk(t[h], h);
      WithClusterOk(hashtable[h], ClusterID(key));
      var i := FindCluster(key);
      if i == |hashtable[h]| {
        hashtable[h] := [Cluster(ClusterID(key), seq(K_CLUSTER_BLOCKS, _ => []))] + hashtable[h];
        i := 0;
      }
      var chain := hashtable[h];
      assert chain == WithCluster(t[h], ClusterID(key)) && ClusterOk(chain[i]);
      var block := chain[i].blocks[BlockID(key)];
      assert block == BlockFor(t, key);
      var j := FindEntry(block, key);
      block := if j < |block| then block[j := Entry(key, v)] else [Entry(key, v)] + block;
      hashtable[h] := chain[i := chain[i].(blocks := chain[i].blocks[BlockID(key) := block])];
      contents := contents[key := v];
      assert hashtable[..] == SetBlock(t, key, Inserted(BlockFor(t, key), key, v));
      InsertedTable(t, old(contents), key, v);
    }

    method FindAndRemove(key: nat) returns (r: Option<V>)
      requires Valid()
      modifies this`contents, hashtable
      ensures Valid() && contents == old(contents) - {key}
      ensures r == if key in old(contents) then Some(old(contents)[key]) else None
    {
      ghost var t := hashtable[..];
      var h := HashInt(ClusterID(key));
      assert ChainOk(t[h], h);
      var chain := hashtable[h];
      var i := FindCluster(key);
      if i == |chain| {
        assert Lookup(t, key) == None;
        assert contents - {key} == contents;
        return None;
      }
      assert ClusterOk(chain[i]);
      var block := chain[i].blocks[BlockID(key)];
      assert block == BlockFor(t, key);
      var j := FindEntry(block, key);
      if j == |block| {
        assert Lookup(t, key) == None;
        assert contents - {key} == contents;
        return None;
      }
      r := Some(block[j].value);
      assert Lookup(t, key) == r;
      hashtable[h] := chain[i := chain[i].(blocks := chain[i].blocks[BlockID(key) := block[..j] + block[j + 1..]])];
      contents := contents - {key};
      assert hashtable[..] == SetBlock(t, key, Removed(BlockFor(t, key), key));
      RemovedTable(t, old(contents), key);
    }

    /** The scan of one block chain: an entry that contains `key`, or whether one starts below it. */
    static method ScanBlock(size: V -> nat, key: nat, block: seq<Entry<V>>) returns (r: Option<nat>, smaller: bool)
      ensures r.Some? ==> exists i :: 0 <= i < |block| && block[i].key == r.value && Inside(block[i].key, size(block[i].value), key)
      ensures r == None ==> forall i :: 0 <= i < |block| ==> !Inside(block[i].key, size(block[i].value), key)
      ensures r == None ==> (smaller <==> exists i :: 0 <= i < |block| && block[i].key <= key)
    {
      smaller := false;
      var i := 0;
      while i < |block|
        invariant i <= |block|
        invariant forall j :: 0 <= j < i ==> !Inside(block[j].key, size(block[j].value), key)
        invariant smaller <==> exists j :: 0 <= j < i && block[j].key <= key
      {
        var e := block[i];
        if e.key <= key {
          if e.key == key || key < e.key + size(e.value) {
            return Some(e.key), smaller;
          }
          smaller := true;
        }
        i := i + 1;
      }
      return None, smaller;
    }

    /** One block of the backwards search: the answer, or nothing in this block starts at or below `key`. */
    method SearchBlock(size: V -> nat, key: nat, num: nat) returns (r: Option<nat>, done: bool)
      requires Valid() && NonOverlapping(contents, size) && NothingAbove(contents, num, key) && num <= key
      ensures r.Some? ==> done && r.value in contents && Inside(r.value, size(contents[r.value]), key) && r.value / K_BLOCK == num / K_BLOCK
      ensures r == None && done ==> forall e :: e in contents ==> !Inside(e, size(contents[e]), key)
      ensures !done ==> forall e :: e in contents && e <= key ==> e / K_BLOCK < num / K_BLOCK
    {
      var chain := hashtable[HashInt(ClusterID(num))];
      var i := FindCluster(num);
      var block := if i < |chain| && BlockID(num) < |chain[i].blocks| then chain[i].blocks[BlockID(num)] else [];
      ghost var t := hashtable[..];
      assert block == BlockFor(t, num);
      var smaller;
      r, smaller := ScanBlock(size, key, block);
      if r.Some? {
        BlockEntries(t, contents, num);
        return r, true;
      }
      if smaller {
        SmallerStart(t, contents, size, key, num);
      } else {
        NoSmallerStart(t, contents, key, num);
      }
      return None, smaller;
    }

    /** The search inside one cluster, from `num` down to its first block. */
    method SearchCluster(size: V -> nat, maxSize: nat, key: nat, from: nat) returns (r: Option<nat>, done: bool, num: nat)
      requires Valid() && NonOverlapping(contents, size) && Searching(contents, from, key, maxSize)
      ensures r.Some? ==> done && r.value in contents && Inside(r.value, size(contents[r.value]), key) && WithinReach(r.value, maxSize, key)
      ensures r == None && done ==> NoneInReach(contents, size, maxSize, key)
      ensures !done ==> num <= from && ClusterID(num) == ClusterID(from) && Searching(contents, num, key, maxSize) && NothingFrom(contents, num, key)
    {
      num := from;
      while true
        invariant num <= from && ClusterID(num) == ClusterID(from) && Searching(contents, num, key, maxSize)
        decreases num
      {
        r, done := SearchBlock(size, key, num);
        if r.Some? { Reached(num, key, maxSize, r.value); }
        if done { return; }
        if BlockID(num) == 0 {
          FirstBlock(contents, num, key);
          return;
        }
        BlockBelow(contents, num, key);
        ghost var was := num;
        num := num / K_BLOCK * K_BLOCK - 1;
        SameCluster(was, num);
        if key - num > maxSize {
          TooFar(contents, size, maxSize, num, key);
          return None, true, num;
        }
      }
    }

    /** Search backwards for the range that contains `key`, not further than `maxSize` allows. */
    method FindInside(size: V -> nat, maxSize: nat, key: nat) returns (r: Option<nat>)
      requires Valid() && NonOverlapping(contents, size)
      ensures r.Some? ==> r.value in contents && Inside(r.value, size(contents[r.value]), key) && WithinReach(r.value, maxSize, key)
      ensures r == None ==> NoneInReach(contents, size, maxSize, key)
    {
      var num: nat := key;
      forall e | e in contents && e <= key ensures e / K_BLOCK <= key / K_BLOCK {}
      while true
        invariant Searching(contents, num, key, maxSize)
        decreases num
      {
        var i := FindCluster(num);
        if i < |hashtable[HashInt(ClusterID(num))]| {
          var done;
          r, done, num := SearchCluster(size, maxSize, key, num);
          if done { return; }
        } else {
          EmptyCluster(hashtable[..], contents, num);
          MissingCluster(contents, num, key);
        }
        if num < K_CLUSTER {
          return None;
        }
        ClusterBelow(contents, num, key);
        num := num / K_CLUSTER * K_CLUSTER - 1;
        if key - num > maxSize {
          TooFar(contents, size, maxSize, num, key);
          return None;
        }
      }
    }
  }

  /** Where the backwards search stands: everything above is ruled out, and the distance is allowed. */
  ghost predicate Searching<V>(m: map<nat, V>, num: nat, key: nat, maxSize: nat) {
    num <= key && NothingAbove(m, num, key) && (num == key || (num % K_BLOCK == K_BLOCK - 1 && key - num <= maxSize))
  }

  /** Nothing in the cluster of `num` or above starts at or below `key`. */
  ghost predicate NothingFrom<V>(m: map<nat, V>, num: nat, key: nat) {
    forall e :: e in m && e <= key ==> ClusterID(e) < ClusterID(num)
  }

  lemma Reached(num: nat, key: nat, maxSize: nat, e: nat)
    requires num == key || (num % K_BLOCK == K_BLOCK - 1 && key - num <= maxSize)
    requires e / K_BLOCK == num / K_BLOCK
    ensures WithinReach(e, maxSize, key)
  {
    assert num == num / K_BLOCK * K_BLOCK + num % K_BLOCK;
  }

  lemma FirstBlock<V>(m: map<nat, V>, num: nat, key: nat)
    requires BlockID(num) == 0 && forall e :: e in m && e <= key ==> e / K_BLOCK < num / K_BLOCK
    ensures NothingFrom(m, num, key)
  {
    forall e | e in m && e <= key ensures ClusterID(e) < ClusterID(num) {
      BlockOf(e);
      BlockOf(num);
    }
  }

  lemma SameCluster(num: nat, last: nat)
    requires BlockID(num) > 0 && last == num / K_BLOCK * K_BLOCK - 1
    ensures ClusterID(last) == ClusterID(num) && last < num && last % K_BLOCK == K_BLOCK - 1
  {
    BlockOf(num);
  }

  lemma MissingCluster<V>(m: map<nat, V>, num: nat, key: nat)
    requires NothingAbove(m, num, key) && forall e :: e in m ==> ClusterID(e) != ClusterID(num)
    ensures NothingFrom(m, num, key)
  {
    forall e | e in m && e <= key ensures ClusterID(e) < ClusterID(num) {
      BlockOf(e);
      BlockOf(num);
    }
  }

  lemma ClusterBelow<V>(m: map<nat, V>, num: nat, key: nat)
    requires num >= K_CLUSTER && NothingFrom(m, num, key)
    ensures var last := num / K_CLUSTER * K_CLUSTER - 1;
            NothingAbove(m, last, key) && last < num && last % K_BLOCK == K_BLOCK - 1 && last / K_BLOCK < num / K_BLOCK
  {
    var last := num / K_CLUSTER * K_CLUSTER - 1;
    forall e | e in m && e <= key ensures e / K_BLOCK <= last / K_BLOCK {
      assert e < (ClusterID(e) + 1) * K_CLUSTER <= last + 1;
    }
  }

  lemma SmallerStart<V>(t: Table<V>, m: map<nat, V>, size: V -> nat, key: nat, num: nat)
    requires Represents(t, m) && NonOverlapping(m, size) && NothingAbove(m, num, key)
    requires forall i :: 0 <= i < |BlockFor(t, num)| ==> !Inside(BlockFor(t, num)[i].key, size(BlockFor(t, num)[i].value), key)
    requires exists i :: 0 <= i < |BlockFor(t, num)| && BlockFor(t, num)[i].key <= key
    ensures forall e :: e in m ==> !Inside(e, size(m[e]), key)
  {
    BlockEntries(t, m, num);
    var i :| 0 <= i < |BlockFor(t, num)| && BlockFor(t, num)[i].key <= key;
    var s := BlockFor(t, num)[i].key;
    Shadowed(m, size, key, s);
    forall e | e in m && e <= key ensures !Inside(e, size(m[e]), key) {
      if e / K_BLOCK == num / K_BLOCK {
        var j :| 0 <= j < |BlockFor(t, num)| && BlockFor(t, num)[j].key == e;
      } else {
        assert e / K_BLOCK < s / K_BLOCK;
        assert e < s;
      }
    }
  }

  lemma NoSmallerStart<V>(t: Table<V>, m: map<nat, V>, key: nat, num: nat)
    requires Represents(t, m) && NothingAbove(m, num, key)
    requires forall i :: 0 <= i < |BlockFor(t, num)| ==> BlockFor(t, num)[i].key > key
    ensures forall e :: e in m && e <= key ==> e / K_BLOCK < num / K_BLOCK
  {
    BlockEntries(t, m, num);
    forall e | e in m && e <= key ensures e / K_BLOCK < num / K_BLOCK {
      if e / K_BLOCK == num / K_BLOCK { assert false; }
    }
  }

  lemma BlockBelow<V>(m: map<nat, V>, num: nat, key: nat)
    requires num >= K_BLOCK && forall e :: e in m && e <= key ==> e / K_BLOCK < num / K_BLOCK
    ensures NothingAbove(m, num / K_BLOCK * K_BLOCK - 1, key)
  {
    forall e | e in m && e <= key ensures e / K_BLOCK <= (num / K_BLOCK * K_BLOCK - 1) / K_BLOCK { }
  }

  lemma TooFar<V>(m: map<nat, V>, size: V -> nat, maxSize: nat, num: nat, key: nat)
    requires NothingAbove(m, num, key) && num % K_BLOCK == K_BLOCK - 1 && num <= key && key - num > maxSize
    requires num / K_BLOCK < key / K_BLOCK
    ensures NoneInReach(m, size, maxSize, key)
  {
  }

  /** A missing cluster has no entries. */
  lemma EmptyCluster<V>(t: Table<V>, m: map<nat, V>, num: nat)
    requires Represents(t, m)
    requires ClusterAt(t[HashInt(ClusterID(num))], ClusterID(num)) == |t[HashInt(ClusterID(num))]|
    ensures forall e :: e in m ==> ClusterID(e) != ClusterID(num)
  {
    forall e | e in m ensures ClusterID(e) != ClusterID(num) {
      assert Lookup(t, e).Some?;
    }
  }
}
