/** The chained hash table: an array of buckets, each a list of nodes linked through `next`, refining a plain map. */
module HashMap {
  import opened Wrappers
  import opened Bits

  /** A byte of a C string in front of its terminator. */
  type Char = c: nat | 0 < c < 256 witness 1

  type Key = seq<Char>

  const UINT_MODULUS: nat := 0x1_0000_0000
  const INT_MAX: nat := 0x7fff_ffff

  /** A signed char promoted to unsigned. */
  function Promoted(c: Char): nat {
    if c < 128 then c else c + (UINT_MODULUS - 256)
  }

  function HashFrom(hash: nat, key: Key): nat
    decreases |key|
  {
    if |key| == 0 then hash
    else HashFrom(Xor((hash * 32 % UINT_MODULUS + hash) % UINT_MODULUS, Promoted(key[0])), key[1..])
  }

  /** map_hash. */
  function Hash(key: Key): nat {
    HashFrom(5381, key)
  }

  lemma {:induction false} HashFromSnoc(hash: nat, key: Key, c: Char)
    ensures HashFrom(hash, key + [c])
         == Xor((HashFrom(hash, key) * 32 % UINT_MODULUS + HashFrom(hash, key)) % UINT_MODULUS, Promoted(c))
    decreases |key|
  {
    if |key| > 0 {
      assert (key + [c])[1..] == key[1..] + [c];
      HashFromSnoc(Xor((hash * 32 % UINT_MODULUS + hash) % UINT_MODULUS, Promoted(key[0])), key[1..], c);
    } else {
      assert key + [c] == [c] && [c][1..] == [];
    }
  }

  /** The hash of a string one character longer: 33 times the hash, in 32 bits, with the sign-extended character's bits
      flipped.  With the hash of the empty string this says what every hash is. */
  lemma HashOfLonger(key: Key, c: Char)
    ensures Hash([]) == 5381
    ensures Hash(key + [c]) == Xor(33 * Hash(key) % 0x1_0000_0000, if c < 128 then c else 0xffff_ff00 + c)
  {
    HashFromSnoc(5381, key, c);
    Times33(Hash(key));
    hide Xor;
  }

  lemma Times33(h: nat)
    ensures (h * 32 % UINT_MODULUS + h) % UINT_MODULUS == 33 * h % UINT_MODULUS
  {
  }

  lemma {:induction false} HashIsWord(key: Key)
    ensures Hash(key) < UINT_MODULUS
    decreases |key|
  {
    if |key| > 0 {
      var front, c := key[..|key| - 1], key[|key| - 1];
      HashOfLonger(front, c);
      assert front + [c] == key;
      Word32IsPow2();
      XorStaysBelow(33 * Hash(front) % UINT_MODULUS, Promoted(c), UINT_MODULUS);
    }
  }

  lemma Word32IsPow2()
    ensures IsPow2(UINT_MODULUS)
  {
    assert IsPow2(1);
    hide IsPow2;
    SixteenTimes(1);
    SixteenTimes(0x10);
    SixteenTimes(0x100);
    SixteenTimes(0x1000);
    SixteenTimes(0x1_0000);
    SixteenTimes(0x10_0000);
    SixteenTimes(0x100_0000);
    SixteenTimes(0x1000_0000);
  }

  lemma SixteenTimes(p: nat)
    requires IsPow2(p)
    ensures IsPow2(16 * p)
  {
    DoubleIsPow2(p);
    DoubleIsPow2(2 * p);
    DoubleIsPow2(4 * p);
    DoubleIsPow2(8 * p);
    hide IsPow2;
  }

  /** The loop of map_hash over a local. */
  method MapHash(key: Key) returns (hash: nat)
    ensures hash == Hash(key) < UINT_MODULUS
  {
    hash := 5381;
    var i: nat := 0;
    while i < |key|
      invariant i <= |key| && hash == Hash(key[..i])
    {
      HashFromSnoc(5381, key[..i], key[i]);
      assert key[..i + 1] == key[..i] + [key[i]];
      hash := Xor((hash * 32 % UINT_MODULUS + hash) % UINT_MODULUS, Promoted(key[i]));
      i := i + 1;
    }
    assert key[..i] == key;
    HashIsWord(key);
  }

  /** map_bucketidx. */
  function BucketIdx(hash: nat, nbuckets: nat): (n: nat)
    requires nbuckets > 0
    ensures n < nbuckets
  {
    AndAtMost(hash, nbuckets - 1);
    And(hash, nbuckets - 1)
  }

  /** With a power of two of buckets, the mask is the remainder the table means. */
  lemma BucketIsRemainder(hash: nat, nbuckets: nat)
    requires IsPow2(nbuckets)
    ensures BucketIdx(hash, nbuckets) == hash % nbuckets
  {
    MaskIsRemainder(hash, nbuckets);
  }

  class Node<V> {
    const hash: nat
    const key: Key
    var value: V
    var next: Node?<V>

    constructor (key: Key, value: V)
      ensures this.key == key && this.value == value && hash == Hash(key) && next == null
    {
      this.key, this.value, this.hash, this.next := key, value, Hash(key), null;
    }
  }

  ghost function Succ<V>(c: seq<Node<V>>, i: nat): Node?<V> {
    if i + 1 < |c| then c[i + 1] else null
  }

  /** `c` are the nodes linked from `head`. */
  ghost predicate IsChain<V>(head: Node?<V>, c: seq<Node<V>>)
    reads (set n | n in c)`next
  {
    && head == (if |c| > 0 then c[0] else null)
    && forall i {:trigger Succ(c, i)} {:trigger c[i].next} :: 0 <= i < |c| ==> c[i].next == Succ(c, i)
  }

  ghost predicate DistinctKeys<V>(c: seq<Node<V>>) {
    forall i, j :: 0 <= i < j < |c| ==> c[i].key != c[j].key
  }

  ghost predicate HasKey<V>(c: seq<Node<V>>, k: Key) {
    exists i :: 0 <= i < |c| && c[i].key == k
  }

  /** A chain without its node number `i`. */
  ghost function Without<V>(c: seq<Node<V>>, i: nat): (d: seq<Node<V>>)
    requires i < |c|
    ensures |d| == |c| - 1
    ensures forall j :: 0 <= j < |d| ==> d[j] == c[if j < i then j else j + 1]
  {
    c[..i] + c[i + 1..]
  }

  lemma WithoutKeepsKeys<V>(c: seq<Node<V>>, i: nat)
    requires i < |c| && DistinctKeys(c)
    ensures DistinctKeys(Without(c, i)) && !HasKey(Without(c, i), c[i].key)
    ensures forall k :: k != c[i].key && HasKey(c, k) ==> HasKey(Without(c, i), k)
  {
    var d := Without(c, i);
    forall k | k != c[i].key && HasKey(c, k) ensures HasKey(d, k) {
      var j :| 0 <= j < |c| && c[j].key == k;
      assert d[if j < i then j else j - 1] == c[j];
    }
  }

  class Map<V> {
    var buckets: array<Node?<V>>
    var nbuckets: nat
    var nnodes: nat
    ghost var chains: seq<seq<Node<V>>>
    ghost var nodes: set<Node<V>>
    ghost var contents: map<Key, V>

    /** A node's own fields are in order. */
    ghost predicate Sound(n: Node<V>)
      reads `contents, n`value
    {
      n.hash == Hash(n.key) && n.key in contents && contents[n.key] == n.value
    }

    /** The chain of bucket `b` is of nodes that belong there, with distinct keys. */
    ghost predicate Members(b: nat)
      requires b < |chains|
      reads `chains, `nodes, `contents, nodes`value
    {
      var c := chains[b];
      && DistinctKeys(c)
      && forall i :: 0 <= i < |c| ==> c[i] in nodes && Sound(c[i]) && BucketIdx(c[i].hash, |chains|) == b
    }

    ghost predicate BucketOk(b: nat)
      requires b < |chains| == buckets.Length
      reads `buckets, `chains, `nodes, `contents, buckets, nodes
    {
      Members(b) && IsChain(buckets[b], chains[b])
    }

    /** The table is well formed, whether or not it holds all of `contents`. */
    ghost predicate Table()
      reads `buckets, `nbuckets, `chains, `nodes, `contents, buckets, nodes
    {
      && |chains| == nbuckets == buckets.Length
      && forall b :: 0 <= b < |chains| ==> BucketOk(b)
    }

    /** The numbers of buckets and nodes are in order. */
    ghost predicate Fits()
      reads `nbuckets, `nnodes, `contents
    {
      (nbuckets == 0 || IsPow2(nbuckets)) && nnodes == |contents| <= nbuckets <= INT_MAX
    }

    /** The table holds every key of `contents`. */
    ghost predicate Covers()
      requires |chains| == nbuckets
      reads `chains, `nbuckets, `contents
    {
      forall k :: k in contents ==> nbuckets > 0 && HasKey(chains[BucketIdx(Hash(k), nbuckets)], k)
    }

    ghost predicate Valid()
      reads this, buckets, nodes
    {
      && Table()
      && Fits()
      && Covers()
    }

    constructor ()
      ensures Valid() && contents == map[] && fresh(buckets) && fresh(nodes)
    {
      buckets := new Node?<V>[0];
      nbuckets, nnodes := 0, 0;
      chains, nodes, contents := [], {}, map[];
    }

    /** map_addnode: puts a node at the head of its bucket. */
    method AddNode(node: Node<V>)
      requires Table() && nbuckets > 0 && node.hash == Hash(node.key)
      requires node.key in contents && contents[node.key] == node.value
      requires !HasKey(chains[BucketIdx(node.hash, nbuckets)], node.key)
      modifies buckets, node`next, this`chains, this`nodes
      ensures Table() && nodes == old(nodes) + {node}
      ensures var n := BucketIdx(node.hash, nbuckets);
        chains == old(chains)[n := [node] + old(chains[n])]
    {
      var n := BucketIdx(node.hash, nbuckets);
      node.next := buckets[n];
      buckets[n] := node;
      chains := chains[n := [node] + chains[n]];
      nodes := nodes + {node};
      forall b | 0 <= b < |chains| ensures BucketOk(b) {
        assert old(BucketOk(b));
      }
    }

    /** map_getref: the node with the key, the node in front of it in its bucket, and its place there. */
    method GetRef(key: Key) returns (prev: Node?<V>, node: Node?<V>, ghost i: nat)
      requires Valid()
      ensures node == null <==> key !in contents
      ensures node != null ==> nbuckets > 0 && Holds(key, prev, node, i)
      ensures node != null ==> node.key == key && At(node)
    {
      prev, node, i := null, null, 0;
      if nbuckets > 0 {
        var hash := MapHash(key);
        var n := BucketIdx(hash, nbuckets);
        assert BucketOk(n);
        ghost var c := chains[n];
        node := buckets[n];
        while node != null && !(node.hash == hash && node.key == key)
          invariant i <= |c| && node == (if i < |c| then c[i] else null)
          invariant prev == if i == 0 then null else c[i - 1]
          invariant forall j :: 0 <= j < i ==> c[j].key != key
          decreases |c| - i
        {
          assert node.next == Succ(c, i);
          prev, node := node, node.next;
          i := i + 1;
        }
        if node != null {
          assert Sound(c[i]);
        }
      }
    }

    /** `node` is where the table has its key. */
    ghost predicate At(node: Node<V>)
      requires Table()
      reads this, buckets, nodes
    {
      && nbuckets > 0 && node in nodes && node in chains[BucketIdx(Hash(node.key), nbuckets)]
      && node.key in contents && node.value == contents[node.key]
    }

    /** `node` has the key and is number `i` of its bucket, behind `prev`. */
    ghost predicate Holds(key: Key, prev: Node?<V>, node: Node<V>, i: nat)
      requires Table() && nbuckets > 0
      reads this, buckets, nodes
    {
      var c := chains[BucketIdx(Hash(key), nbuckets)];
      i < |c| && c[i] == node && node.key == key && prev == if i == 0 then null else c[i - 1]
    }

    /** map_get_. */
    method Get(key: Key) returns (value: Option<V>)
      requires Valid()
      ensures value == if key in contents then Some(contents[key]) else None
    {
      var prev, node, i := GetRef(key);
      value := None;
      if node != null {
        value := Some(node.value);
      }
    }

    /** `*next = (*next)->next`, for node number `i` of bucket `n`: the other buckets' links stay as they are. */
    method Relink(n: nat, prev: Node?<V>, node: Node<V>, ghost i: nat)
      requires Table() && n < nbuckets && i < |chains[n]| && chains[n][i] == node
      requires prev == if i == 0 then null else chains[n][i - 1]
      modifies buckets, nodes`next
      ensures IsChain(buckets[n], Without(chains[n], i))
      ensures forall b :: 0 <= b < |chains| && b != n ==> IsChain(buckets[b], chains[b])
    {
      ghost var c, d := chains[n], Without(chains[n], i);
      assert BucketOk(n) && c[i].next == Succ(c, i);
      forall b, j | 0 <= b < |chains| && b != n && 0 <= j < |chains[b]| ensures chains[b][j] != prev {
        assert BucketOk(b) && Sound(chains[b][j]);
        assert i > 0 ==> Sound(c[i - 1]);
      }
      assert forall j :: 0 <= j < |c| && j + 1 != i ==> c[j] != prev;
      if prev == null {
        buckets[n] := node.next;
      } else {
        prev.next := node.next;
      }
      forall b | 0 <= b < |chains| && b != n ensures IsChain(buckets[b], chains[b]) {
        assert old(BucketOk(b));
      }
      hide DistinctKeys, HasKey, Without, Sound;
      forall j | 0 <= j < |d| ensures d[j].next == Succ(d, j) {
        if j + 1 == i {
          assert d[j] == prev;
        } else {
          var k := if j < i then j else j + 1;
          assert d[j] == c[k] && old(c[k].next) == Succ(c, k);
        }
      }
    }

    /** Takes node number `i` out of bucket `n`, where it stands behind `prev`. */
    method Unlink(n: nat, prev: Node?<V>, node: Node<V>, ghost i: nat)
      requires Table() && n < nbuckets && i < |chains[n]| && chains[n][i] == node
      requires prev == (if i == 0 then null else chains[n][i - 1])
      modifies this`chains, buckets, nodes`next
      ensures Table() && chains == old(chains)[n := Without(old(chains)[n], i)]
    {
      assert BucketOk(n);
      WithoutKeepsKeys(chains[n], i);
      hide IsChain, DistinctKeys, HasKey, Without, IsPow2;
      Relink(n, prev, node, i);
      chains := chains[n := Without(chains[n], i)];
      forall b | 0 <= b < |chains| ensures BucketOk(b) {
        assert old(BucketOk(b));
        assert Members(b);
      }
    }

    /** map_remove_. */
    method Remove(key: Key)
      requires Valid()
      modifies this`nnodes, this`chains, this`contents, buckets, nodes`next
      ensures Valid() && contents == old(contents) - {key}
    {
      var prev, node, i := GetRef(key);
      if node != null {
        RemoveNode(key, prev, node, i);
      }
    }

    /** Takes out the node that has the key, and counts it off. */
    method RemoveNode(key: Key, prev: Node?<V>, node: Node<V>, ghost i: nat)
      requires Valid() && nbuckets > 0 && key in contents && Holds(key, prev, node, i)
      modifies this`nnodes, this`chains, this`contents, buckets, nodes`next
      ensures Valid() && contents == old(contents) - {key}
    {
      MinusKey(contents, key);
      hide Table, Covers, Holds, IsPow2;
      Drop(key, prev, node, i);
      nnodes := nnodes - 1;
    }

    /** Takes out the node that has the key, and the key out of `contents`. */
    method Drop(key: Key, prev: Node?<V>, node: Node<V>, ghost i: nat)
      requires Table() && Covers() && nbuckets > 0 && Holds(key, prev, node, i)
      modifies this`chains, this`contents, buckets, nodes`next
      ensures Table() && Covers() && contents == old(contents) - {key}
    {
      var n := BucketIdx(Hash(key), nbuckets);
      WithoutKeepsKeys(chains[n], i) by {
        assert BucketOk(n);
      }
      hide BucketOk, DistinctKeys, HasKey, IsPow2;
      Unlink(n, prev, node, i);
      Forget(key);
      forall k | k in contents ensures HasKey(chains[BucketIdx(Hash(k), nbuckets)], k) {
        assert HasKey(old(chains)[BucketIdx(Hash(k), nbuckets)], k);
      }
    }

    /** `contents` without a key the table no longer holds. */
    ghost method Forget(key: Key)
      requires Table() && nbuckets > 0 && !HasKey(chains[BucketIdx(Hash(key), nbuckets)], key)
      modifies this`contents
      ensures Table() && contents == old(contents) - {key}
    {
      forall b, j | 0 <= b < |chains| && 0 <= j < |chains[b]| ensures chains[b][j].key != key {
        assert BucketOk(b) && Sound(chains[b][j]);
      }
      contents := contents - {key};
      forall b | 0 <= b < |chains| ensures BucketOk(b) {
        assert old(BucketOk(b));
      }
    }

    // ---------- Resizing ----------

    /** Chains all nodes together, newest first: `all` are the nodes of all buckets, linked from `list`. */
    method ChainAll() returns (list: Node?<V>, ghost all: seq<Node<V>>)
      requires Table()
      modifies nodes`next
      ensures IsChain(list, all) && DistinctKeys(all)
      ensures forall n :: n in all ==> n in nodes && Sound(n)
      ensures forall b, j :: 0 <= b < |chains| && 0 <= j < |chains[b]| ==> chains[b][j] in all
    {
      list, all := null, [];
      var i: nat := nbuckets;
      forall b | 0 <= b < |chains| ensures Members(b) && IsChain(buckets[b], chains[b]) {
        assert BucketOk(b);
      }
      while i > 0
        invariant i <= nbuckets
        invariant IsChain(list, all) && DistinctKeys(all)
        invariant forall b :: 0 <= b < |chains| ==> Members(b)
        invariant forall b :: 0 <= b < i ==> IsChain(buckets[b], chains[b])
        invariant forall n :: n in all ==> n in nodes && Sound(n) && nbuckets > 0 && i <= BucketIdx(n.hash, nbuckets)
        invariant forall b, j :: i <= b < |chains| && 0 <= j < |chains[b]| ==> chains[b][j] in all
      {
        i := i - 1;
        assert Members(i);
        forall b | 0 <= b < i ensures forall n :: n in chains[b] ==> n !in chains[i] {
          DisjointBuckets(b, i);
        }
        list, all := ChainBucket(i, list, all);
        assert forall n :: n in chains[i] ==> n in nodes && Sound(n) && BucketIdx(n.hash, nbuckets) == i;
      }
    }

    lemma DisjointBuckets(a: nat, b: nat)
      requires a < |chains| && b < |chains| && a != b && Members(a) && Members(b)
      ensures forall n :: n in chains[a] ==> n !in chains[b]
    {
    }

    /** Pushes the nodes of bucket `b` onto the list, one by one. */
    method ChainBucket(b: nat, list0: Node?<V>, ghost all0: seq<Node<V>>)
      returns (list: Node?<V>, ghost all: seq<Node<V>>)
      requires b < |chains| == nbuckets == buckets.Length && Members(b) && IsChain(buckets[b], chains[b])
      requires IsChain(list0, all0) && DistinctKeys(all0)
      requires forall j :: 0 <= j < |all0| ==> b < BucketIdx(all0[j].hash, nbuckets)
      requires forall j :: 0 <= j < |all0| ==> all0[j].hash == Hash(all0[j].key)
      modifies (set n | n in chains[b])`next
      ensures IsChain(list, all) && DistinctKeys(all)
      ensures forall n :: n in all <==> n in chains[b] || n in all0
    {
      list, all := list0, all0;
      var node := buckets[b];
      ghost var c, j := chains[b], 0;
      while node != null
        invariant j <= |c| && node == (if j < |c| then c[j] else null)
        invariant forall k {:trigger c[k].next} :: j <= k < |c| ==> c[k].next == Succ(c, k)
        invariant IsChain(list, all) && DistinctKeys(all)
        invariant forall n :: n in all <==> n in c[..j] || n in all0
        decreases |c| - j
      {
        var next := node.next;
        assert next == Succ(c, j);
        forall k | 0 <= k < |all| ensures all[k] != node && all[k].key != node.key {
          assert all[k] in all;
        }
        PushKeepsKeys(node, all);
        assert forall k :: j < k < |c| ==> c[k] != node;
        node.next := list;
        ghost var longer := [node] + all;
        assert forall k {:trigger Succ(longer, k)} :: 0 < k < |longer| ==> Succ(longer, k) == Succ(all, k - 1);
        list, all := node, longer;
        assert c[..j + 1] == c[..j] + [node];
        node := next;
        j := j + 1;
      }
      assert c[..j] == c;
    }

    /** Puts the nodes of a list into the empty table. */
    method ReAdd(list: Node?<V>, ghost all: seq<Node<V>>)
      requires |chains| == nbuckets == buckets.Length && (nbuckets > 0 || all == [])
      requires forall b :: 0 <= b < |chains| ==> chains[b] == [] && buckets[b] == null
      requires IsChain(list, all) && DistinctKeys(all) && nodes == {}
      requires forall n :: n in all ==> Sound(n)
      modifies buckets, (set n | n in all)`next, this`chains, this`nodes
      ensures Table() && forall n :: n in nodes <==> n in all
      ensures forall n :: n in all ==> HasKey(chains[BucketIdx(Hash(n.key), nbuckets)], n.key)
    {
      var node := list;
      ghost var j := 0;
      forall b | 0 <= b < |chains| ensures BucketOk(b) {
        assert IsChain(buckets[b], chains[b]);
      }
      while node != null
        invariant j <= |all| && node == (if j < |all| then all[j] else null)
        invariant Table() && |chains| == old(|chains|) && buckets == old(buckets)
        invariant forall k {:trigger all[k].next} :: j <= k < |all| ==> all[k].next == Succ(all, k)
        invariant HoldsJust(all[..j])
        decreases |all| - j
      {
        var next := node.next;
        assert next == Succ(all, j) && node in all;
        assert forall k :: j < k < |all| ==> all[k] != node;
        assert forall n :: n in all[..j] ==> n.key != node.key;
        assert all[..j + 1] == all[..j] + [node];
        hide DistinctKeys, HoldsJust;
        ReAddNode(node, all[..j]);
        node := next;
        j := j + 1;
      }
      assert all[..j] == all;
    }

    /** The table's nodes are those of `done`, each in its bucket. */
    ghost predicate HoldsJust(done: seq<Node<V>>)
      requires |chains| == nbuckets
      reads `chains, `nodes, `nbuckets
    {
      && (forall n :: n in nodes ==> n in done) && (forall n :: n in done ==> n in nodes)
      && forall n :: n in done ==> nbuckets > 0 && HasKey(chains[BucketIdx(Hash(n.key), nbuckets)], n.key)
    }

    /** Puts one more node into the table. */
    method ReAddNode(node: Node<V>, ghost done: seq<Node<V>>)
      requires Table() && HoldsJust(done) && nbuckets > 0 && Sound(node)
      requires forall n :: n in done ==> n.key != node.key
      modifies buckets, node`next, this`chains, this`nodes
      ensures Table() && |chains| == old(|chains|) && HoldsJust(done + [node])
    {
      ghost var b, before := BucketIdx(node.hash, nbuckets), chains;
      forall k | 0 <= k < |chains[b]| ensures chains[b][k].key != node.key {
        assert BucketOk(b) && chains[b][k] in done;
      }
      assert !HasKey(chains[b], node.key);
      hide BucketOk, HasKey;
      AddNode(node);
      PushHasKey(node, before[b]);
    }

    /** Reallocates the bucket array if possible, and empties the buckets there are then. */
    method ResetBuckets(n: nat, reallocOk: bool)
      requires nbuckets == buckets.Length
      modifies this`buckets, this`nbuckets, this`chains, this`nodes, buckets
      ensures nbuckets == (if reallocOk then n else old(nbuckets)) == buckets.Length == |chains| && nodes == {}
      ensures forall b :: 0 <= b < |chains| ==> chains[b] == [] && buckets[b] == null
      ensures if reallocOk then fresh(buckets) else buckets == old(buckets)
    {
      if reallocOk {
        buckets := new Node?<V>[n](_ => null);
        nbuckets := n;
      } else {
        forall i | 0 <= i < buckets.Length {
          buckets[i] := null;
        }
      }
      chains := seq(nbuckets, _ => []);
      nodes := {};
    }

    /** map_resize: whether or not the buckets can be reallocated, the table holds what it held. */
    method Resize(n: nat, reallocOk: bool) returns (err: int)
      requires Valid() && n > 0
      modifies this`buckets, this`nbuckets, this`chains, this`nodes, buckets, nodes`next
      ensures err == if reallocOk then 0 else -1
      ensures nbuckets == if reallocOk then n else old(nbuckets)
      ensures Table() && Covers() && nodes <= old(nodes)
      ensures if reallocOk then fresh(buckets) else buckets == old(buckets)
    {
      var list: Node?<V>;
      ghost var all: seq<Node<V>>;
      list, all := ChainAll();
      AllHold(all);
      hide HasKey, DistinctKeys, BucketOk, Covers, IsChain;
      Rebuild(n, reallocOk, list, all);
      err := if reallocOk then 0 else -1;
    }

    /** Spreads the nodes of a list, which hold all of `contents`, over the buckets there are then. */
    method Rebuild(n: nat, reallocOk: bool, list: Node?<V>, ghost all: seq<Node<V>>)
      requires nbuckets == buckets.Length && n > 0 && (nbuckets == 0 ==> all == [])
      requires IsChain(list, all) && DistinctKeys(all) && forall m :: m in all ==> Sound(m)
      requires forall k :: k in contents ==> HasKey(all, k)
      modifies this`buckets, this`nbuckets, this`chains, this`nodes, buckets, (set m | m in all)`next
      ensures nbuckets == if reallocOk then n else old(nbuckets)
      ensures Table() && Covers() && forall m :: m in nodes ==> m in all
      ensures if reallocOk then fresh(buckets) else buckets == old(buckets)
    {
      hide HasKey, DistinctKeys, BucketOk, Covers;
      ResetBuckets(n, reallocOk);
      ReAdd(list, all);
      StillCovers(all);
    }

    lemma AllHold(all: seq<Node<V>>)
      requires |chains| == nbuckets && Covers()
      requires forall b, j :: 0 <= b < |chains| && 0 <= j < |chains[b]| ==> chains[b][j] in all
      requires forall n :: n in all ==> n.key in contents
      ensures forall k :: k in contents ==> HasKey(all, k)
      ensures nbuckets == 0 ==> all == []
    {
      forall k | k in contents ensures HasKey(all, k) {
        var m := KeyHolder(chains[BucketIdx(Hash(k), nbuckets)], k);
        assert m in all;
      }
      assert |all| > 0 ==> all[0] in all;
    }

    lemma StillCovers(all: seq<Node<V>>)
      requires |chains| == nbuckets && forall k :: k in contents ==> HasKey(all, k)
      requires forall n :: n in all ==> nbuckets > 0 && HasKey(chains[BucketIdx(Hash(n.key), nbuckets)], n.key)
      ensures Covers()
    {
      forall k | k in contents ensures nbuckets > 0 && HasKey(chains[BucketIdx(Hash(k), nbuckets)], k) {
        var m := KeyHolder(all, k);
      }
    }

    // ---------- Setting ----------

    /** Overwrites the value of a node that has the key. */
    method Overwrite(node: Node<V>, value: V)
      requires Valid() && At(node)
      modifies node`value, this`contents
      ensures Valid() && contents == old(contents)[node.key := value]
    {
      SetValue(node, value);
      forall k | k in contents ensures HasKey(chains[BucketIdx(Hash(k), nbuckets)], k) {
        assert k in old(contents);
      }
    }

    /** Gives a node a new value, and the contents with it. */
    method SetValue(node: Node<V>, value: V)
      requires Table() && nbuckets > 0 && node in chains[BucketIdx(Hash(node.key), nbuckets)]
      modifies node`value, this`contents
      ensures Table() && contents == old(contents)[node.key := value]
    {
      OnlyHolder(node);
      hide DistinctKeys, HasKey, IsPow2, IsChain;
      node.value := value;
      contents := contents[node.key := value];
      forall b | 0 <= b < |chains| ensures BucketOk(b) {
        assert old(BucketOk(b));
      }
    }

    /** No other node has the key of a node in its bucket. */
    lemma OnlyHolder(node: Node<V>)
      requires Table() && nbuckets > 0 && node in chains[BucketIdx(Hash(node.key), nbuckets)]
      ensures forall b, j :: 0 <= b < |chains| && 0 <= j < |chains[b]| && chains[b][j] != node ==>
        chains[b][j].key != node.key
    {
      var n := BucketIdx(Hash(node.key), nbuckets);
      assert BucketOk(n);
      forall b, j | 0 <= b < |chains| && 0 <= j < |chains[b]| && chains[b][j] != node
        ensures chains[b][j].key != node.key
      {
        assert BucketOk(b) && Sound(chains[b][j]);
      }
    }

    /** How many buckets map_set_ asks for when every bucket's worth of nodes is there; an int holds the number. */
    function Grown(): (n: nat)
      reads `nbuckets
      ensures n > 0
    {
      if nbuckets > 0 then nbuckets * 2 else 1
    }

    /** Whether map_set_ gets the memory it needs. */
    ghost predicate CanSet(key: Key, nodeOk: bool, reallocOk: bool)
      reads `contents, `nnodes, `nbuckets
    {
      key in contents || (nodeOk && (nnodes < nbuckets || (reallocOk && Grown() <= INT_MAX)))
    }

    /** map_set_: `nodeOk` and `reallocOk` are whether malloc and realloc would succeed.  A set that fails changes
        nothing. */
    method Set(key: Key, value: V, nodeOk: bool, reallocOk: bool) returns (err: int)
      requires Valid()
      modifies this, buckets, nodes
      ensures Valid()
      ensures err == if old(CanSet(key, nodeOk, reallocOk)) then 0 else -1
      ensures contents == if err == 0 then old(contents)[key := value] else old(contents)
      ensures nbuckets == if err == 0 && key !in old(contents) && old(nnodes == nbuckets)
        then (if old(nbuckets) == 0 then 1 else 2 * old(nbuckets)) else old(nbuckets)
      ensures fresh(nodes - old(nodes)) && (buckets == old(buckets) || fresh(buckets))
    {
      var prev, node, i := GetRef(key);
      if node != null {
        hide BucketOk, HasKey, IsPow2;
        Overwrite(node, value);
        return 0;
      }
      if !nodeOk {
        return -1;
      }
      hide BucketOk, HasKey, IsPow2;
      node := new Node(key, value);
      err := Add(node, reallocOk);
    }

    /** Adds a new node, with more buckets if every bucket's worth of nodes is there already. */
    method Add(node: Node<V>, reallocOk: bool) returns (err: int)
      requires Valid() && node.hash == Hash(node.key) && node.key !in contents
      modifies this, buckets, nodes, node`next
      ensures Valid()
      ensures err == if old(nnodes < nbuckets || (reallocOk && Grown() <= INT_MAX)) then 0 else -1
      ensures contents == if err == 0 then old(contents)[node.key := node.value] else old(contents)
      ensures nbuckets == if err == 0 && old(nnodes == nbuckets)
        then (if old(nbuckets) == 0 then 1 else 2 * old(nbuckets)) else old(nbuckets)
      ensures nodes <= old(nodes) + {node} && (buckets == old(buckets) || fresh(buckets))
    {
      hide Table, Covers, BucketOk, HasKey, IsPow2;
      if nnodes >= nbuckets {
        err := Grow(reallocOk);
        if err != 0 {
          return;
        }
      }
      Insert(node);
      err := 0;
    }

    /** Doubles the buckets, if they can be had. */
    method Grow(reallocOk: bool) returns (err: int)
      requires Valid() && nnodes == nbuckets
      modifies this`buckets, this`nbuckets, this`chains, this`nodes, buckets, nodes`next
      ensures Valid() && nodes <= old(nodes) && (buckets == old(buckets) || fresh(buckets))
      ensures err == if reallocOk && old(Grown()) <= INT_MAX then 0 else -1
      ensures nbuckets == if err == 0 then (if old(nbuckets) == 0 then 1 else 2 * old(nbuckets)) else old(nbuckets)
      ensures err == 0 ==> nnodes < nbuckets
    {
      var n := Grown();
      if nbuckets > 0 {
        DoubleIsPow2(nbuckets);
      }
      hide BucketOk, HasKey, IsPow2;
      err := Resize(n, reallocOk && n <= INT_MAX);
    }

    /** Adds a node with a key that the table has not, when there is a bucket to spare. */
    method Insert(node: Node<V>)
      requires Valid() && nnodes < nbuckets
      requires node.hash == Hash(node.key) && node.key !in contents
      modifies buckets, node`next, this`chains, this`nodes, this`contents, this`nnodes
      ensures Valid() && contents == old(contents)[node.key := node.value] && nodes == old(nodes) + {node}
    {
      ghost var b, before := BucketIdx(node.hash, nbuckets), chains;
      Expect(node.key, node.value);
      hide BucketOk, HasKey, IsPow2;
      AddNode(node);
      PushHasKey(node, before[b]);
      nnodes := nnodes + 1;
    }

    /** `contents` with a new key that the table does not hold yet. */
    ghost method Expect(key: Key, value: V)
      requires Table() && nbuckets > 0 && key !in contents
      modifies this`contents
      ensures Table() && contents == old(contents)[key := value]
      ensures !HasKey(chains[BucketIdx(Hash(key), nbuckets)], key)
    {
      forall b, j | 0 <= b < |chains| && 0 <= j < |chains[b]| ensures chains[b][j].key != key {
        assert BucketOk(b) && Sound(chains[b][j]);
      }
      contents := contents[key := value];
      forall b | 0 <= b < |chains| ensures BucketOk(b) {
        assert old(BucketOk(b));
      }
    }

    // ---------- Iterating ----------

    /** The nodes of the buckets that come after a bucket index, which starts at the largest unsigned. */
    ghost function Ahead(b: nat): seq<Node<V>>
      reads `chains
    {
      if b == UINT_MODULUS - 1 then Flat(chains) else if b < |chains| then Flat(chains[b + 1..]) else []
    }

    lemma AheadStep(b: nat)
      requires b < UINT_MODULUS && |chains| <= INT_MAX
      ensures var n := (b + 1) % UINT_MODULUS;
        Ahead(b) == if n < |chains| then chains[n] + Ahead(n) else []
    {
      var n := (b + 1) % UINT_MODULUS;
      assert b == UINT_MODULUS - 1 ==> chains[n..] == chains;
      if n < |chains| {
        assert chains[n..][1..] == chains[n + 1..];
      }
    }

    /** `left` are the nodes an iterator has still to visit, in its order: bucket by bucket, each from its head. */
    ghost predicate Walks(iter: Iter<V>, left: seq<Node<V>>)
      reads `chains, iter
    {
      if iter.node != null then exists i: nat :: WalksFrom(iter, i, left)
      else (|chains| <= iter.bucketidx < UINT_MODULUS && left == Ahead(iter.bucketidx))
    }

    ghost predicate WalksFrom(iter: Iter<V>, i: nat, left: seq<Node<V>>)
      reads `chains, iter
    {
      var b := iter.bucketidx;
      b < |chains| && i < |chains[b]| && iter.node == chains[b][i] && left == chains[b][i + 1..] + Ahead(b)
    }

    /** map_next_: the key of the next node; when there is none it says so, until the bucket index wraps around. */
    method Next(iter: Iter<V>, ghost left: seq<Node<V>>) returns (key: Option<Key>)
      requires Valid() && Walks(iter, left)
      modifies iter
      ensures key == FirstKey(left)
      ensures left != [] || iter.bucketidx < UINT_MODULUS - 1 ==> Walks(iter, Later(left))
    {
      hide Covers, IsPow2, Ahead;
      if iter.node != null {
        ghost var i: nat :| WalksFrom(iter, i, left);
        assert BucketOk(iter.bucketidx);
        iter.node := iter.node.next;
        assert iter.node == Succ(chains[iter.bucketidx], i);
        if iter.node != null {
          assert WalksFrom(iter, i + 1, left[1..]);
          return Some(iter.node.key);
        }
      }
      key := NextBucket(iter, left);
    }

    /** The part of map_next_ at its label: on to the next bucket that is not empty. */
    method NextBucket(iter: Iter<V>, ghost left: seq<Node<V>>) returns (key: Option<Key>)
      requires Table() && nbuckets <= INT_MAX && iter.bucketidx < UINT_MODULUS
      requires left == Ahead(iter.bucketidx)
      modifies iter
      ensures key == FirstKey(left)
      ensures left != [] || iter.bucketidx < UINT_MODULUS - 1 ==> Walks(iter, Later(left))
    {
      hide Ahead, Walks, BucketOk;
      iter.node := null;
      while true
        invariant iter.node == null && iter.bucketidx < UINT_MODULUS && left == Ahead(iter.bucketidx)
        decreases if iter.bucketidx == UINT_MODULUS - 1 then nbuckets + 1 else nbuckets - iter.bucketidx
      {
        AheadStep(iter.bucketidx);
        iter.bucketidx := (iter.bucketidx + 1) % UINT_MODULUS;
        if iter.bucketidx >= nbuckets {
          if iter.bucketidx < UINT_MODULUS - 1 {
            WalkIsOver(iter);
          }
          return None;
        }
        iter.node := buckets[iter.bucketidx];
        HeadIsFirst(iter.bucketidx);
        if iter.node != null {
          StartsBucket(iter);
          return Some(iter.node.key);
        }
      }
    }

    lemma HeadIsFirst(b: nat)
      requires Table() && b < nbuckets
      ensures buckets[b] == if |chains[b]| > 0 then chains[b][0] else null
    {
      assert BucketOk(b);
    }

    lemma WalkIsOver(iter: Iter<V>)
      requires |chains| <= iter.bucketidx < UINT_MODULUS - 1 && iter.node == null
      ensures Walks(iter, [])
    {
    }

    lemma StartsBucket(iter: Iter<V>)
      requires iter.bucketidx < |chains| && |chains[iter.bucketidx]| > 0 && iter.node == chains[iter.bucketidx][0]
      ensures Walks(iter, Later(chains[iter.bucketidx] + Ahead(iter.bucketidx)))
    {
      var b := iter.bucketidx;
      assert WalksFrom(iter, 0, chains[b][1..] + Ahead(b));
      assert Later(chains[b] + Ahead(b)) == chains[b][1..] + Ahead(b);
    }

    /** A whole iteration: every key of the map, each of them once. */
    method Keys() returns (keys: seq<Key>)
      requires Valid()
      ensures forall k :: k in keys <==> k in contents
      ensures forall i, j :: 0 <= i < j < |keys| ==> keys[i] != keys[j]
    {
      var iter := new Iter();
      ghost var all := Flat(chains);
      VisitsEachKeyOnce();
      assert Walks(iter, all);
      hide Valid, HasKey, DistinctKeys, Flat, Walks;
      keys := KeysFrom(iter, all);
      VisitedAll(all, keys, contents.Keys);
    }

    /** The loop of an iteration, from its start to its end. */
    method KeysFrom(iter: Iter<V>, ghost all: seq<Node<V>>) returns (keys: seq<Key>)
      requires Valid() && Walks(iter, all)
      modifies iter
      ensures Visited(all, keys, None, [])
    {
      hide Valid, Walks, Visited, Later;
      keys := [];
      ghost var left := Later(all);
      var key := Next(iter, all);
      VisitedStart(all, key);
      while key != None
        invariant Valid() && Visited(all, keys, key, left)
        invariant key != None ==> Walks(iter, left)
        decreases |left|, key != None
      {
        keys := keys + [key.value];
        key := NextKey(iter, all, keys, left);
        left := Later(left);
      }
      VisitedEnds(all, keys, left);
    }

    /** The key behind `keys`, in a whole iteration. */
    method NextKey(iter: Iter<V>, ghost all: seq<Node<V>>, ghost keys: seq<Key>, ghost left: seq<Node<V>>)
      returns (key: Option<Key>)
      requires Valid() && Walks(iter, left)
      requires |keys| > 0 && Visited(all, keys[..|keys| - 1], Some(keys[|keys| - 1]), left)
      modifies iter
      ensures Valid() && Visited(all, keys, key, Later(left))
      ensures if left == [] then key == None else key != None && Walks(iter, Later(left))
    {
      hide Valid, Walks, Visited;
      key := Next(iter, left);
      VisitedStep(all, keys, Some(keys[|keys| - 1]), left, key);
    }

    /** Bucket by bucket, the table's nodes hold each key of the map exactly once. */
    lemma VisitsEachKeyOnce()
      requires Valid()
      ensures DistinctKeys(Flat(chains)) && forall k :: k in contents <==> HasKey(Flat(chains), k)
    {
      forall b | 0 <= b < |chains| ensures DistinctKeys(chains[b]) && AllIn(chains[b], b, nbuckets) {
        assert BucketOk(b) && Members(b);
      }
      FlatKeys(chains, 0, nbuckets);
      forall k ensures k in contents <==> HasKey(Flat(chains), k) {
        if HasKey(Flat(chains), k) {
          var n := KeyHolder(Flat(chains), k);
          var b := FlatBucket(chains, n);
          assert BucketOk(b) && exists i :: 0 <= i < |chains[b]| && chains[b][i] == n && Sound(chains[b][i]);
        }
        if k in contents {
          var b := BucketIdx(Hash(k), nbuckets);
          assert HasKey(chains[b], k);
          var n := KeyHolder(chains[b], k);
          FlatHolds(chains, b, n);
        }
      }
    }
  }

  /** map_iter_t, as map_iter_ sets it up. */
  class Iter<V> {
    var bucketidx: nat
    var node: Node?<V>

    constructor ()
      ensures bucketidx == UINT_MODULUS - 1 && node == null
    {
      bucketidx, node := UINT_MODULUS - 1, null;
    }
  }

  ghost function Later<V>(left: seq<Node<V>>): (later: seq<Node<V>>)
    ensures left != [] ==> |later| == |left| - 1
    ensures left == [] ==> later == []
  {
    if left == [] then [] else left[1..]
  }

  ghost function FirstKey<V>(left: seq<Node<V>>): Option<Key> {
    if left == [] then None else Some(left[0].key)
  }

  /** `keys`, then `key` if there is one, then the keys of `left` are the keys of all nodes. */
  ghost predicate Visited<V>(all: seq<Node<V>>, keys: seq<Key>, key: Option<Key>, left: seq<Node<V>>) {
    && |keys| <= |all| && (forall i :: 0 <= i < |keys| ==> keys[i] == all[i].key)
    && key == FirstKey(all[|keys|..]) && left == Later(all[|keys|..])
  }

  lemma VisitedStart<V>(all: seq<Node<V>>, key: Option<Key>)
    requires key == FirstKey(all)
    ensures Visited(all, [], key, Later(all))
  {
    assert all[0..] == all;
  }

  lemma VisitedStep<V>(all: seq<Node<V>>, keys: seq<Key>, was: Option<Key>, left: seq<Node<V>>, key: Option<Key>)
    requires |keys| > 0 && was == Some(keys[|keys| - 1]) && Visited(all, keys[..|keys| - 1], was, left)
    requires key == FirstKey(left)
    ensures Visited(all, keys, key, Later(left))
  {
    var n := |keys| - 1;
    assert all[n..][1..] == all[n + 1..];
    assert forall i :: 0 <= i < n ==> keys[..n][i] == keys[i];
  }

  lemma VisitedEnds<V>(all: seq<Node<V>>, keys: seq<Key>, left: seq<Node<V>>)
    requires Visited(all, keys, None, left)
    ensures left == []
  {
  }

  lemma VisitedAll<V>(all: seq<Node<V>>, keys: seq<Key>, ks: set<Key>)
    requires Visited(all, keys, None, []) && DistinctKeys(all) && forall k :: k in ks <==> HasKey(all, k)
    ensures forall k :: k in keys <==> k in ks
    ensures forall i, j :: 0 <= i < j < |keys| ==> keys[i] != keys[j]
  {
    forall k | k in ks ensures k in keys {
      var i :| 0 <= i < |all| && all[i].key == k;
      assert keys[i] == k;
    }
  }

  ghost function Flat<V>(cs: seq<seq<Node<V>>>): seq<Node<V>> {
    if |cs| == 0 then [] else cs[0] + Flat(cs[1..])
  }

  ghost predicate AllIn<V>(c: seq<Node<V>>, b: nat, nbuckets: nat) {
    nbuckets > 0 && forall i :: 0 <= i < |c| ==> BucketIdx(Hash(c[i].key), nbuckets) == b
  }

  lemma {:induction false} FlatKeys<V>(cs: seq<seq<Node<V>>>, start: nat, nbuckets: nat)
    requires forall b :: 0 <= b < |cs| ==> DistinctKeys(cs[b]) && AllIn(cs[b], start + b, nbuckets)
    ensures DistinctKeys(Flat(cs))
    ensures forall i :: 0 <= i < |Flat(cs)| ==> nbuckets > 0 && start <= BucketIdx(Hash(Flat(cs)[i].key), nbuckets)
  {
    if |cs| > 0 {
      var c, tail := cs[0], cs[1..];
      forall b | 0 <= b < |tail| ensures DistinctKeys(tail[b]) && AllIn(tail[b], start + 1 + b, nbuckets) {
        assert tail[b] == cs[b + 1];
      }
      FlatKeys(tail, start + 1, nbuckets);
      var d := Flat(tail);
      assert AllIn(c, start + 0, nbuckets);
      var cd: seq<Node<V>> := c + d;
      forall i, j | 0 <= i < j < |cd| ensures cd[i].key != cd[j].key {
        if i < |c| <= j {
          assert BucketIdx(Hash(c[i].key), nbuckets) < BucketIdx(Hash(d[j - |c|].key), nbuckets);
        }
      }
    }
  }

  lemma {:induction false} FlatBucket<V>(cs: seq<seq<Node<V>>>, n: Node<V>) returns (b: nat)
    requires n in Flat(cs)
    ensures b < |cs| && n in cs[b]
  {
    if n in cs[0] {
      b := 0;
    } else {
      b := FlatBucket(cs[1..], n);
      b := b + 1;
    }
  }

  lemma {:induction false} FlatHolds<V>(cs: seq<seq<Node<V>>>, b: nat, n: Node<V>)
    requires b < |cs| && n in cs[b]
    ensures HasKey(Flat(cs), n.key)
  {
    var f := Flat(cs);
    if b == 0 {
      var i :| 0 <= i < |cs[0]| && cs[0][i] == n;
      assert f[i] == n;
    } else {
      FlatHolds(cs[1..], b - 1, n);
      var m := KeyHolder(Flat(cs[1..]), n.key);
      var i :| 0 <= i < |Flat(cs[1..])| && Flat(cs[1..])[i] == m;
      assert f[|cs[0]| + i] == m;
    }
  }

  lemma MinusKey<V>(m: map<Key, V>, key: Key)
    ensures if key in m then |m - {key}| == |m| - 1 else m - {key} == m
  {
    if key in m {
      assert m == (m - {key})[key := m[key]];
    }
  }

  lemma KeyHolder<V>(c: seq<Node<V>>, k: Key) returns (n: Node<V>)
    requires HasKey(c, k)
    ensures n in c && n.key == k
  {
    var j :| 0 <= j < |c| && c[j].key == k;
    n := c[j];
  }

  lemma PushHasKey<V>(node: Node<V>, c: seq<Node<V>>)
    ensures forall k :: k == node.key || HasKey(c, k) ==> HasKey([node] + c, k)
  {
    var d := [node] + c;
    forall k | k == node.key || HasKey(c, k) ensures HasKey(d, k) {
      if k == node.key {
        assert d[0].key == k;
      } else {
        var i :| 0 <= i < |c| && c[i].key == k;
        assert d[i + 1].key == k;
      }
    }
  }

  lemma PushKeepsKeys<V>(node: Node<V>, c: seq<Node<V>>)
    requires DistinctKeys(c) && !HasKey(c, node.key)
    ensures DistinctKeys([node] + c)
  {
  }
}
