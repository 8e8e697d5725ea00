/** The kernel's hash map (kernel/util/hash.h): buckets of singly linked nodes. `ChainModel` is the nodes as a value and
    which finite map they stand for; `HashMap` relinks them in place. */
module ChainModel {
  import opened Bytes

  /** A node: its key, its data, and the address of the next one, 0 at the end of a chain. */
  datatype Node<K, D> = Node(key: K, data: D, next: nat)

  /** Bucket heads and the nodes by address. */
  datatype Table<K, D> = Table(heads: seq<nat>, nodes: map<nat, Node<K, D>>)

  function AddressAt(chain: seq<nat>, i: nat): nat {
    if i < |chain| then chain[i] else 0
  }

  /** The node at place `i` of a chain is there, is linked to the next, and its key belongs in bucket `b`. */
  ghost predicate NodeOk<K(!new), D>(t: Table<K, D>, hash: K -> nat, b: nat, chain: seq<nat>, i: nat)
    requires i < |chain| && |t.heads| > 0
  {
    && chain[i] != 0 && chain[i] in t.nodes && t.nodes[chain[i]].next == AddressAt(chain, i + 1)
    && Rem(hash(t.nodes[chain[i]].key), |t.heads|) == b
  }

  ghost predicate ChainOk<K(!new), D>(t: Table<K, D>, hash: K -> nat, b: nat, chain: seq<nat>)
    requires b < |t.heads|
  {
    && t.heads[b] == AddressAt(chain, 0)
    && (forall i: nat :: i < |chain| ==> NodeOk(t, hash, b, chain, i))
    && (forall i, j :: 0 <= i < j < |chain| ==> chain[i] != chain[j])
    && (forall i, j :: 0 <= i < j < |chain| && chain[i] in t.nodes && chain[j] in t.nodes ==>
          t.nodes[chain[i]].key != t.nodes[chain[j]].key)
  }

  /** Every bucket's chain is in order and holds the keys whose hash selects it, each once. */
  ghost predicate ChainsOk<K(!new), D>(t: Table<K, D>, hash: K -> nat, chains: seq<seq<nat>>) {
    && |chains| == |t.heads| > 0
    && forall b: nat :: b < |chains| ==> ChainOk(t, hash, b, chains[b])
  }

  /** No node is in two chains. */
  ghost predicate Apart(chains: seq<seq<nat>>) {
    forall b, c :: 0 <= b < c < |chains| ==> forall a :: a in chains[b] ==> a !in chains[c]
  }

  ghost predicate HasKey<K(!new), D>(t: Table<K, D>, chain: seq<nat>, key: K) {
    exists i :: 0 <= i < |chain| && chain[i] in t.nodes && t.nodes[chain[i]].key == key
  }

  ghost predicate NodesIn<K(!new), D(!new)>(t: Table<K, D>, chain: seq<nat>, contents: map<K, D>) {
    forall i :: 0 <= i < |chain| && chain[i] in t.nodes ==>
      t.nodes[chain[i]].key in contents && contents[t.nodes[chain[i]].key] == t.nodes[chain[i]].data
  }

  /** The chains stand for a finite map: every node is one of its pairs, and every pair is a node of its key's bucket. */
  ghost predicate StandsFor<K(!new), D(!new)>(t: Table<K, D>, hash: K -> nat, chains: seq<seq<nat>>, contents: map<K, D>) {
    && ChainsOk(t, hash, chains) && Apart(chains)
    && (forall b: nat :: b < |chains| ==> NodesIn(t, chains[b], contents))
    && (forall key :: key in contents ==> HasKey(t, chains[Rem(hash(key), |t.heads|)], key))
  }

  /** A key is found by walking its bucket, and nowhere else. */
  lemma FoundIsMapped<K(!new), D(!new)>(t: Table<K, D>, hash: K -> nat, chains: seq<seq<nat>>, contents: map<K, D>, key: K)
    requires StandsFor(t, hash, chains, contents)
    ensures key in contents <==> HasKey(t, chains[Rem(hash(key), |t.heads|)], key)
  {
  }

  lemma Empty<K(!new), D(!new)>(t: Table<K, D>, hash: K -> nat, chains: seq<seq<nat>>)
    requires |chains| == |t.heads| > 0 && forall b :: 0 <= b < |chains| ==> chains[b] == [] && t.heads[b] == 0
    ensures StandsFor(t, hash, chains, map[])
  {
  }

  lemma AddressNotNull<K(!new), D(!new)>(t: Table<K, D>, hash: K -> nat, b: nat, chain: seq<nat>, i: nat)
    requires b < |t.heads| && ChainOk(t, hash, b, chain) && i <= |chain|
    ensures AddressAt(chain, i) != 0 <==> i < |chain|
    ensures i < |chain| ==> chain[i] in t.nodes
  {
    assert i < |chain| ==> NodeOk(t, hash, b, chain, i);
  }

  // ---- adding a node at the end of a chain ----

  function Appended<K, D>(t: Table<K, D>, b: nat, prev: nat, at: nat, key: K, data: D): Table<K, D>
    requires b < |t.heads| && (prev != 0 ==> prev in t.nodes)
  {
    var nodes := t.nodes[at := Node(key, data, 0)];
    if prev == 0 then Table(t.heads[b := at], nodes) else Table(t.heads, nodes[prev := t.nodes[prev].(next := at)])
  }

  lemma AppendKeeps<K(!new), D(!new)>(t: Table<K, D>, hash: K -> nat, chains: seq<seq<nat>>, contents: map<K, D>, at: nat, key: K, data: D)
    requires StandsFor(t, hash, chains, contents) && key !in contents && at != 0 && at !in t.nodes
    ensures var b := Rem(hash(key), |t.heads|); var prev := AddressAt(chains[b], if chains[b] == [] then 0 else |chains[b]| - 1);
      && (prev != 0 ==> prev in t.nodes)
      && StandsFor(Appended(t, b, prev, at, key, data), hash, chains[b := chains[b] + [at]], contents[key := data])
  {
    hide Rem;
    var b := Rem(hash(key), |t.heads|);
    var prev := AddressAt(chains[b], if chains[b] == [] then 0 else |chains[b]| - 1);
    assert ChainOk(t, hash, b, chains[b]);
    assert chains[b] != [] ==> NodeOk(t, hash, b, chains[b], |chains[b]| - 1);
    var u := Appended(t, b, prev, at, key, data);
    var us := chains[b := chains[b] + [at]];
    FoundIsMapped(t, hash, chains, contents, key);
    AppendChains(t, hash, chains, b, prev, at, key, data);
    forall c: nat | c < |us| ensures NodesIn(u, us[c], contents[key := data]) {
      assert ChainOk(t, hash, c, chains[c]) && NodesIn(t, chains[c], contents);
      AppendNodesIn(t, hash, chains[c], c, contents, b, prev, at, key, data);
    }
    forall k | k in contents[key := data] ensures HasKey(u, us[Rem(hash(k), |u.heads|)], k) {
      AppendHasKey(t, chains, b, prev, at, key, data, k, Rem(hash(k), |t.heads|));
    }
  }

  lemma AppendNodesIn<K(!new), D(!new)>(t: Table<K, D>, hash: K -> nat, chain: seq<nat>, c: nat, contents: map<K, D>,
      b: nat, prev: nat, at: nat, key: K, data: D)
    requires b < |t.heads| && c < |t.heads| && (prev != 0 ==> prev in t.nodes) && at != 0 && at !in t.nodes && key !in contents
    requires ChainOk(t, hash, c, chain) && NodesIn(t, chain, contents)
    ensures NodesIn(Appended(t, b, prev, at, key, data), if c == b then chain + [at] else chain, contents[key := data])
  {
  }

  lemma AppendHasKey<K(!new), D(!new)>(t: Table<K, D>, chains: seq<seq<nat>>, b: nat, prev: nat, at: nat, key: K, data: D, k: K, c: nat)
    requires b < |t.heads| == |chains| && c < |chains| && (prev != 0 ==> prev in t.nodes) && at != 0 && at !in t.nodes
    requires if k == key then c == b else HasKey(t, chains[c], k)
    ensures HasKey(Appended(t, b, prev, at, key, data), chains[b := chains[b] + [at]][c], k)
  {
    var u := Appended(t, b, prev, at, key, data);
    var us := chains[b := chains[b] + [at]];
    if k == key {
      assert us[c][|chains[b]|] == at && at in u.nodes && (prev == at ==> false);
    } else {
      var i :| 0 <= i < |chains[c]| && chains[c][i] in t.nodes && t.nodes[chains[c][i]].key == k;
      assert us[c][i] == chains[c][i];
    }
  }

  lemma AppendChains<K(!new), D(!new)>(t: Table<K, D>, hash: K -> nat, chains: seq<seq<nat>>, b: nat, prev: nat, at: nat, key: K, data: D)
    requires ChainsOk(t, hash, chains) && Apart(chains) && b < |chains| && b == Rem(hash(key), |t.heads|)
    requires at != 0 && at !in t.nodes && !HasKey(t, chains[b], key)
    requires prev == AddressAt(chains[b], if chains[b] == [] then 0 else |chains[b]| - 1) && (prev != 0 ==> prev in t.nodes)
    ensures ChainsOk(Appended(t, b, prev, at, key, data), hash, chains[b := chains[b] + [at]])
    ensures Apart(chains[b := chains[b] + [at]])
  {
    hide Rem;
    var u := Appended(t, b, prev, at, key, data);
    var us := chains[b := chains[b] + [at]];
    forall c: nat | c < |us| ensures ChainOk(u, hash, c, us[c]) {
      assert ChainOk(t, hash, c, chains[c]);
      if c == b {
        AppendOwnChain(t, hash, chains[b], b, at, key, data);
      } else {
        AppendOtherChain(t, hash, chains, b, c, at, key, data);
      }
    }
    forall c: nat, a | c < |chains| && a in chains[c] ensures a != at {
      assert ChainOk(t, hash, c, chains[c]);
      var i :| 0 <= i < |chains[c]| && chains[c][i] == a;
      assert NodeOk(t, hash, c, chains[c], i);
    }
  }

  lemma AppendOwnChain<K(!new), D(!new)>(t: Table<K, D>, hash: K -> nat, chain: seq<nat>, b: nat, at: nat, key: K, data: D)
    requires b < |t.heads| && ChainOk(t, hash, b, chain) && b == Rem(hash(key), |t.heads|)
    requires at != 0 && at !in t.nodes && !HasKey(t, chain, key)
    ensures var prev := AddressAt(chain, if chain == [] then 0 else |chain| - 1);
      && (prev != 0 ==> prev in t.nodes)
      && ChainOk(Appended(t, b, prev, at, key, data), hash, b, chain + [at])
  {
    hide Rem;
    var prev := AddressAt(chain, if chain == [] then 0 else |chain| - 1);
    assert chain != [] ==> NodeOk(t, hash, b, chain, |chain| - 1);
    var u := Appended(t, b, prev, at, key, data);
    var us := chain + [at];
    forall i: nat | i < |us| ensures NodeOk(u, hash, b, us, i) && (i < |chain| ==> chain[i] in t.nodes && u.nodes[us[i]].key == t.nodes[chain[i]].key) {
      if i < |chain| {
        assert NodeOk(t, hash, b, chain, i);
      }
    }
    forall i, j | 0 <= i < j < |us| ensures us[i] != us[j] && u.nodes[us[i]].key != u.nodes[us[j]].key {
      assert NodeOk(t, hash, b, chain, i) && NodeOk(u, hash, b, us, j);
    }
  }

  lemma AppendOtherChain<K(!new), D(!new)>(t: Table<K, D>, hash: K -> nat, chains: seq<seq<nat>>, b: nat, c: nat, at: nat, key: K, data: D)
    requires ChainsOk(t, hash, chains) && Apart(chains) && b < |chains| && c < |chains| && b != c
    requires at != 0 && at !in t.nodes
    ensures var prev := AddressAt(chains[b], if chains[b] == [] then 0 else |chains[b]| - 1);
      && (prev != 0 ==> prev in t.nodes)
      && ChainOk(Appended(t, b, prev, at, key, data), hash, c, chains[c])
  {
    hide Rem;
    var prev := AddressAt(chains[b], if chains[b] == [] then 0 else |chains[b]| - 1);
    assert ChainOk(t, hash, b, chains[b]) && ChainOk(t, hash, c, chains[c]);
    assert chains[b] != [] ==> NodeOk(t, hash, b, chains[b], |chains[b]| - 1) && prev in chains[b];
    var u := Appended(t, b, prev, at, key, data);
    forall i: nat | i < |chains[c]| ensures NodeOk(u, hash, c, chains[c], i) && chains[c][i] in t.nodes && u.nodes[chains[c][i]] == t.nodes[chains[c][i]] {
      assert NodeOk(t, hash, c, chains[c], i) && chains[c][i] in chains[c];
    }
  }

  // ---- taking a node out of a chain ----

  function Unlinked<K, D>(t: Table<K, D>, b: nat, prev: nat, at: nat): Table<K, D>
    requires b < |t.heads| && at in t.nodes && (prev != 0 ==> prev in t.nodes)
  {
    if prev == 0 then Table(t.heads[b := t.nodes[at].next], t.nodes - {at})
    else Table(t.heads, t.nodes[prev := t.nodes[prev].(next := t.nodes[at].next)] - {at})
  }

  function Before(chain: seq<nat>, i: nat): nat {
    if 0 < i <= |chain| then chain[i - 1] else 0
  }

  lemma UnlinkOwnChain<K(!new), D(!new)>(t: Table<K, D>, hash: K -> nat, chain: seq<nat>, b: nat, i: nat)
    requires b < |t.heads| && ChainOk(t, hash, b, chain) && i < |chain|
    ensures chain[i] in t.nodes && (Before(chain, i) != 0 ==> Before(chain, i) in t.nodes)
    ensures ChainOk(Unlinked(t, b, Before(chain, i), chain[i]), hash, b, chain[..i] + chain[i + 1..])
    ensures forall j :: 0 <= j < |chain| && j != i ==>
      chain[j] in t.nodes && chain[j] in Unlinked(t, b, Before(chain, i), chain[i]).nodes
      && Unlinked(t, b, Before(chain, i), chain[i]).nodes[chain[j]].key == t.nodes[chain[j]].key
  {
    hide Rem;
    assert NodeOk(t, hash, b, chain, i);
    assert i > 0 ==> NodeOk(t, hash, b, chain, i - 1);
    var u := Unlinked(t, b, Before(chain, i), chain[i]);
    var us := chain[..i] + chain[i + 1..];
    forall j | 0 <= j < |chain| && j != i
      ensures chain[j] in t.nodes && chain[j] in u.nodes && u.nodes[chain[j]].key == t.nodes[chain[j]].key
    {
      assert NodeOk(t, hash, b, chain, j);
    }
    forall j: nat | j < |us| ensures NodeOk(u, hash, b, us, j) {
      assert NodeOk(t, hash, b, chain, if j < i then j else j + 1);
    }
    forall j, k | 0 <= j < k < |us| ensures us[j] != us[k] && us[j] in u.nodes && us[k] in u.nodes && u.nodes[us[j]].key != u.nodes[us[k]].key {
      var j', k' := if j < i then j else j + 1, if k < i then k else k + 1;
      assert us[j] == chain[j'] && us[k] == chain[k'];
    }
  }

  lemma UnlinkOtherChain<K(!new), D(!new)>(t: Table<K, D>, hash: K -> nat, chains: seq<seq<nat>>, b: nat, i: nat, c: nat)
    requires ChainsOk(t, hash, chains) && Apart(chains) && b < |chains| && i < |chains[b]| && c < |chains| && b != c
    ensures var at, prev := chains[b][i], Before(chains[b], i);
      && at in t.nodes && (prev != 0 ==> prev in t.nodes)
      && ChainOk(Unlinked(t, b, prev, at), hash, c, chains[c])
      && forall j :: 0 <= j < |chains[c]| ==>
           && chains[c][j] in t.nodes && chains[c][j] in Unlinked(t, b, prev, at).nodes
           && Unlinked(t, b, prev, at).nodes[chains[c][j]] == t.nodes[chains[c][j]]
  {
    hide Rem;
    assert ChainOk(t, hash, b, chains[b]) && ChainOk(t, hash, c, chains[c]);
    assert NodeOk(t, hash, b, chains[b], i) && (i > 0 ==> NodeOk(t, hash, b, chains[b], i - 1));
    assert chains[b][i] in chains[b] && (i > 0 ==> chains[b][i - 1] in chains[b]);
    var u := Unlinked(t, b, Before(chains[b], i), chains[b][i]);
    forall j: nat | j < |chains[c]|
      ensures NodeOk(u, hash, c, chains[c], j) && chains[c][j] in t.nodes && u.nodes[chains[c][j]] == t.nodes[chains[c][j]]
    {
      assert NodeOk(t, hash, c, chains[c], j) && chains[c][j] in chains[c];
    }
  }

  lemma UnlinkKeeps<K(!new), D(!new)>(t: Table<K, D>, hash: K -> nat, chains: seq<seq<nat>>, contents: map<K, D>, b: nat, i: nat, key: K)
    requires StandsFor(t, hash, chains, contents) && b < |chains| && i < |chains[b]| && b == Rem(hash(key), |t.heads|)
    requires chains[b][i] in t.nodes && t.nodes[chains[b][i]].key == key
    ensures var prev := Before(chains[b], i);
      && (prev != 0 ==> prev in t.nodes)
      && StandsFor(Unlinked(t, b, prev, chains[b][i]), hash, chains[b := chains[b][..i] + chains[b][i + 1..]], contents - {key})
  {
    hide Rem;
    assert ChainOk(t, hash, b, chains[b]);
    UnlinkOwnChain(t, hash, chains[b], b, i);
    var u := Unlinked(t, b, Before(chains[b], i), chains[b][i]);
    var own := chains[b][..i] + chains[b][i + 1..];
    var us := chains[b := own];
    forall c: nat | c < |us| ensures ChainOk(u, hash, c, us[c]) && NodesIn(u, us[c], contents - {key}) {
      UnlinkChainIn(t, hash, chains, contents, b, i, key, c);
    }
    forall c, d | 0 <= c < d < |us| ensures forall a :: a in us[c] ==> a !in us[d] {
      assert forall a :: a in own ==> a in chains[b];
    }
    forall k | k in contents - {key} ensures HasKey(u, us[Rem(hash(k), |u.heads|)], k) {
      UnlinkHasKey(t, hash, chains, b, i, key, k, Rem(hash(k), |t.heads|));
    }
  }

  lemma UnlinkChainIn<K(!new), D(!new)>(t: Table<K, D>, hash: K -> nat, chains: seq<seq<nat>>, contents: map<K, D>, b: nat, i: nat, key: K, c: nat)
    requires StandsFor(t, hash, chains, contents) && b < |chains| && i < |chains[b]| && b == Rem(hash(key), |t.heads|)
    requires chains[b][i] in t.nodes && t.nodes[chains[b][i]].key == key && c < |chains|
    ensures var prev := Before(chains[b], i);
      && (prev != 0 ==> prev in t.nodes)
      && var u, us := Unlinked(t, b, prev, chains[b][i]), chains[b := chains[b][..i] + chains[b][i + 1..]];
      ChainOk(u, hash, c, us[c]) && NodesIn(u, us[c], contents - {key})
  {
    hide Rem;
    assert ChainOk(t, hash, c, chains[c]) && NodesIn(t, chains[c], contents) && ChainOk(t, hash, b, chains[b]);
    UnlinkOwnChain(t, hash, chains[b], b, i);
    OtherKeys(t, hash, chains, contents, b, i, key, c);
    if c != b {
      UnlinkOtherChain(t, hash, chains, b, i, c);
    }
  }

  /** The node that goes is the only one with its key. */
  lemma OtherKeys<K(!new), D(!new)>(t: Table<K, D>, hash: K -> nat, chains: seq<seq<nat>>, contents: map<K, D>, b: nat, i: nat, key: K, c: nat)
    requires StandsFor(t, hash, chains, contents) && b < |chains| && i < |chains[b]| && b == Rem(hash(key), |t.heads|)
    requires chains[b][i] in t.nodes && t.nodes[chains[b][i]].key == key && c < |chains|
    ensures var us := chains[b := chains[b][..i] + chains[b][i + 1..]];
      forall j :: 0 <= j < |us[c]| ==> us[c][j] in t.nodes && t.nodes[us[c][j]].key != key
  {
    hide Rem;
    var us := chains[b := chains[b][..i] + chains[b][i + 1..]];
    assert ChainOk(t, hash, c, chains[c]) && ChainOk(t, hash, b, chains[b]);
    forall j: nat | j < |us[c]| ensures us[c][j] in t.nodes && t.nodes[us[c][j]].key != key {
      var j' := if c != b || j < i then j else j + 1;
      assert us[c][j] == chains[c][j'] && NodeOk(t, hash, c, chains[c], j');
    }
  }

  lemma UnlinkHasKey<K(!new), D(!new)>(t: Table<K, D>, hash: K -> nat, chains: seq<seq<nat>>, b: nat, i: nat, key: K, k: K, c: nat)
    requires ChainsOk(t, hash, chains) && Apart(chains) && b < |chains| && ChainOk(t, hash, b, chains[b]) && i < |chains[b]|
    requires chains[b][i] in t.nodes && t.nodes[chains[b][i]].key == key && k != key && c < |chains| && HasKey(t, chains[c], k)
    ensures var prev := Before(chains[b], i);
      && (prev != 0 ==> prev in t.nodes)
      && HasKey(Unlinked(t, b, prev, chains[b][i]), chains[b := chains[b][..i] + chains[b][i + 1..]][c], k)
  {
    UnlinkOwnChain(t, hash, chains[b], b, i);
    var us := chains[b := chains[b][..i] + chains[b][i + 1..]];
    var j: nat :| j < |chains[c]| && chains[c][j] in t.nodes && t.nodes[chains[c][j]].key == k;
    hide ChainOk, Unlinked;
    if c != b {
      UnlinkOtherChain(t, hash, chains, b, i, c);
      assert us[c][j] == chains[c][j];
    } else {
      assert us[c][if j < i then j else j - 1] == chains[b][j];
    }
  }
}

/** The map object. New nodes get the address the allocator answers with, which is a parameter. */
module HashMap {
  import opened Bytes
  import opened ChainModel

  datatype Option<D> = None | Some(value: D)

  class HashTable<K(==, !new), D(!new)> {
    const hash: K -> nat
    const heads: array<nat>
    var nodes: map<nat, Node<K, D>>
    ghost var chains: seq<seq<nat>>
    ghost var contents: map<K, D>

    function View(): Table<K, D>
      reads this, heads
    {
      Table(heads[..], nodes)
    }

    ghost predicate Valid()
      reads this, heads
    {
      heads.Length > 0 && StandsFor(View(), hash, chains, contents)
    }

    constructor (hash: K -> nat, numBuckets: nat)
      requires numBuckets > 0
      ensures Valid() && contents == map[] && this.hash == hash && fresh(heads)
    {
      this.hash := hash;
      heads := new nat[numBuckets](_ => 0);
      nodes := map[];
      chains, contents := seq(numBuckets, _ => []), map[];
      new;
      Empty(View(), hash, chains);
    }

    /** The bucket a key belongs in; the source masks with the number of buckets less one, a power of two. */
    function Bucket(key: K): (b: nat)
      reads this, heads
      requires heads.Length > 0
      ensures b < heads.Length
    {
      Rem(hash(key), heads.Length)
    }

    /** Walks the bucket to the node of the key, or to the end; `prev` is the node before it. */
    method Walk(key: K) returns (prev: nat, entry: nat, ghost i: nat)
      requires Valid()
      ensures Bucket(key) < |chains| && i <= |chains[Bucket(key)]| && entry == AddressAt(chains[Bucket(key)], i) && prev == Before(chains[Bucket(key)], i)
      ensures entry != 0 <==> i < |chains[Bucket(key)]|
      ensures entry == 0 ==> key !in contents
      ensures entry != 0 ==> entry in nodes && nodes[entry].key == key && key in contents && contents[key] == nodes[entry].data
      ensures prev != 0 ==> prev in nodes
    {
      ghost var t, b := View(), Bucket(key);
      ghost var chain := chains[b];
      assert ChainOk(t, hash, b, chain) && NodesIn(t, chain, contents);
      FoundIsMapped(t, hash, chains, contents, key);
      hide StandsFor, Rem;
      prev, entry, i := 0, heads[Bucket(key)], 0;
      AddressNotNull(t, hash, b, chain, i);
      while entry != 0 && nodes[entry].key != key
        invariant i <= |chain| && entry == AddressAt(chain, i) && prev == Before(chain, i)
        invariant entry != 0 <==> i < |chain|
        invariant entry != 0 ==> entry in nodes
        invariant prev != 0 ==> prev in nodes
        invariant forall j :: 0 <= j < i ==> chain[j] in nodes && nodes[chain[j]].key != key
        decreases |chain| - i
      {
        assert NodeOk(t, hash, b, chain, i);
        prev, entry := entry, nodes[entry].next;
        i := i + 1;
        AddressNotNull(t, hash, b, chain, i);
      }
    }

    method Lookup(key: K) returns (r: Option<D>)
      requires Valid()
      ensures r == if key in contents then Some(contents[key]) else None
    {
      var prev, entry, i := Walk(key);
      r := if entry != 0 then Some(nodes[entry].data) else None;
    }

    /** Adds a pair unless the key is there already; the pair that is there is never overwritten. */
    method Emplace(key: K, data: D, at: nat) returns (added: bool)
      requires Valid() && at != 0 && at !in nodes
      modifies this`nodes, this`chains, this`contents, heads
      ensures Valid() && added == (key !in old(contents))
      ensures contents == if added then old(contents)[key := data] else old(contents)
    {
      hide StandsFor, Rem;
      var prev, entry, i := Walk(key);
      if entry != 0 {
        return false;
      }
      ghost var t, b := View(), Bucket(key);
      AppendKeeps(t, hash, chains, contents, at, key, data);
      nodes := nodes[at := Node(key, data, 0)];
      if prev == 0 {
        heads[Bucket(key)] := at;
      } else {
        nodes := nodes[prev := nodes[prev].(next := at)];
      }
      chains, contents := chains[b := chains[b] + [at]], contents[key := data];
      assert View() == Appended(t, b, prev, at, key, data);
      added := true;
    }

    /** Removes the key's pair, if there is one, and no other. */
    method Remove(key: K)
      requires Valid()
      modifies this`nodes, this`chains, this`contents, heads
      ensures Valid() && contents == old(contents) - {key}
    {
      var prev, entry, i := Walk(key);
      if entry == 0 {
        assert contents == contents - {key};
        return;
      }
      ghost var t, b := View(), Bucket(key);
      UnlinkKeeps(t, hash, chains, contents, b, i, key);
      hide StandsFor, Rem;
      var next := nodes[entry].next;
      if prev == 0 {
        heads[Bucket(key)] := next;
      } else {
        nodes := nodes[prev := nodes[prev].(next := next)];
      }
      nodes := nodes - {entry};
      chains, contents := chains[b := chains[b][..i] + chains[b][i + 1..]], contents - {key};
      assert View() == Unlinked(t, b, prev, entry);
    }
  }
}
