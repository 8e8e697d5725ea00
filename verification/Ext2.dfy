/** The ext2 block map (drivers/formats/ext2.cpp:229-294): twelve direct block numbers in the inode, then a tree of
    pointer blocks one, two and three levels deep. `BlockTree` is the tree as a value and why it is one flat array;
    `Ext2` is the driver. */
module BlockTree {
  import opened Bytes

  const DIRECT: nat := 12

  /** A pointer block, by where it hangs in the tree: below the single, double and triple indirect pointers. */
  datatype Node = Single | Double | DoubleChild(j: nat) | Triple | TripleChild(j: nat) | TripleGrandchild(j: nat, k: nat)

  /** Where block number `n` of a file is kept. */
  datatype Place = InInode(k: nat) | InBlock(node: Node, index: nat)

  /** The disk and the fifteen block numbers of an inode; `p` pointers fit in a block. */
  datatype Tree = Tree(disk: seq<Byte>, block: seq<nat>, p: nat)

  function PlaceOf(n: nat, p: nat): Place
    requires p > 0
  {
    if n < DIRECT then InInode(n)
    else if n - DIRECT < p then InBlock(Single, n - DIRECT)
    else
      var m := n - DIRECT - p;
      if m < p * p then InBlock(DoubleChild(Quot(m, p)), Rem(m, p))
      else
        var r := m - p * p;
        InBlock(TripleGrandchild(Quot(Quot(r, p), p), Rem(Quot(r, p), p)), Rem(r, p))
  }

  /** How many blocks a file can have. */
  function Capacity(p: nat): nat {
    DIRECT + p + p * p + p * p * p
  }

  lemma QuotBelow(x: nat, p: nat, n: nat)
    requires p > 0 && x < n * p
    ensures Quot(x, p) < n
  {
  }

  /** Every block number has a place, inside a block of `p` pointers at every level. */
  lemma PlaceInRange(n: nat, p: nat)
    requires p > 0 && n < Capacity(p)
    ensures match PlaceOf(n, p)
      case InInode(k) => k < DIRECT
      case InBlock(node, index) => index < p && NodeInRange(node, p)
  {
    if n >= DIRECT + p {
      var m := n - DIRECT - p;
      if m < p * p {
        QuotBelow(m, p, p);
      } else {
        var r := m - p * p;
        QuotBelow(r, p, p * p);
        QuotBelow(Quot(r, p), p, p);
      }
    }
  }

  predicate NodeInRange(node: Node, p: nat) {
    match node
    case DoubleChild(j) => j < p
    case TripleChild(j) => j < p
    case TripleGrandchild(j, k) => j < p && k < p
    case _ => true
  }

  /** No two block numbers share a place. */
  lemma PlacesDistinct(n: nat, m: nat, p: nat)
    requires p > 0 && PlaceOf(n, p) == PlaceOf(m, p)
    ensures n == m
  {
  }

  /** The block number kept at a place. */
  function NumberAt(place: Place, p: nat): nat {
    match place
    case InInode(k) => k
    case InBlock(Single, i) => 12 + i
    case InBlock(DoubleChild(j), i) => 12 + p + j * p + i
    case InBlock(TripleGrandchild(j, k), i) => 12 + p + p * p + (j * p + k) * p + i
    case _ => 0
  }

  /** Places are filled in the order of block numbers: the inode, the single indirect block, the children of the double one
      in turn, the grandchildren of the triple one in turn. */
  lemma PlaceIsInOrder(n: nat, p: nat)
    requires p > 0
    ensures NumberAt(PlaceOf(n, p), p) == n
    ensures match PlaceOf(n, p)
      case InInode(k) => k < 12
      case InBlock(node, i) => i < p && match node
        case Single => true
        case DoubleChild(j) => j < p
        case TripleGrandchild(_, k) => k < p
        case _ => false
  {
    if n >= DIRECT + p {
      var m := n - DIRECT - p;
      if m < p * p {
        QuotBelow(m, p, p);
      }
    }
  }

  /** And nowhere else. */
  lemma NumberHasPlace(place: Place, p: nat)
    requires p > 0
    requires match place
      case InInode(k) => k < 12
      case InBlock(Single, i) => i < p
      case InBlock(DoubleChild(j), i) => i < p && j < p
      case InBlock(TripleGrandchild(j, k), i) => i < p && k < p
      case _ => false
    ensures PlaceOf(NumberAt(place, p), p) == place
  {
    match place {
      case InInode(_) =>
      case InBlock(Single, _) =>
      case InBlock(DoubleChild(j), i) => DoublePlace(p, j, i);
      case InBlock(TripleGrandchild(j, k), i) => TriplePlace(p, j, k, i);
    }
  }

  /** The last number below the capacity is that of the last word of the last grandchild. */
  lemma LastNumber(p: nat)
    requires p > 0
    ensures NumberAt(InBlock(TripleGrandchild(p - 1, p - 1), p - 1), p) + 1 == Capacity(p)
  {
    MulDistrib(p, 1, p);
    assert (p - 1) * p + (p - 1) == p * p - 1;
    MulDistrib(p * p, 1, p);
  }

  lemma DoublePlace(p: nat, j: nat, i: nat)
    requires i < p && j < p
    ensures PlaceOf(12 + p + j * p + i, p) == InBlock(DoubleChild(j), i)
  {
    hide Quot, Rem;
    var m := j * p + i;
    MulMono(j + 1, p, p);
    MulDistrib(j, 1, p);
    assert m < p * p;
    QuotRemUnique(m, p, j, i);
  }

  lemma TriplePlace(p: nat, j: nat, k: nat, i: nat)
    requires i < p && k < p
    ensures PlaceOf(12 + p + p * p + (j * p + k) * p + i, p) == InBlock(TripleGrandchild(j, k), i)
  {
    hide Quot, Rem;
    var q := j * p + k;
    var r := q * p + i;
    assert 12 + p + p * p + (j * p + k) * p + i == 12 + p + p * p + r;
    QuotRemUnique(r, p, q, i);
    QuotRemUnique(q, p, j, k);
  }

  // ---- reading and writing a place ----

  /** Word `index` of a block is on the disk. */
  predicate HasWord(t: Tree, b: nat, index: nat) {
    Scale(b, 4 * t.p) + 4 * index + 4 <= |t.disk|
  }

  function ReadWord(t: Tree, b: nat, index: nat): nat
    requires HasWord(t, b, index)
  {
    Word32(t.disk, Scale(b, 4 * t.p) + 4 * index)
  }

  function WriteWord(t: Tree, b: nat, index: nat, v: nat): (r: Tree)
    requires HasWord(t, b, index)
    ensures |r.disk| == |t.disk| && r.block == t.block && r.p == t.p
  {
    t.(disk := Splice(t.disk, Scale(b, 4 * t.p) + 4 * index, Bytes32(v)))
  }

  /** Words are independent of each other. */
  lemma WordsApart(t: Tree, b: nat, i: nat, c: nat, j: nat, v: nat)
    requires i < t.p && j < t.p && v < 0x1_0000_0000 && HasWord(t, b, i) && HasWord(t, c, j)
    ensures HasWord(WriteWord(t, b, i, v), c, j)
    ensures ReadWord(WriteWord(t, b, i, v), c, j) == if (b, i) == (c, j) then v else ReadWord(t, c, j)
  {
    hide Bytes32, Scale;
    if b == c {
      Word32Of(t.disk, Scale(b, 4 * t.p) + 4 * i, v);
    } else {
      ScaleMono(if b < c then b else c, if b < c then c else b, 4 * t.p);
    }
  }

  /** The block a node names, through the nodes above it. */
  function BlockOf(t: Tree, node: Node): nat
    requires Above(t, node)
  {
    match node
    case Single => t.block[DIRECT]
    case Double => t.block[DIRECT + 1]
    case Triple => t.block[DIRECT + 2]
    case DoubleChild(j) => ReadWord(t, t.block[DIRECT + 1], j)
    case TripleChild(j) => ReadWord(t, t.block[DIRECT + 2], j)
    case TripleGrandchild(j, k) => ReadWord(t, ReadWord(t, t.block[DIRECT + 2], j), k)
  }

  /** The words that lead to a node are on the disk. */
  predicate Above(t: Tree, node: Node) {
    && |t.block| == DIRECT + 3
    && match node
       case DoubleChild(j) => HasWord(t, t.block[DIRECT + 1], j)
       case TripleChild(j) => HasWord(t, t.block[DIRECT + 2], j)
       case TripleGrandchild(j, k) =>
         HasWord(t, t.block[DIRECT + 2], j) && HasWord(t, ReadWord(t, t.block[DIRECT + 2], j), k)
       case _ => true
  }

  function Parent(node: Node): Node {
    match node
    case DoubleChild(_) => Double
    case TripleChild(_) => Triple
    case TripleGrandchild(j, _) => TripleChild(j)
    case _ => node
  }

  /** The pointer blocks that a file has: whole blocks of the disk, different ones, each hanging from another. */
  ghost predicate Ok(t: Tree, nodes: set<Node>) {
    && t.p > 0 && |t.block| == DIRECT + 3
    && (forall a :: a in nodes ==> NodeInRange(a, t.p) && Parent(a) in nodes)
    && (forall a :: a in nodes ==> Above(t, a) && HasWord(t, BlockOf(t, a), t.p - 1))
    && (forall a, b :: a in nodes && b in nodes && a != b ==> BlockOf(t, a) != BlockOf(t, b))
  }

  /** Block number `n` of the file has a place in the pointer blocks it has. */
  ghost predicate Reaches(t: Tree, nodes: set<Node>, n: nat)
    requires t.p > 0
  {
    n < Capacity(t.p) && (PlaceOf(n, t.p).InBlock? ==> PlaceOf(n, t.p).node in nodes)
  }

  function Get(t: Tree, place: Place): nat
    requires if place.InInode? then place.k < |t.block| else Above(t, place.node) && HasWord(t, BlockOf(t, place.node), place.index)
  {
    match place
    case InInode(k) => t.block[k]
    case InBlock(node, index) => ReadWord(t, BlockOf(t, node), index)
  }

  function Set(t: Tree, place: Place, v: nat): Tree
    requires if place.InInode? then place.k < |t.block| else Above(t, place.node) && HasWord(t, BlockOf(t, place.node), place.index)
  {
    match place
    case InInode(k) => t.(block := t.block[k := v])
    case InBlock(node, index) => WriteWord(t, BlockOf(t, node), index, v)
  }

  lemma PlaceThere(t: Tree, nodes: set<Node>, n: nat)
    requires Ok(t, nodes) && Reaches(t, nodes, n)
    ensures var place := PlaceOf(n, t.p);
      if place.InInode? then place.k < DIRECT
      else Above(t, place.node) && place.index < t.p && HasWord(t, BlockOf(t, place.node), place.index)
  {
  }

  /** In a file with all its pointer blocks, every block number below the capacity has a place. */
  lemma FullTreeReaches(t: Tree, nodes: set<Node>, n: nat)
    requires t.p > 0 && n < Capacity(t.p) && forall a :: NodeInRange(a, t.p) ==> a in nodes
    ensures Reaches(t, nodes, n)
  {
    PlaceInRange(n, t.p);
  }

  /** Byte address of word `i` of block `b`. */
  function WordAt(t: Tree, b: nat, i: nat): nat {
    b * (4 * t.p) + 4 * i
  }

  /** What a file's block number is, read off the inode and the bytes of the disk: words 12, 13 and 14 of the inode name the
      single, double and triple indirect blocks. */
  lemma GetIs(t: Tree, n: nat, j: nat, k: nat, i: nat)
    requires t.p > 0 && Located(t, n) && |t.block| == 15 && i < t.p && j < t.p && k < t.p
    ensures n < 12 ==> Get(t, PlaceOf(n, t.p)) == t.block[n]
    ensures n == 12 + i ==>
      var a := WordAt(t, t.block[12], i);
      a + 4 <= |t.disk| && Get(t, PlaceOf(n, t.p)) == Word32(t.disk, a)
    ensures n == 12 + t.p + j * t.p + i ==>
      var a := WordAt(t, t.block[13], j);
      && a + 4 <= |t.disk|
      && var b := WordAt(t, Word32(t.disk, a), i);
      b + 4 <= |t.disk| && Get(t, PlaceOf(n, t.p)) == Word32(t.disk, b)
    ensures n == 12 + t.p + t.p * t.p + (j * t.p + k) * t.p + i ==>
      var a := WordAt(t, t.block[14], j);
      && a + 4 <= |t.disk|
      && var b := WordAt(t, Word32(t.disk, a), k);
      && b + 4 <= |t.disk|
      && var c := WordAt(t, Word32(t.disk, b), i);
      c + 4 <= |t.disk| && Get(t, PlaceOf(n, t.p)) == Word32(t.disk, c)
  {
    hide PlaceOf, Word32, Scale;
    if n < 12 {
      NumberHasPlace(InInode(n), t.p);
    }
    if n == 12 + i {
      NumberHasPlace(InBlock(Single, i), t.p);
      WordIs(t, t.block[12], i);
    }
    if n == 12 + t.p + j * t.p + i {
      NumberHasPlace(InBlock(DoubleChild(j), i), t.p);
      WordIs(t, t.block[13], j);
      WordIs(t, ReadWord(t, t.block[13], j), i);
    }
    if n == 12 + t.p + t.p * t.p + (j * t.p + k) * t.p + i {
      NumberHasPlace(InBlock(TripleGrandchild(j, k), i), t.p);
      WordIs(t, t.block[14], j);
      WordIs(t, ReadWord(t, t.block[14], j), k);
      WordIs(t, ReadWord(t, ReadWord(t, t.block[14], j), k), i);
    }
  }

  lemma WordIs(t: Tree, b: nat, i: nat)
    requires HasWord(t, b, i)
    ensures WordAt(t, b, i) + 4 <= |t.disk| && ReadWord(t, b, i) == Word32(t.disk, WordAt(t, b, i))
  {
    ScaleIsProduct(b, 4 * t.p);
  }

  /** Setting an entry changes no other byte of the disk, and at most one word of the inode. */
  lemma SetChangesOnly(t: Tree, n: nat, v: nat, q: nat)
    requires Located(t, n) && q < |t.disk|
    ensures var u, place := Set(t, PlaceOf(n, t.p), v), PlaceOf(n, t.p);
      && |u.disk| == |t.disk| && u.p == t.p
      && (u.disk[q] != t.disk[q] ==> place.InBlock? && WordAt(t, BlockOf(t, place.node), place.index) <= q < WordAt(t, BlockOf(t, place.node), place.index) + 4)
      && (if place.InInode? then u.block == t.block[place.k := v] else u.block == t.block)
  {
    var place := PlaceOf(n, t.p);
    hide PlaceOf, Word32, Scale, BlockOf, Above;
    if place.InBlock? {
      ScaleIsProduct(BlockOf(t, place.node), 4 * t.p);
    }
  }

  predicate Leaf(node: Node) {
    node.Single? || node.DoubleChild? || node.TripleGrandchild?
  }

  /** Writing a word of a pointer block leaves every other word of every pointer block as it was. */
  lemma OtherWords(t: Tree, nodes: set<Node>, node: Node, index: nat, v: nat, a: Node, j: nat)
    requires Ok(t, nodes) && node in nodes && index < t.p && v < 0x1_0000_0000 && a in nodes && j < t.p
    ensures HasWord(t, BlockOf(t, node), index) && HasWord(t, BlockOf(t, a), j)
    ensures var u := WriteWord(t, BlockOf(t, node), index, v);
      ReadWord(u, BlockOf(t, a), j) == if a == node && j == index then v else ReadWord(t, BlockOf(t, a), j)
  {
    assert a != node ==> BlockOf(t, a) != BlockOf(t, node);
    WordsApart(t, BlockOf(t, node), index, BlockOf(t, a), j, v);
  }

  /** Writing to a leaf moves no pointer block. */
  lemma NodesStay(t: Tree, nodes: set<Node>, node: Node, index: nat, v: nat, a: Node)
    requires Ok(t, nodes) && node in nodes && Leaf(node) && index < t.p && v < 0x1_0000_0000 && a in nodes
    ensures HasWord(t, BlockOf(t, node), index)
    ensures var u := WriteWord(t, BlockOf(t, node), index, v); Above(u, a) && BlockOf(u, a) == BlockOf(t, a)
  {
    var u := WriteWord(t, BlockOf(t, node), index, v);
    if Parent(a) != a {
      var up := Parent(a);
      if Parent(up) != up {
        OtherWords(t, nodes, node, index, v, Parent(up), up.j);
      }
      OtherWords(t, nodes, node, index, v, up, if a.TripleGrandchild? then a.k else a.j);
    }
  }

  /** The tree is a flat array: a write at `n` is read back at `n`, every other number keeps its value, and the pointer
      blocks stay where they are. */
  lemma SetThenGet(t: Tree, nodes: set<Node>, n: nat, v: nat, m: nat)
    requires Ok(t, nodes) && Reaches(t, nodes, n) && Reaches(t, nodes, m) && v < 0x1_0000_0000
    ensures var place := PlaceOf(n, t.p);
      if place.InInode? then place.k < |t.block| else Above(t, place.node) && HasWord(t, BlockOf(t, place.node), place.index)
    ensures var u := Set(t, PlaceOf(n, t.p), v);
      && Ok(u, nodes) && Reaches(u, nodes, m)
      && Located(u, m) && Located(t, m)
      && Get(u, PlaceOf(m, t.p)) == if m == n then v else Get(t, PlaceOf(m, t.p))
  {
    assert t.p > 0 && |t.block| == DIRECT + 3;
    hide Ok;
    PlaceThere(t, nodes, n);
    PlaceThere(t, nodes, m);
    SetKeepsOk(t, nodes, n, v);
    var u := Set(t, PlaceOf(n, t.p), v);
    PlaceThere(u, nodes, m);
    if m != n {
      if PlaceOf(n, t.p) == PlaceOf(m, t.p) {
        PlacesDistinct(n, m, t.p);
      }
    }
    if PlaceOf(n, t.p).InBlock? && PlaceOf(m, t.p).InBlock? {
      LeafPlace(n, t.p);
      var place, other := PlaceOf(n, t.p), PlaceOf(m, t.p);
      NodesStay(t, nodes, place.node, place.index, v, other.node);
      OtherWords(t, nodes, place.node, place.index, v, other.node, other.index);
    }
  }

  /** `u` is `t` with the entry at `n` changed to `v`, as far as the file can tell. */
  ghost predicate UpdatedAt(t: Tree, u: Tree, nodes: set<Node>, n: nat, v: nat)
    requires t.p > 0 && u.p > 0
  {
    forall m :: Reaches(t, nodes, m) ==>
      && Reaches(u, nodes, m) && Located(u, m) && Located(t, m)
      && Get(u, PlaceOf(m, u.p)) == if m == n then v else Get(t, PlaceOf(m, t.p))
  }

  lemma SetIsUpdate(t: Tree, nodes: set<Node>, n: nat, v: nat)
    requires Ok(t, nodes) && Reaches(t, nodes, n) && v < 0x1_0000_0000
    ensures Located(t, n)
    ensures Ok(Set(t, PlaceOf(n, t.p), v), nodes) && UpdatedAt(t, Set(t, PlaceOf(n, t.p), v), nodes, n, v)
  {
    hide Ok, Reaches, Above, HasWord, BlockOf;
    SetThenGet(t, nodes, n, v, n);
    forall m | Reaches(t, nodes, m)
      ensures var u := Set(t, PlaceOf(n, t.p), v);
        && Reaches(u, nodes, m) && Located(u, m) && Located(t, m)
        && Get(u, PlaceOf(m, u.p)) == if m == n then v else Get(t, PlaceOf(m, t.p))
    {
      SetThenGet(t, nodes, n, v, m);
    }
  }

  predicate Located(t: Tree, m: nat) {
    t.p > 0 &&
    var place := PlaceOf(m, t.p);
    if place.InInode? then place.k < |t.block| else Above(t, place.node) && HasWord(t, BlockOf(t, place.node), place.index)
  }

  lemma LeafPlace(n: nat, p: nat)
    requires p > 0 && PlaceOf(n, p).InBlock?
    ensures Leaf(PlaceOf(n, p).node)
  {
  }

  lemma SetKeepsOk(t: Tree, nodes: set<Node>, n: nat, v: nat)
    requires Ok(t, nodes) && Reaches(t, nodes, n) && v < 0x1_0000_0000
    requires Located(t, n)
    ensures Ok(Set(t, PlaceOf(n, t.p), v), nodes)
  {
    hide PlaceOf, Above, BlockOf, Splice, Scale;
    var place := PlaceOf(n, t.p);
    var u := Set(t, place, v);
    PlaceThere(t, nodes, n);
    if place.InBlock? {
      LeafPlace(n, t.p);
    }
    forall a | a in nodes ensures Above(u, a) && BlockOf(u, a) == BlockOf(t, a) {
      if place.InBlock? {
        NodesStay(t, nodes, place.node, place.index, v, a);
      } else {
        DirectMovesNothing(t, place.k, v, a);
      }
    }
    SameNodesOk(t, u, nodes);
  }

  lemma DirectMovesNothing(t: Tree, k: nat, v: nat, a: Node)
    requires k < DIRECT && Above(t, a)
    ensures var u := t.(block := t.block[k := v]); Above(u, a) && BlockOf(u, a) == BlockOf(t, a)
  {
  }

  lemma SameNodesOk(t: Tree, u: Tree, nodes: set<Node>)
    requires Ok(t, nodes) && |u.disk| == |t.disk| && u.p == t.p && |u.block| == |t.block|
    requires forall a :: a in nodes ==> Above(t, a) && Above(u, a) && BlockOf(u, a) == BlockOf(t, a)
    ensures Ok(u, nodes)
  {
  }
}

/** The driver's view: the inode's block numbers and the disk, changed in place. */
module Ext2 {
  import opened Bytes
  import opened BlockTree

  class Ext2Fs {
    const ptrsPerBlock: nat
    var disk: seq<Byte>
    const block: array<nat>    // the inode's block numbers

    predicate Valid() {
      0 < ptrsPerBlock < 0x1_0000 && block.Length == DIRECT + 3
    }

    ghost function View(): Tree
      reads this, block
    {
      Tree(disk, block[..], ptrsPerBlock)
    }

    ghost predicate Maps(nodes: set<Node>)
      reads this, block
    {
      Valid() && Ok(View(), nodes)
    }

    method Read32(b: nat, offset: nat) returns (v: nat)
      requires Valid() && offset % 4 == 0 && HasWord(View(), b, offset / 4)
      ensures v == ReadWord(View(), b, offset / 4)
    {
      v := Word32(disk, Scale(b, 4 * ptrsPerBlock) + offset);
    }

    method Write32(b: nat, offset: nat, v: nat)
      requires Valid() && offset % 4 == 0 && HasWord(View(), b, offset / 4)
      modifies this`disk
      ensures View() == WriteWord(old(View()), b, offset / 4, v)
    {
      disk := Splice(disk, Scale(b, 4 * ptrsPerBlock) + offset, Bytes32(v));
    }

    /** The pointer block and byte offset of block number `n`, found by reading the pointer blocks above. */
    method Locate(n: nat, ghost nodes: set<Node>) returns (b: nat, offset: nat)
      requires Maps(nodes) && Reaches(View(), nodes, n) && n >= DIRECT
      ensures var place := PlaceOf(n, ptrsPerBlock);
        place.InBlock? && Above(View(), place.node) && b == BlockOf(View(), place.node) && offset == place.index * 4
    {
      hide Ok, HasWord, ReadWord, Quot, Rem, Reaches;
      PlaceThere(View(), nodes, n);
      var p := ptrsPerBlock;
      var m := n - DIRECT;
      if m < p {
        return block[DIRECT], m * 4;
      }
      m := m - p;
      if m < p * p {
        b := Read32(block[DIRECT + 1], Quot(m, p) * 4);
        return b, Rem(m, p) * 4;
      }
      m := m - p * p;
      var nds := Quot(m, p);
      b := Read32(block[DIRECT + 2], Quot(nds, p) * 4);
      b := Read32(b, Rem(nds, p) * 4);
      offset := Rem(m, p) * 4;
    }

    method GetBlockN(n: nat, ghost nodes: set<Node>) returns (v: nat)
      requires Maps(nodes) && Reaches(View(), nodes, n)
      ensures Located(View(), n) && v == Get(View(), PlaceOf(n, ptrsPerBlock))
    {
      PlaceThere(View(), nodes, n);
      if n < DIRECT {
        return block[n];
      }
      var b, offset := Locate(n, nodes);
      v := Read32(b, offset);
    }

    /** What was set is what `GetBlockN` will return, and every other block number it could return is the same. */
    method SetBlockN(n: nat, blk: nat, ghost nodes: set<Node>)
      requires Maps(nodes) && Reaches(View(), nodes, n) && blk < 0x1_0000_0000
      modifies this`disk, block
      ensures Maps(nodes) && Located(old(View()), n) && View() == Set(old(View()), PlaceOf(n, ptrsPerBlock), blk)
      ensures UpdatedAt(old(View()), View(), nodes, n, blk)
    {
      hide Ok, Reaches, Above, HasWord, BlockOf, UpdatedAt;
      ghost var t := View();
      PlaceThere(t, nodes, n);
      SetIsUpdate(t, nodes, n, blk);
      if n < DIRECT {
        block[n] := blk;
      } else {
        var b, offset := Locate(n, nodes);
        Write32(b, offset, blk);
      }
      assert View() == Set(t, PlaceOf(n, t.p), blk);
    }
  }
}

/** Allocation of blocks (drivers/formats/ext2.cpp:99-112, 197-222): a bitmap and a count of free blocks per group. */
module Bitmaps {

  /** `1 << k` */
  function Mask(k: nat): bv8
    requires k < 8
  {
    match k
    case 0 => 1
    case 1 => 2
    case 2 => 4
    case 3 => 8
    case 4 => 16
    case 5 => 32
    case 6 => 64
    case _ => 128
  }

  predicate Bit(s: seq<bv8>, i: nat)
    requires i < 8 * |s|
  {
    BitIn(s[i / 8], i % 8)
  }

  predicate BitIn(b: bv8, k: nat)
    requires k < 8
  {
    b & Mask(k) != 0
  }

  /** Bit `i` of a bitmap is bit `i % 8` of its byte `i / 8`, the lowest first. */
  lemma BitIs(s: seq<bv8>, i: nat)
    requires i < 8 * |s|
    ensures Bit(s, i) <==> (s[i / 8] >> (i % 8)) & 1 == 1
  {
    ShiftedBit(s[i / 8], i % 8);
  }

  lemma ShiftedBit(b: bv8, k: nat)
    requires k < 8
    ensures BitIn(b, k) <==> (b >> k) & 1 == 1
  {
    match k {
      case 0 =>
      case 1 =>
      case 2 =>
      case 3 =>
      case 4 =>
      case 5 =>
      case 6 =>
      case _ =>
    }
  }

  function WithBit(b: bv8, k: nat): bv8
    requires k < 8
  {
    b | Mask(k)
  }

  function Mark(s: seq<bv8>, i: nat): (t: seq<bv8>)
    requires i < 8 * |s|
    ensures |t| == |s|
  {
    s[i / 8 := WithBit(s[i / 8], i % 8)]
  }

  lemma MarkSets(s: seq<bv8>, i: nat, j: nat)
    requires i < 8 * |s| && j < 8 * |s|
    ensures Bit(Mark(s, i), j) <==> Bit(s, j) || j == i
  {
  }

  /** How many of the first `bits` bits are clear. */
  function Clear(s: seq<bv8>, bits: nat): nat
    requires bits <= 8 * |s|
  {
    if bits == 0 then 0 else Clear(s, bits - 1) + if Bit(s, bits - 1) then 0 else 1
  }

  lemma {:induction false} ClearAfterMark(s: seq<bv8>, i: nat, bits: nat)
    requires bits <= 8 * |s| && i < 8 * |s| && !Bit(s, i)
    ensures Clear(Mark(s, i), bits) == Clear(s, bits) - if i < bits then 1 else 0
  {
    hide Mark, Bit;
    if bits > 0 {
      ClearAfterMark(s, i, bits - 1);
      MarkSets(s, i, bits - 1);
    }
  }

  lemma {:induction false} NoneClear(s: seq<bv8>, bits: nat)
    requires bits <= 8 * |s|
    ensures Clear(s, bits) == 0 <==> forall j :: 0 <= j < bits ==> Bit(s, j)
  {
    if bits > 0 {
      NoneClear(s, bits - 1);
    }
  }

  /** Exactly one bit, the first that was clear, has been set. */
  ghost predicate Marked(s: seq<bv8>, t: seq<bv8>, bits: nat, i: nat) {
    && i < bits <= 8 * |s| && |t| == |s| && !Bit(s, i)
    && (forall j :: 0 <= j < i ==> Bit(s, j))
    && (forall j :: 0 <= j < 8 * |s| ==> (Bit(t, j) <==> Bit(s, j) || j == i))
    && Clear(t, bits) + 1 == Clear(s, bits)
  }

  lemma MarkedMeans(s: seq<bv8>, t: seq<bv8>, bits: nat, i: nat)
    requires Marked(s, t, bits, i)
    ensures |t| == |s| && bits <= 8 * |s| && Clear(t, bits) + 1 == Clear(s, bits)
  {
  }

  datatype Found = Nothing | At(bit: nat)

  method FindFreeAndMark(arr: array<bv8>, bits: nat) returns (r: Found)
    requires bits <= 8 * arr.Length
    modifies arr
    ensures match r
      case At(i) => Marked(old(arr[..]), arr[..], bits, i)
      case Nothing => arr[..] == old(arr[..]) && Clear(arr[..], bits) == 0
  {
    hide BitIn, WithBit;
    ghost var s := arr[..];
    for i := 0 to bits
      invariant arr[..] == s && forall j :: 0 <= j < i ==> Bit(s, j)
    {
      if !BitIn(arr[i / 8], i % 8) {
        forall j: nat | j < 8 * |s| ensures Bit(Mark(s, i), j) <==> Bit(s, j) || j == i {
          MarkSets(s, i, j);
        }
        ClearAfterMark(s, i, bits);
        arr[i / 8] := WithBit(arr[i / 8], i % 8);
        assert arr[..] == Mark(s, i);
        return At(i);
      }
    }
    NoneClear(s, bits);
    r := Nothing;
  }

  /** The clear bits of all groups. */
  function AllClear(maps: seq<seq<bv8>>, bits: nat): nat
    requires forall g :: 0 <= g < |maps| ==> bits <= 8 * |maps[g]|
  {
    if maps == [] then 0 else AllClear(maps[..|maps| - 1], bits) + Clear(maps[|maps| - 1], bits)
  }

  lemma {:induction false} AllClearUpdate(maps: seq<seq<bv8>>, bits: nat, g: nat, t: seq<bv8>)
    requires forall h :: 0 <= h < |maps| ==> bits <= 8 * |maps[h]|
    requires g < |maps| && bits <= 8 * |t|
    ensures AllClear(maps[g := t], bits) == AllClear(maps, bits) - Clear(maps[g], bits) + Clear(t, bits)
  {
    var n := |maps| - 1;
    if g < n {
      AllClearUpdate(maps[..n], bits, g, t);
      assert maps[g := t][..n] == maps[..n][g := t];
    } else {
      assert maps[g := t][..n] == maps[..n];
    }
  }

  lemma {:induction false} AllClearZero(maps: seq<seq<bv8>>, bits: nat)
    requires forall g :: 0 <= g < |maps| ==> bits <= 8 * |maps[g]|
    ensures AllClear(maps, bits) == 0 <==> forall g :: 0 <= g < |maps| ==> Clear(maps[g], bits) == 0
  {
    if maps != [] {
      AllClearZero(maps[..|maps| - 1], bits);
    }
  }

  /** The block that a bit of a group's bitmap stands for. */
  function BlockOfBit(firstDataBlock: nat, blocksPerGroup: nat, group: nat, bit: nat): nat {
    firstDataBlock + group * blocksPerGroup + bit
  }

  /** The very first bit is clear. */
  ghost predicate FirstClear(maps: seq<seq<bv8>>, bits: nat) {
    |maps| > 0 && 0 < bits <= 8 * |maps[0]| && !Bit(maps[0], 0)
  }

  /** What is returned is 0 exactly for the first bit of the first group, which is taken exactly when it is clear. */
  lemma FirstIsZero(maps: seq<seq<bv8>>, us: seq<seq<bv8>>, bits: nat, g: nat, bit: nat, block: nat, firstDataBlock: nat)
    requires forall h :: 0 <= h < |maps| ==> bits <= 8 * |maps[h]|
    requires g < |maps| == |us| && Marked(maps[g], us[g], bits, bit) && forall h :: 0 <= h < g ==> Clear(maps[h], bits) == 0
    requires block == bit + g * bits
    ensures block == 0 <==> FirstClear(maps, bits)
    ensures block + firstDataBlock == BlockOfBit(firstDataBlock, bits, g, bit)
  {
    hide BitIn, Clear;
    assert bits <= 8 * |maps[g]|;
    if g > 0 {
      NoneClear(maps[0], bits);
      AtLeastOne(g, bits);
    }
  }

  lemma AtLeastOne(g: nat, bits: nat)
    requires g > 0
    ensures g * bits >= bits
  {
  }

  lemma NoneIsZero(maps: seq<seq<bv8>>, bits: nat)
    requires forall g :: 0 <= g < |maps| ==> bits <= 8 * |maps[g]| && Clear(maps[g], bits) == 0
    ensures !FirstClear(maps, bits)
  {
    if maps != [] {
      NoneClear(maps[0], bits);
    }
  }

  /** The bitmaps on the disk, and the counts kept beside them. */
  class Groups {
    var maps: seq<seq<bv8>>
    var free: seq<int>
    var total: int
    const blocksPerGroup: nat
    const firstDataBlock: nat

    ghost predicate Sizes()
      reads this
    {
      |free| == |maps| && forall g :: 0 <= g < |maps| ==> blocksPerGroup <= 8 * |maps[g]|
    }

    /** Every count is the number of clear bits it stands for. */
    ghost predicate Valid()
      reads this
    {
      && Sizes()
      && (forall g :: 0 <= g < |maps| ==> free[g] == Clear(maps[g], blocksPerGroup))
      && total == AllClear(maps, blocksPerGroup)
    }

    /** Takes the first free block of the first group that has one. What is returned leaves `firstDataBlock` out: it is
        the block whose bit was set exactly when that is 0. And it is 0 for none, but also for the first bit of all. */
    method AllocateBlock() returns (block: nat, ghost group: nat, ghost bit: nat)
      requires Valid()
      modifies this
      ensures Valid()
      ensures old(total) == 0 ==> block == 0 && maps == old(maps)
      ensures old(total) != 0 ==>
        && total == old(total) - 1 && group < |old(maps)| == |maps|
        && (block == BlockOfBit(firstDataBlock, blocksPerGroup, group, bit) <==> firstDataBlock == 0)
        && block + firstDataBlock == BlockOfBit(firstDataBlock, blocksPerGroup, group, bit)
        && (forall g :: 0 <= g < group ==> Clear(old(maps)[g], blocksPerGroup) == 0)
        && maps == old(maps)[group := maps[group]] && Marked(old(maps)[group], maps[group], blocksPerGroup, bit)
      ensures (block == 0 <==> old(total) == 0) <==> !FirstClear(old(maps), blocksPerGroup)
    {
      hide Clear, Marked, FirstClear, AllClear, BlockOfBit;
      ghost var was := maps;
      AllClearZero(maps, blocksPerGroup);
      block, group, bit := 0, 0, 0;
      for i := 0 to |maps|
        invariant maps == was && free == old(free) && total == old(total)
        invariant forall g :: 0 <= g < i ==> Clear(maps[g], blocksPerGroup) == 0
      {
        if free[i] != 0 {
          var taken := TakeFrom(i);
          block := taken + i * blocksPerGroup;
          FirstIsZero(was, maps, blocksPerGroup, i, taken, block, firstDataBlock);
          return block, i, taken;
        }
      }
      NoneIsZero(was, blocksPerGroup);
    }

    /** Takes the first free block of group `g`, which by its count has one. */
    method TakeFrom(g: nat) returns (bit: nat)
      requires Valid() && g < |maps| && free[g] != 0
      modifies this
      ensures Valid() && total == old(total) - 1 && |maps| == |old(maps)|
      ensures maps == old(maps)[g := maps[g]] && Marked(old(maps)[g], maps[g], blocksPerGroup, bit)
    {
      hide Clear, Marked, AllClear;
      var was := maps[g];
      var temp := new bv8[|was|](k requires 0 <= k < |was| => was[k]);
      assert temp[..] == was;
      var r := FindFreeAndMark(temp, blocksPerGroup);
      bit := r.bit;
      MarkedMeans(was, temp[..], blocksPerGroup, bit);
      AllClearUpdate(maps, blocksPerGroup, g, temp[..]);
      maps, free, total := maps[g := temp[..]], free[g := free[g] - 1], total - 1;
    }
  }
}
