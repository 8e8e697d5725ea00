/** The bytes of a file: its clusters or blocks, one after the other. */
module FileBytes {
  import opened Bytes
  import opened Chunks

  /** Where the clusters are on the disk: number `first` is at `base`. */
  datatype Area = Area(base: nat, first: nat, size: nat) {
    function At(c: nat): nat
      requires first <= c
    {
      base + Scale(c - first, size)
    }
  }

  ghost predicate Stored(a: Area, disk: seq<Byte>, s: seq<nat>) {
    && a.size > 0
    && (forall k :: 0 <= k < |s| ==> a.first <= s[k] && a.At(s[k]) + a.size <= |disk|)
    && (forall k, l :: 0 <= k < l < |s| ==> s[k] != s[l])
  }

  ghost function Content(a: Area, disk: seq<Byte>, s: seq<nat>): (r: seq<Byte>)
    requires Stored(a, disk, s)
    ensures |r| == Scale(|s|, a.size)
  {
    seq(Scale(|s|, a.size), p requires 0 <= p < Scale(|s|, a.size) => ByteAt(a, disk, s, p))
  }

  /** Byte `p` of the file is byte `p % size` of its cluster number `p / size`. */
  ghost function ByteAt(a: Area, disk: seq<Byte>, s: seq<nat>, p: nat): Byte
    requires Stored(a, disk, s) && p < Scale(|s|, a.size)
  {
    ClusterOf(p, |s|, a.size);
    disk[a.At(s[Quot(p, a.size)]) + Rem(p, a.size)]
  }

  lemma ClusterOf(p: nat, n: nat, size: nat)
    requires size > 0 && p < Scale(n, size)
    ensures Quot(p, size) < n && p == Scale(Quot(p, size), size) + Rem(p, size)
  {
    ScaleIsProduct(n, size);
    ScaleIsProduct(Quot(p, size), size);
    if Quot(p, size) >= n {
      ScaleMono(n, Quot(p, size), size);
    }
  }

  lemma Apart(a: Area, c: nat, d: nat)
    requires a.first <= c && a.first <= d && c != d
    ensures a.At(c) + a.size <= a.At(d) || a.At(d) + a.size <= a.At(c)
  {
    if c < d {
      ScaleMono(c - a.first, d - a.first, a.size);
    } else {
      ScaleMono(d - a.first, c - a.first, a.size);
    }
  }

  /** A write inside cluster number `k` of a file is a write at the same place of its bytes. */
  lemma PieceWritten(a: Area, disk: seq<Byte>, s: seq<nat>, k: nat, o: nat, piece: seq<Byte>)
    requires Stored(a, disk, s) && k < |s| && o + |piece| <= a.size
    ensures Scale(k, a.size) + a.size <= Scale(|s|, a.size)
    ensures var d := Splice(disk, a.At(s[k]) + o, piece);
      Stored(a, d, s) && Content(a, d, s) == Splice(Content(a, disk, s), Scale(k, a.size) + o, piece)
  {
    hide Scale, Splice, Content, Stored;
    InDisk(a, disk, s, k);
    PieceRoom(k, |s|, a.size);
    StoredKept(a, disk, Splice(disk, a.At(s[k]) + o, piece), s);
    var now := Splice(Content(a, disk, s), Scale(k, a.size) + o, piece);
    var after := Content(a, Splice(disk, a.At(s[k]) + o, piece), s);
    forall p | 0 <= p < |now| ensures after[p] == now[p] {
      WrittenAt(a, disk, s, k, o, piece, p);
    }
  }

  lemma PieceRoom(k: nat, n: nat, size: nat)
    requires k < n
    ensures Scale(k, size) + size <= Scale(n, size)
  {
  }

  lemma WrittenAt(a: Area, disk: seq<Byte>, s: seq<nat>, k: nat, o: nat, piece: seq<Byte>, p: nat)
    requires Stored(a, disk, s) && k < |s| && o + |piece| <= a.size && p < Scale(|s|, a.size)
    requires Scale(k, a.size) + a.size <= Scale(|s|, a.size)
    ensures a.first <= s[k] && a.At(s[k]) + a.size <= |disk|
    ensures Stored(a, Splice(disk, a.At(s[k]) + o, piece), s)
    ensures Content(a, Splice(disk, a.At(s[k]) + o, piece), s)[p] == Splice(Content(a, disk, s), Scale(k, a.size) + o, piece)[p]
  {
    hide Scale, Splice, ByteAt, Content, Stored;
    InDisk(a, disk, s, k);
    var d := Splice(disk, a.At(s[k]) + o, piece);
    StoredKept(a, disk, d, s);
    PieceByte(a, disk, s, k, o, piece, p);
    ContentIs(a, disk, s, p);
    ContentIs(a, d, s, p);
    SpliceAt(Content(a, disk, s), Scale(k, a.size) + o, piece, p);
  }

  lemma StoredKept(a: Area, disk: seq<Byte>, d: seq<Byte>, s: seq<nat>)
    requires Stored(a, disk, s) && |d| == |disk|
    ensures Stored(a, d, s)
  {
  }

  lemma ContentIs(a: Area, disk: seq<Byte>, s: seq<nat>, p: nat)
    requires Stored(a, disk, s) && p < Scale(|s|, a.size)
    ensures Content(a, disk, s)[p] == ByteAt(a, disk, s, p)
  {
  }

  lemma SpliceAt(s: seq<Byte>, at: nat, buf: seq<Byte>, p: nat)
    requires at + |buf| <= |s| && p < |s|
    ensures Splice(s, at, buf)[p] == if at <= p < at + |buf| then buf[p - at] else s[p]
  {
  }

  lemma PieceByte(a: Area, disk: seq<Byte>, s: seq<nat>, k: nat, o: nat, piece: seq<Byte>, p: nat)
    requires Stored(a, disk, s) && k < |s| && o + |piece| <= a.size && p < Scale(|s|, a.size)
    ensures var at := Scale(k, a.size) + o;
      ByteAt(a, Splice(disk, a.At(s[k]) + o, piece), s, p) == if at <= p < at + |piece| then piece[p - at] else ByteAt(a, disk, s, p)
  {
    hide Scale, Splice, Quot, Rem;
    var j, x := Quot(p, a.size), Rem(p, a.size);
    ClusterOf(p, |s|, a.size);
    SpliceAt(disk, a.At(s[k]) + o, piece, a.At(s[j]) + x);
    if j != k {
      assert s[j] != s[k];
      Apart(a, s[j], s[k]);
      ScaleMono(if j < k then j else k, if j < k then k else j, a.size);
    }
  }

  lemma PieceRead(a: Area, disk: seq<Byte>, s: seq<nat>, k: nat, o: nat, n: nat)
    requires Stored(a, disk, s) && k < |s| && o + n <= a.size
    ensures Scale(k, a.size) + a.size <= Scale(|s|, a.size)
    ensures disk[a.At(s[k]) + o..a.At(s[k]) + o + n] == Content(a, disk, s)[Scale(k, a.size) + o..Scale(k, a.size) + o + n]
  {
    hide Scale, Content, Stored;
    PieceRoom(k, |s|, a.size);
    InDisk(a, disk, s, k);
    var at, to := a.At(s[k]) + o, Scale(k, a.size) + o;
    var l, r := disk[at..at + n], Content(a, disk, s)[to..to + n];
    forall x | 0 <= x < n ensures l[x] == r[x] {
      ContentAt(a, disk, s, k, o + x);
    }
  }

  lemma InDisk(a: Area, disk: seq<Byte>, s: seq<nat>, k: nat)
    requires Stored(a, disk, s) && k < |s|
    ensures a.first <= s[k] && a.At(s[k]) + a.size <= |disk|
  {
  }

  lemma ContentAt(a: Area, disk: seq<Byte>, s: seq<nat>, k: nat, x: nat)
    requires Stored(a, disk, s) && k < |s| && x < a.size && Scale(k, a.size) + a.size <= Scale(|s|, a.size)
    ensures a.At(s[k]) + x < |disk| && Content(a, disk, s)[Scale(k, a.size) + x] == disk[a.At(s[k]) + x]
  {
    hide Scale, Quot, Rem, ByteAt;
    ScaleIsProduct(k, a.size);
    QuotRemUnique(Scale(k, a.size) + x, a.size, k, x);
    ByteIs(a, disk, s, k, x);
  }

  lemma ByteIs(a: Area, disk: seq<Byte>, s: seq<nat>, k: nat, x: nat)
    requires Stored(a, disk, s) && k < |s| && x < a.size && Scale(k, a.size) + a.size <= Scale(|s|, a.size)
    requires Quot(Scale(k, a.size) + x, a.size) == k && Rem(Scale(k, a.size) + x, a.size) == x
    ensures ByteAt(a, disk, s, Scale(k, a.size) + x) == disk[a.At(s[k]) + x]
  {
  }

  /** Only bytes of these clusters differ. */
  ghost predicate OnlyIn(a: Area, disk: seq<Byte>, d: seq<Byte>, s: seq<nat>) {
    && |d| == |disk|
    && forall p :: 0 <= p < |disk| && d[p] != disk[p] ==> InSome(a, s, p)
  }

  ghost predicate InSome(a: Area, s: seq<nat>, p: nat) {
    exists k :: 0 <= k < |s| && a.first <= s[k] && a.At(s[k]) <= p < a.At(s[k]) + a.size
  }

  lemma OnlyInPiece(a: Area, disk: seq<Byte>, s: seq<nat>, k: nat, o: nat, piece: seq<Byte>)
    requires Stored(a, disk, s) && k < |s| && o + |piece| <= a.size
    ensures OnlyIn(a, disk, Splice(disk, a.At(s[k]) + o, piece), s)
  {
  }

  /** What was written is what is read back, as far as the file goes, and the rest is what was there. */
  lemma WrittenIsRead(data: seq<Byte>, offset: nat, buf: seq<Byte>, at: nat, size: nat)
    ensures Window(Clipped(data, offset, buf), offset, |buf|) ==
      if offset >= |data| then [] else if offset + |buf| <= |data| then buf else buf[..|data| - offset]
    ensures at + size <= offset || offset + |buf| <= at ==> Window(Clipped(data, offset, buf), at, size) == Window(data, at, size)
  {
    var n := if offset + |buf| <= |data| then |buf| else if offset < |data| then |data| - offset else 0;
    var now := Clipped(data, offset, buf);
    assert offset < |data| ==> now == Splice(data, offset, buf[..n]) && now[offset..offset + n] == buf[..n];
    assert buf[..|buf|] == buf;
  }

  lemma NothingChanged(a: Area, disk: seq<Byte>, s: seq<nat>)
    ensures OnlyIn(a, disk, disk, s)
  {
  }

  lemma OnlyInTwice(a: Area, disk: seq<Byte>, d: seq<Byte>, e: seq<Byte>, s: seq<nat>)
    requires OnlyIn(a, disk, d, s) && OnlyIn(a, d, e, s)
    ensures OnlyIn(a, disk, e, s)
  {
  }

  /** A file that shares no cluster keeps its bytes. */
  lemma OtherFileKept(a: Area, disk: seq<Byte>, d: seq<Byte>, s: seq<nat>, u: seq<nat>)
    requires Stored(a, disk, u) && OnlyIn(a, disk, d, s) && forall c :: c in u ==> c !in s
    ensures Stored(a, d, u) && Content(a, d, u) == Content(a, disk, u)
  {
    forall p: nat | p < Scale(|u|, a.size) ensures ByteAt(a, d, u, p) == ByteAt(a, disk, u, p) {
      ClusterOf(p, |u|, a.size);
      var c := u[Quot(p, a.size)];
      var x := a.At(c) + Rem(p, a.size);
      if d[x] != disk[x] {
        assert InSome(a, s, x);
        var k :| 0 <= k < |s| && a.first <= s[k] && a.At(s[k]) <= x < a.At(s[k]) + a.size;
        assert c in u && s[k] in s;
        Apart(a, c, s[k]);
      }
    }
  }

  /** The head begins in cluster `startChunk`; the whole clusters and the tail begin on cluster boundaries. */
  predicate Placed(c: FsChunks, offset: nat, length: nat, size: nat) {
    && offset == Scale(c.startChunk, size) + c.startOffset && c.startOffset < size
    && c.startSize + Scale(c.numFullChunks, size) + c.endSize == length
    && c.startOffset + c.startSize <= size && c.endSize < size
    && (c.numFullChunks > 0 || c.endSize > 0 ==> offset + c.startSize == Scale(c.startChunk + HeadChunks(c), size))
  }

  /** Where the pieces of a range lie. */
  lemma PiecesPlaced(offset: nat, length: nat, size: nat)
    requires 0 < size < 0x1_0000_0000 && length < 0x1_0000_0000 && Quot(offset, size) < 0x1_0000_0000
    ensures Placed(Chunkify(offset, length, size), offset, length, size)
  {
    ChunkifyTiles(offset, length, size);
    var c := Chunkify(offset, length, size);
    hide Scale;
    ScaleIsProduct(c.startChunk, size);
    ScaleIsProduct(c.numFullChunks, size);
    ScaleIsProduct(c.startChunk + HeadChunks(c), size);
  }

  /** The first piece lies in a file of `n` clusters exactly when its cluster does. */
  lemma StartsIn(offset: nat, size: nat, c: FsChunks, length: nat, n: nat)
    requires size > 0 && Placed(c, offset, length, size)
    ensures c.startChunk < n ==> offset < Scale(n, size)
    ensures c.startChunk >= n ==> offset >= Scale(n, size) && Scale(c.startChunk + HeadChunks(c), size) >= Scale(n, size)
    ensures c.startChunk + HeadChunks(c) >= n ==> Scale(c.startChunk + HeadChunks(c), size) >= Scale(n, size)
  {
    ScaleMono(if c.startChunk < n then c.startChunk else n, if c.startChunk < n then n else c.startChunk, size);
    if n <= c.startChunk + HeadChunks(c) {
      ScaleMono(n, c.startChunk + HeadChunks(c), size);
    }
  }

  // ---- as far as a file goes ----

  /** `buf` written at byte `at` of a file that does not grow. */
  function Clipped(data: seq<Byte>, at: nat, buf: seq<Byte>): (r: seq<Byte>)
    ensures |r| == |data|
  {
    if at >= |data| then data else Splice(data, at, if at + |buf| <= |data| then buf else buf[..|data| - at])
  }

  /** The `n` bytes from `at` on, as far as there are any. */
  function Window(data: seq<Byte>, at: nat, n: nat): seq<Byte> {
    if at >= |data| then [] else data[at..if at + n <= |data| then at + n else |data|]
  }

  /** One piece has been written: the rest is what is left to do. */
  lemma ClippedPiece(data: seq<Byte>, mid: seq<Byte>, at: nat, buf: seq<Byte>, n: nat)
    requires n <= |buf| && at + n <= |data| && mid == Splice(data, at, buf[..n])
    ensures Clipped(mid, at + n, buf[n..]) == Clipped(data, at, buf)
  {
  }

  lemma NothingLeft(data: seq<Byte>, at: nat, rest: seq<Byte>)
    ensures rest == [] ==> Clipped(data, at, rest) == data
  {
  }

  lemma WindowNext(data: seq<Byte>, at: nat, n: nat, rest: nat)
    requires at + n <= |data|
    ensures data[at..at + n] + Window(data, at + n, rest) == Window(data, at, n + rest)
  {
  }

  lemma WindowNothing(data: seq<Byte>, at: nat)
    ensures Window(data, at, 0) == []
  {
  }
}
